/** Framing of the simulator's Socket.IO messages by the message handler:
    the text of a received buffer, the `"42"` event prefix guard, the
    extraction of the JSON payload by `hasData`, and the choice between a
    telemetry reply, a manual-driving reply and no reply. */
module SocketIO {
  import opened CppString

  /** `string(data).substr(0, length)`: the text of a received buffer. The
      `std::string` built from a `char*` stops at the first NUL; a buffer
      without one is read to its end here. */
  function MessageText(data: seq<char>, length: nat): (r: seq<char>)
    ensures |r| <= length && |r| <= |data|
    ensures r == data[..|r|]
    ensures '\0' !in r
    ensures |r| < length && |r| < |data| ==> data[|r|] == '\0'
  {
    var text := CString(data);
    Substr(text, 0, length)
  }

  /** The characters of `data` before its first NUL. */
  function CString(data: seq<char>): (r: seq<char>)
    ensures |r| <= |data| && r == data[..|r|]
    ensures '\0' !in r
    ensures |r| < |data| ==> data[|r|] == '\0'
  {
    if data == [] || data[0] == '\0' then []
    else [data[0]] + CString(data[1..])
  }

  /** The event guard of the handler: the message is longer than two
      characters and starts with '4' (a message) and '2' (an event). */
  predicate IsEventMessage(sdata: seq<char>)
    ensures IsEventMessage(sdata) <==> |sdata| > 2 && sdata[..2] == "42"
  {
    |sdata| > 2 && sdata[0] == '4' && sdata[1] == '2'
  }

  /** A message is an event exactly when it is `"42"` followed by at least
      one more character. */
  lemma EventPrefix(rest: seq<char>)
    ensures IsEventMessage("42" + rest) <==> rest != []
  {
  }

  /** `hasData`: the empty string when the text holds `null`; otherwise, when
      it holds both a `[` and a `}]`, the substring from the first `[` with
      the size_t count `b2 - b1 + 2`, where `b2` is the last `}]`; otherwise
      the empty string. */
  function HasData(s: seq<char>): (r: seq<char>)
    requires IsStdString(s)
    ensures |r| <= |s|
    ensures r != [] ==> r[0] == '[' && Occurs(s, r, FindFirstOf(s, "["))
  {
    var foundNull := Find(s, "null");
    var b1 := FindFirstOf(s, "[");
    var b2 := RFind(s, "}]");
    if foundNull != Npos then ""
    else if b1 != Npos && b2 != Npos then Substr(s, b1, SizeAdd(SizeSub(b2, b1), 2))
    else ""
  }

  /** Whether the handler parses a JSON payload, sends the manual-driving
      message, or does nothing. */
  datatype Reply = NoReply | Manual | Parse(payload: seq<char>)

  /** The reply sent in manual mode. */
  const ManualMessage: seq<char> := "42[\"manual\",{}]"

  /** The message handler's dispatch, up to the JSON parse. */
  function Dispatch(sdata: seq<char>): (r: Reply)
    requires IsStdString(sdata)
    ensures r == NoReply <==> !(|sdata| > 2 && sdata[..2] == "42")
    ensures IsEventMessage(sdata) ==> (r == Manual <==> HasData(sdata) == "")
    ensures r.Parse? ==> r.payload == HasData(sdata)
    ensures r.Parse? ==> r.payload != [] && r.payload[0] == '[' && Occurs(sdata, r.payload, FindFirstOf(sdata, "["))
    ensures Contains(sdata, "null") ==> !r.Parse?
  {
    if IsEventMessage(sdata) then
      var s := HasData(sdata);
      if s != "" then Parse(s) else Manual
    else NoReply
  }

  /** `hasData` yields nothing when `null` occurs anywhere, whatever the
      brackets. */
  lemma HasDataNull(s: seq<char>)
    requires IsStdString(s) && Contains(s, "null")
    ensures HasData(s) == ""
  {
  }

  /** Without `null`, `hasData` yields nothing unless both a `[` and a `}]`
      occur. */
  lemma HasDataNoBrackets(s: seq<char>)
    requires IsStdString(s) && !Contains(s, "null")
    requires '[' !in s || !Contains(s, "}]")
    ensures HasData(s) == ""
  {
  }

  /** The well-formed frame: the first `[` comes before the last `}]`, and the
      result is exactly the text from that `[` through that `}]`. */
  lemma HasDataFrame(s: seq<char>, b1: nat, b2: nat)
    requires IsStdString(s) && !Contains(s, "null")
    requires b1 < |s| && s[b1] == '[' && '[' !in s[..b1]
    requires Occurs(s, "}]", b2) && forall k: nat :: b2 < k ==> !Occurs(s, "}]", k)
    requires b1 < b2
    ensures HasData(s) == s[b1..b2 + 2]
    ensures HasData(s)[0] == '[' && HasData(s)[|HasData(s)| - 2..] == "}]"
  {
    FirstBracket(s, b1);
    assert RFind(s, "}]") == b2;
  }

  /** The last `}]` can never start at the first `[`, nor end right where it
      stands: a `}]` holds `}` and is followed by `]`, never by `[`. */
  lemma NoFrameJustBeforeBracket(s: seq<char>, b1: nat, b2: nat)
    requires b1 < |s| && s[b1] == '['
    requires Occurs(s, "}]", b2)
    ensures b1 != b2
    ensures b2 + 1 != b1
  {
  }

  /** When the last `}]` ends immediately before the first `[`, the count is
      zero and `hasData` yields nothing. */
  lemma HasDataAdjacent(s: seq<char>, b1: nat, b2: nat)
    requires IsStdString(s) && !Contains(s, "null")
    requires b1 < |s| && s[b1] == '[' && '[' !in s[..b1]
    requires Occurs(s, "}]", b2) && forall k: nat :: b2 < k ==> !Occurs(s, "}]", k)
    requires b2 + 2 == b1
    ensures HasData(s) == ""
  {
  }

  /** When the last `}]` lies further before the first `[`, the unsigned
      count `b2 - b1 + 2` wraps to a huge value, `substr` clamps it, and
      `hasData` yields the whole rest of the text from the first `[`. */
  lemma HasDataWrapped(s: seq<char>, b1: nat, b2: nat)
    requires IsStdString(s) && !Contains(s, "null")
    requires b1 < |s| && s[b1] == '[' && '[' !in s[..b1]
    requires Occurs(s, "}]", b2) && forall k: nat :: b2 < k ==> !Occurs(s, "}]", k)
    requires b2 + 2 < b1
    ensures SizeAdd(SizeSub(b2, b1), 2) > |s| - b1
    ensures HasData(s) == s[b1..]
  {
  }

  /** `find_first_of("[")` finds the first `[`. */
  lemma FirstBracket(s: seq<char>, b1: nat)
    requires IsStdString(s)
    requires b1 < |s| && s[b1] == '[' && '[' !in s[..b1]
    ensures FindFirstOf(s, "[") == b1
  {
  }

  /** A `"42"` event carrying a well-formed frame is parsed, and the payload
      is the text from the first `[` through the last `}]`. */
  lemma DispatchFrame(s: seq<char>, b1: nat, b2: nat)
    requires IsStdString(s) && IsEventMessage(s) && !Contains(s, "null")
    requires b1 < |s| && s[b1] == '[' && '[' !in s[..b1]
    requires Occurs(s, "}]", b2) && forall k: nat :: b2 < k ==> !Occurs(s, "}]", k)
    requires b1 < b2
    ensures Dispatch(s) == Parse(s[b1..b2 + 2])
  {
    HasDataFrame(s, b1, b2);
  }

  /** A `"42"` event whose text holds `null` gets the manual-driving reply. */
  lemma DispatchManual(sdata: seq<char>)
    requires IsStdString(sdata) && IsEventMessage(sdata)
    requires Contains(sdata, "null")
    ensures Dispatch(sdata) == Manual
  {
  }
}
