/** The parts of C++ `std::string` that the telemetry framing relies on:
    `find`, `find_first_of`, `rfind` and `substr`, over `seq<char>`.
    Positions and counts are `size_t` values: `Npos` is the largest one and
    arithmetic on them wraps modulo `SizeMod`. */
module CppString {

  /** 2^64: a 64-bit `size_t` is assumed, and its arithmetic is taken modulo
      this value. A 32-bit `size_t` (modulus 2^32, strings shorter than
      2^32 - 1) gives the same wrap-then-clamp behaviour. */
  const SizeMod: nat := 0x1_0000_0000_0000_0000

  /** `std::string::npos`, the largest `size_t`, returned when a search fails. */
  const Npos: nat := SizeMod - 1

  /** Every `std::string` is shorter than `npos` (its `max_size()` is smaller),
      so no valid position can be mistaken for `npos`. */
  predicate IsStdString(s: seq<char>) {
    |s| < Npos
  }

  /** `pat` occurs in `s` starting at position `i`. */
  predicate Occurs(s: seq<char>, pat: seq<char>, i: nat) {
    i + |pat| <= |s| && s[i..i + |pat|] == pat
  }

  /** `pat` occurs somewhere in `s`. */
  ghost predicate Contains(s: seq<char>, pat: seq<char>) {
    exists i: nat :: Occurs(s, pat, i)
  }

  /** Subtraction and addition of `size_t` values, wrapping modulo 2^64. */
  function SizeSub(a: nat, b: nat): (r: nat)
    requires a < SizeMod && b < SizeMod
    ensures r < SizeMod
    ensures a >= b ==> r == a - b
    ensures a < b ==> r == SizeMod - (b - a)
  {
    (a - b) % SizeMod
  }

  function SizeAdd(a: nat, b: nat): (r: nat)
    requires a < SizeMod && b < SizeMod
    ensures r < SizeMod
    ensures a + b < SizeMod ==> r == a + b
    ensures a + b >= SizeMod ==> r == a + b - SizeMod
  {
    (a + b) % SizeMod
  }

  /** The search behind `s.find(pat)`, started at position `from`. */
  function FindFrom(s: seq<char>, pat: seq<char>, from: nat): (r: nat)
    requires IsStdString(s)
    requires from <= |s|
    ensures r == Npos || (from <= r && Occurs(s, pat, r))
    ensures forall k: nat :: from <= k && (r == Npos || k < r) ==> !Occurs(s, pat, k)
    decreases |s| - from
  {
    if from + |pat| > |s| then Npos
    else if s[from..from + |pat|] == pat then from
    else FindFrom(s, pat, from + 1)
  }

  /** `s.find(pat)`: the first position where `pat` occurs, or `npos`. */
  function Find(s: seq<char>, pat: seq<char>): (r: nat)
    requires IsStdString(s)
    ensures r != Npos ==> Occurs(s, pat, r) && forall k: nat :: k < r ==> !Occurs(s, pat, k)
    ensures r == Npos <==> !Contains(s, pat)
  {
    FindFrom(s, pat, 0)
  }

  /** The search behind `s.find_first_of(chars)`, started at position `from`. */
  function FindFirstOfFrom(s: seq<char>, chars: seq<char>, from: nat): (r: nat)
    requires IsStdString(s)
    requires from <= |s|
    ensures r == Npos || (from <= r < |s| && s[r] in chars)
    ensures forall k :: from <= k < |s| && (r == Npos || k < r) ==> s[k] !in chars
    decreases |s| - from
  {
    if from == |s| then Npos
    else if s[from] in chars then from
    else FindFirstOfFrom(s, chars, from + 1)
  }

  /** `s.find_first_of(chars)`: the first position holding any of `chars`, or `npos`. */
  function FindFirstOf(s: seq<char>, chars: seq<char>): (r: nat)
    requires IsStdString(s)
    ensures r != Npos ==> r < |s| && s[r] in chars && forall k :: 0 <= k < r ==> s[k] !in chars
    ensures r == Npos <==> forall k :: 0 <= k < |s| ==> s[k] !in chars
  {
    FindFirstOfFrom(s, chars, 0)
  }

  /** The backward search behind `s.rfind(pat)`, trying start positions
      `at`, `at - 1`, ..., `0`. */
  function RFindFrom(s: seq<char>, pat: seq<char>, at: nat): (r: nat)
    requires IsStdString(s)
    requires at + |pat| <= |s|
    ensures r == Npos || (r <= at && Occurs(s, pat, r))
    ensures forall k: nat :: k <= at && (r == Npos || r < k) ==> !Occurs(s, pat, k)
    decreases at
  {
    if s[at..at + |pat|] == pat then at
    else if at == 0 then Npos
    else RFindFrom(s, pat, at - 1)
  }

  /** `s.rfind(pat)`: the last position where `pat` occurs, or `npos`. */
  function RFind(s: seq<char>, pat: seq<char>): (r: nat)
    requires IsStdString(s)
    ensures r != Npos ==> Occurs(s, pat, r) && forall k: nat :: r < k ==> !Occurs(s, pat, k)
    ensures r == Npos <==> !Contains(s, pat)
  {
    if |pat| > |s| then Npos else RFindFrom(s, pat, |s| - |pat|)
  }

  /** `s.substr(pos, count)`: the longest piece of `s` that starts at `pos`
      and holds at most `count` characters. `substr` throws `out_of_range`
      when `pos > size()`; callers here never pass such a position. */
  function Substr(s: seq<char>, pos: nat, count: nat): (r: seq<char>)
    requires pos <= |s|
    ensures |r| <= count && pos + |r| <= |s|
    ensures r == s[pos..pos + |r|]
    ensures |r| < count ==> pos + |r| == |s|
  {
    if count <= |s| - pos then s[pos..pos + count] else s[pos..]
  }
}
