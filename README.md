# Telemetry framing and polynomial helpers of an MPC vehicle controller

The controller receives telemetry from a driving simulator over Socket.IO.
For each tick it does the following:

1. It extracts the JSON payload of the event.
2. It moves the waypoints into the car's frame.
3. It fits a cubic to them with `polyfit`.
4. It evaluates that cubic with `polyeval` to get the cross-track error.
5. It hands the state to a nonlinear MPC solver.
6. It splits the solver's flat result vector into the predicted trajectory
   (`mpc_x_vals`, `mpc_y_vals`) that goes back to the simulator.

This project models the deterministic, exactly specifiable logic of
`src/main.cpp`:

- `cpp_string.dfy` (module `CppString`) has the `std::string` operations that
  `hasData` uses: `find`, `find_first_of`, `rfind` and `substr`. Positions
  are `size_t` values, and a 64-bit `size_t` is assumed: `npos = 2^64 - 1`
  and `size_t` arithmetic wraps modulo 2^64. A 32-bit `size_t` gives the
  same wrap-then-clamp behaviour with 2^32 in place of 2^64.
- `socket_io.dfy` (module `SocketIO`) covers three things:
  - the message text built from the received buffer;
  - the `"42"` event guard;
  - `hasData` and the handler's choice between parsing a payload, sending
    the manual-driving message, and doing nothing.
- `polynomial.dfy` (module `Polynomial`) covers `polyeval` as a loop, proved
  equal to the sum Σ coeffs[i]·x^i and to Horner's rule. It also builds the
  `polyfit` design matrix in an `array2<real>`, proved to hold
  `A[j,i] == xvals[j]^i`.
- `trajectory.dfy` (module `Trajectory`) covers the initial state handed to
  the solver and the split of the solver's result into predicted x and y
  coordinates. Interleaving the two outputs gives back `result[2..]`.

The behaviour of `hasData` depends on where the first `[` (`b1`) and the last
`}]` (`b2`) are. The count `b2 - b1 + 2` is unsigned arithmetic.

- `b1 == b2` can never happen, because `s[b1]` is `[` and `s[b2]` is `}`.
- If `b1 < b2`, the result is the frame `s[b1..b2+2]`.
- `b2 == b1 - 1` can never happen, because the character after a `}]` is `]`
  and not `[`.
- If `b2 == b1 - 2`, the count is 0 and the result is empty.
- If `b2 < b1 - 2`, the count wraps to nearly 2^64. `substr` clamps it, so
  the result is the whole rest of the text from `b1`. That result does not
  end in `}]`.

## Model

| member | source | states |
|---|---|---|
| CppString.SizeSub | src/main.cpp:30 | `size_t` subtraction: the plain difference when it is non-negative, otherwise the difference wrapped to 2^64 minus the deficit. |
| CppString.SizeAdd | src/main.cpp:30 | `size_t` addition: the plain sum below 2^64, otherwise the sum minus 2^64. |
| CppString.FindFrom | src/main.cpp:24 | Searching from `from` returns npos or a position at or after `from` where the pattern occurs, and nothing at or after `from` before it matches. |
| CppString.Find | src/main.cpp:24 | `s.find(pat)` returns the first position where `pat` occurs. It returns npos exactly when `pat` occurs nowhere. |
| CppString.FindFirstOfFrom | src/main.cpp:25 | Searching from `from` returns npos or the first position at or after `from` that holds one of the characters. |
| CppString.FindFirstOf | src/main.cpp:25 | `s.find_first_of(chars)` returns the first position holding one of `chars`. It returns npos exactly when no position does. |
| CppString.RFindFrom | src/main.cpp:26 | Searching backward from `at` returns npos or the last position at or before `at` where the pattern occurs. |
| CppString.RFind | src/main.cpp:26 | `s.rfind(pat)` returns the last position where `pat` occurs. It returns npos exactly when `pat` occurs nowhere. |
| CppString.Substr | src/main.cpp:30 | `s.substr(pos, count)` is the longest slice starting at `pos` with at most `count` characters. It is shorter than `count` only when it reaches the end of `s`. |
| SocketIO.CString | src/main.cpp:79 | `string(data)` is the prefix of the buffer before its first NUL and contains no NUL. |
| SocketIO.MessageText | src/main.cpp:79 | `sdata` is a NUL-free prefix of the buffer, at most `length` long. It is shorter than `length` only at a NUL or at the end of the buffer. |
| SocketIO.IsEventMessage | src/main.cpp:81 | A message is an event exactly when it is longer than 2 characters and its first two are `4`, `2`. |
| SocketIO.EventPrefix | src/main.cpp:81 | `"42"` followed by any text is an event exactly when that text is non-empty. |
| SocketIO.HasData | src/main.cpp:23-33 | The result is never longer than the input. A non-empty result starts with `[` and occurs in the input at the position of the first `[`. |
| SocketIO.HasDataNull | src/main.cpp:24-28 | If `null` occurs anywhere, the result is empty, whatever the brackets. |
| SocketIO.HasDataNoBrackets | src/main.cpp:25-32 | Without `null`, and with no `[` or no `}]`, the result is empty. |
| SocketIO.FirstBracket | src/main.cpp:25 | `find_first_of("[")` returns the first `[` of the text. |
| SocketIO.HasDataFrame | src/main.cpp:25-30 | Without `null`, and with the first `[` before the last `}]`, the result is exactly the text from that `[` through that `}]`. It starts with `[` and ends with `}]`. |
| SocketIO.NoFrameJustBeforeBracket | src/main.cpp:25-30 | A `}]` can never start at the first `[` (`b2 != b1`) nor at `b1 - 1`, so a count of 1 never arises. |
| SocketIO.HasDataAdjacent | src/main.cpp:30 | When the last `}]` ends right at the first `[` (`b2 == b1 - 2`), the count is 0 and the result is empty. |
| SocketIO.HasDataWrapped | src/main.cpp:30 | When the last `}]` lies further before the first `[`, the unsigned count wraps beyond the remaining length, and the result is the whole suffix from the first `[`. |
| SocketIO.Dispatch | src/main.cpp:81-84 | The handler replies only to messages longer than 2 characters that start with `42`. Such an event is parsed exactly when `hasData` returns a non-empty string, and the payload is that string; otherwise it gets the manual reply. A parsed payload starts with `[`, occurs in the message, and comes from a message without `null`. |
| SocketIO.DispatchFrame | src/main.cpp:81-84 | A `42` event without `null` whose first `[` comes before its last `}]` is parsed, with the payload running from that `[` through that `}]`. |
| SocketIO.DispatchManual | src/main.cpp:197-201 | A `42` event containing `null` gets the manual-driving reply. |
| Polynomial.PowEdges | src/main.cpp:39 | `pow(0, n) == 0` for positive n and `pow(1, n) == 1`; `pow(x, 0) == 1`, 0^0 included, holds by definition of `Pow`. |
| Polynomial.PolyEval | src/main.cpp:36-42 | The accumulator loop returns Σ coeffs[i]·x^i, and this equals Horner's rule for the same coefficients. |
| Polynomial.SumIsHorner | src/main.cpp:36-42 | The summed polynomial value and Horner's rule agree for every coefficient sequence and every x. |
| Polynomial.HornerSnoc | src/main.cpp:38-40 | Adding a top coefficient `a` to Horner's rule adds `a * x^n`, as one more loop iteration adds `coeffs[n] * pow(x, n)`. |
| Polynomial.PolySumAtZero | src/main.cpp:127 | At x = 0 the polynomial's value is `coeffs[0]`, so the cross-track error is the fit's constant term. |
| Polynomial.DesignMatrix | src/main.cpp:47-60 | Given equal lengths and 1 ≤ order ≤ n-1, the fresh matrix is n × (order+1) and every entry is `A[j,i] == xvals[j]^i`. Column 0 is all ones. |
| Polynomial.DesignRowIsPolySum | src/main.cpp:50-63 | A design-matrix row times a coefficient vector equals the polynomial's value at that row's x. This is the residual the least-squares solve minimizes. |
| Trajectory.InitialState | src/main.cpp:126-137 | The solver's initial state has x = y = ψ = 0, the measured speed, the given heading error, and `cte == coeffs[0]`, or 0 when there are no coefficients. |
| Trajectory.InterleaveAppendX | src/main.cpp:165-166 | Pushing an x onto equally long x/y sequences appends it to their interleaving. |
| Trajectory.InterleaveAppendY | src/main.cpp:168-169 | Pushing a y when the x sequence is one longer appends it to their interleaving. |
| Trajectory.SplitPredicted | src/main.cpp:164-171 | For L ≥ 2, `|mpc_x| == (L-1)/2` and `|mpc_y| == (L-2)/2`, `mpc_x[k] == result[2+2k]` and `mpc_y[k] == result[3+2k]`. Interleaving the two gives back `result[2..]` in order, so indices 0 and 1 are never copied. For L < 2 both are empty. |

## Left out

- Network I/O is left out: the uWS hub, connection, disconnection and HTTP callbacks, `listen` and `run`.
- The JSON library is not part of this model: `json::parse`, field extraction, and `msgJson.dump()` with the `"42[\"steer\",...]"` reply assembly. Dispatch stops at the payload it would parse.
- `MPC.h` and `mpc.Solve` are not part of this model: the nonlinear optimizer, vehicle model and cost function. `Trajectory.SplitPredicted` takes the solver's result vector as input.
- The Householder QR least-squares solve in `polyfit` is a foreign Eigen call on floating point. Only the design matrix is modelled.
- Floating-point trigonometry is left out: the global-to-car transform with `cos`/`sin`, `epsi = -atan(coeffs[1])` (a parameter of `Trajectory.InitialState`), and `deg2rad`/`rad2deg`.
- The reference-line sampling `polyeval(coeffs, 2.5 * i)` for the 25 `next_x`/`next_y` points is floating-point sampling for display. It is left out.
- The `sleep_for` latency simulation and `std::cout` logging are timing and I/O, so they are left out.
- Polynomial.PolyEval: doubles are exact `real` numbers, so no rounding behaviour of `pow` or of the accumulation is captured.
- Polynomial.DesignMatrix: the input checks are C `assert`s. They are modelled as preconditions, although a build with `NDEBUG` skips them. The code aborts, and the model follows the code.
- CppString.Substr: the `out_of_range` exception for `pos > size()` is a precondition. `hasData` never calls `substr` with such a position.
- SocketIO.MessageText: `string(data)` on a buffer without a NUL reads past the buffer in C++, which is undefined behaviour. The model stops at the end of the buffer.
- Characters are Dafny `char`s, not C++ bytes. No encoding is modelled.
