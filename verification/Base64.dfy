/** The Base64 codec of the offline store.  Both loops keep a 32-bit accumulator that is shifted and
    never masked, so it overflows on long inputs; every operation on it wraps here as it does there. */
module Base64 {
  import opened Bytes

  // ---- The alphabet ----

  /** The alphabet character of a 6-bit value, by the ranges of Table 1 of RFC 4648. */
  function Char(v: int): (c: char)
    requires 0 <= v < 64
  {
    if v < 26 then ('A' as int + v) as char
    else if v < 52 then ('a' as int + (v - 26)) as char
    else if v < 62 then ('0' as int + (v - 52)) as char
    else if v == 62 then '+' else '/'
  }

  /** The offset `strchr` finds `c` at in the alphabet, or -1.  The terminating NUL counts as found. */
  function Offset(c: char): (v: int)
    ensures -1 <= v <= 64
  {
    if 'A' <= c <= 'Z' then c as int - 'A' as int
    else if 'a' <= c <= 'z' then c as int - 'a' as int + 26
    else if '0' <= c <= '9' then c as int - '0' as int + 52
    else if c == '+' then 62
    else if c == '/' then 63
    else if c == '\0' then 64 else -1
  }

  const UPPER := "ABCDEFGHIJKLMNOPQRSTUVWXYZ"
  const LOWER := "abcdefghijklmnopqrstuvwxyz"
  const DIGITS := "0123456789"

  /** The alphabet as the program writes it out. */
  const ALPHABET := UPPER + LOWER + DIGITS + "+/"

  lemma CharInRanges(v: int)
    requires 0 <= v < 64
    ensures v < 26 ==> Char(v) == UPPER[v]
    ensures 26 <= v < 52 ==> Char(v) == LOWER[v - 26]
    ensures 52 <= v < 62 ==> Char(v) == DIGITS[v - 52]
  {
  }

  /** The ranges are the alphabet, character by character. */
  lemma CharIsAlphabet(v: int)
    requires 0 <= v < 64
    ensures |ALPHABET| == 64 && Char(v) == ALPHABET[v]
  {
    CharInRanges(v);
  }

  /** A character is found at its place in the alphabet, the NUL behind it, and any other nowhere. */
  lemma OffsetIsPlace(c: char)
    ensures Offset(c) >= 0 <==> c in ALPHABET || c == '\0'
    ensures c in ALPHABET ==> Offset(c) < 64 && ALPHABET[Offset(c)] == c
    ensures Offset('\0') == 64
  {
    if 0 <= Offset(c) < 64 { CharIsAlphabet(Offset(c)); }
    if c in ALPHABET {
      var v :| 0 <= v < |ALPHABET| && ALPHABET[v] == c;
      CharIsAlphabet(v);
      OffsetOfChar(v);
    }
  }

  lemma OffsetOfChar(v: int)
    requires 0 <= v < 64
    ensures Offset(Char(v)) == v && Char(v) != '=' && Char(v) != '\0'
  {
  }

  // ---- 32-bit arithmetic ----

  function Pow2(n: nat): (p: int)
    ensures p >= 1
  {
    if n == 0 then 1 else 2 * Pow2(n - 1)
  }

  /** Arithmetic right shift. */
  function Shr(x: int, n: nat): int {
    x / Pow2(n)
  }

  lemma Powers()
    ensures Pow2(0) == 1 && Pow2(2) == 4 && Pow2(4) == 16 && Pow2(6) == 64
  {
    assert Pow2(3) == 8 && Pow2(5) == 32;
  }

  lemma MulBound(d: int, m: int)
    requires m > 0
    ensures d >= 1 ==> d * m >= m
    ensures d <= -1 ==> d * m <= -m
  {
  }

  lemma ModUnique(x: int, m: int, q: int, r: int)
    requires m > 0 && x == q * m + r && 0 <= r < m
    ensures x / m == q && x % m == r
  {
    var d := x / m - q;
    assert x == (x / m) * m + x % m;
    assert d * m == r - x % m;
    MulBound(d, m);
  }

  lemma SameLow(x: int, y: int, q: int, m: int)
    requires m > 0 && x == y + q * m
    ensures x % m == y % m
  {
    var r := y % m;
    var a := y / m;
    assert y == a * m + r;
    assert x == (a + q) * m + r;
    ModUnique(x, m, a + q, r);
  }

  /** Wrapping keeps the low bits. */
  lemma WrapLow(x: int)
    ensures Wrap(x) % 64 == x % 64 && Wrap(x) % 256 == x % 256
    ensures Wrap(x) % 0x400 == x % 0x400 && Wrap(x) % 0x1000 == x % 0x1000
  {
    var w, k := Wrap(x), (x + 0x8000_0000) / TWO32;
    assert w == x - k * TWO32;
    SameLow(w, x, -k * 0x400_0000, 64);
    SameLow(w, x, -k * 0x100_0000, 256);
    SameLow(w, x, -k * 0x40_0000, 0x400);
    SameLow(w, x, -k * 0x10_0000, 0x1000);
  }

  /** A window of bits only looks at the bits below its top: the window of `w` values above `p`. */
  lemma Window(x: int, p: int, w: int, top: int)
    requires p > 0 && w > 0 && top == w * p
    ensures x / p % w == x % top / p
  {
    var q, r := x / top, x % top;
    var u := r / p;
    assert x == q * top + r && r == u * p + r % p;
    assert q * top == (q * w) * p;
    assert x == (q * w + u) * p + r % p;
    ModUnique(x, p, q * w + u, r % p);
    MulMono(u, w, p);
    ModUnique(q * w + u, w, q, u);
  }

  lemma MulMono(u: int, w: int, p: int)
    requires p > 0
    ensures u >= w ==> u * p >= w * p
  {
    if u >= w {
      MulNonNegative(u - w, p);
      assert (u - w) * p == u * p - w * p;
    }
  }

  lemma MulNonNegative(d: int, p: int)
    requires d >= 0 && p > 0
    ensures d * p >= 0
  {
  }

  lemma LowOf(x: int, y: int, m: int, n: int, k: int)
    requires m > 0 && n > 0 && n == k * m && x % n == y % n
    ensures x % m == y % m
  {
    var q := x / n - y / n;
    assert x - y == q * n;
    assert q * n == (q * k) * m;
    SameLow(x, y, q * k, m);
  }

  // ---- Encoding ----

  /** Section 4 of RFC 4648: three bytes to four characters, the last group padded. */
  function Encoded(s: bytes): string {
    if |s| == 0 then ""
    else if |s| == 1 then [Char(s[0] / 4), Char((s[0] % 4) * 16), '=', '=']
    else if |s| == 2 then
      [Char(s[0] / 4), Char((s[0] % 4) * 16 + s[1] / 16), Char((s[1] % 16) * 4), '=']
    else Group(s[0], s[1], s[2]) + Encoded(s[3..])
  }

  function Group(a: byte, b: byte, c: byte): (g: string)
    ensures |g| == 4
  {
    [Char(a / 4), Char((a % 4) * 16 + b / 16), Char((b % 16) * 4 + c / 64), Char(c % 64)]
  }

  /** The characters already fixed by the bytes of `s`. */
  function Emitted(s: bytes): string {
    if |s| == 0 then ""
    else if |s| == 1 then [Char(s[0] / 4)]
    else if |s| == 2 then [Char(s[0] / 4), Char((s[0] % 4) * 16 + s[1] / 16)]
    else Group(s[0], s[1], s[2]) + Emitted(s[3..])
  }

  /** What one more byte fixes, given the byte before it. */
  function Emission(phase: nat, last: int, c: byte): string
    requires phase < 3
  {
    if phase == 0 then [Char(c / 4)]
    else if phase == 1 then [Char((last % 4) * 16 + c / 16)]
    else [Char((last % 16) * 4 + c / 64), Char(c % 64)]
  }

  function Last(s: bytes): int {
    if s == [] then 0 else s[|s| - 1]
  }

  lemma {:induction false} EmittedNext(s: bytes, c: byte)
    ensures Emitted(s + [c]) == Emitted(s) + Emission(|s| % 3, Last(s), c)
  {
    hide Char;
    if |s| >= 3 {
      hide Emission, Group;
      var g, rest := Group(s[0], s[1], s[2]), s[3..];
      assert (s + [c])[3..] == rest + [c];
      EmittedNext(rest, c);
      EmissionStep(s, c);
    }
  }

  lemma EmissionStep(s: bytes, c: byte)
    requires |s| >= 3
    ensures Emission(|s| % 3, Last(s), c) == Emission(|s[3..]| % 3, Last(s[3..]), c)
  {
    hide Char;
  }

  /** How the last group is completed. */
  function Tail(phase: nat, last: int): string
    requires phase < 3
  {
    if phase == 0 then "" else if phase == 1 then [Char((last % 4) * 16), '=', '='] else [Char((last % 16) * 4), '=']
  }

  lemma {:induction false} EmittedThenTail(s: bytes)
    ensures Encoded(s) == Emitted(s) + Tail(|s| % 3, Last(s))
  {
    if |s| < 3 {
      ShortTail(s);
    } else {
      hide Char, Tail, Group, Last;
      TailStep(s);
      EmittedThenTail(s[3..]);
      var g, rest, tail := Group(s[0], s[1], s[2]), Emitted(s[3..]), Tail(|s| % 3, Last(s));
      assert g + (rest + tail) == (g + rest) + tail;
    }
  }

  lemma ShortTail(s: bytes)
    requires |s| < 3
    ensures Encoded(s) == Emitted(s) + Tail(|s| % 3, Last(s))
  {
    hide Char, Encoded, Emitted, Tail, Last;
    if |s| == 1 {
      assert s == [s[0]];
      OneTail(s[0]);
    } else if |s| == 2 {
      assert s == [s[0], s[1]];
      TwoTail(s[0], s[1]);
    } else {
      NoTail();
    }
  }

  lemma NoTail()
    ensures Encoded([]) == Emitted([]) + Tail(0, Last([]))
  {
  }

  lemma OneTail(a: byte)
    ensures Encoded([a]) == Emitted([a]) + Tail(1, Last([a]))
  {
    hide Char;
    assert [Char(a / 4)] + [Char((a % 4) * 16), '=', '='] == [Char(a / 4), Char((a % 4) * 16), '=', '='];
  }

  lemma TwoTail(a: byte, b: byte)
    ensures Encoded([a, b]) == Emitted([a, b]) + Tail(2, Last([a, b]))
  {
    hide Char;
    var u, v := Char(a / 4), Char((a % 4) * 16 + b / 16);
    assert [u, v] + [Char((b % 16) * 4), '='] == [u, v, Char((b % 16) * 4), '='];
  }

  lemma {:induction false} EmittedLength(s: bytes)
    ensures |Emitted(s)| == |s| / 3 * 4 + |s| % 3
  {
    hide Char;
    if |s| >= 3 {
      EmittedLength(s[3..]);
    }
  }

  lemma TailStep(s: bytes)
    requires |s| >= 3
    ensures Tail(|s| % 3, Last(s)) == Tail(|s[3..]| % 3, Last(s[3..]))
  {
    hide Char;
  }

  /** The inner loop: the characters that the accumulator holds completely. */
  method EmitReady(val: int, valb: int, result: string) returns (result': string, valb': int)
    requires -6 <= valb <= 6
    ensures valb < 0 ==> result' == result && valb' == valb
    ensures 0 <= valb < 6 ==> result' == result + [Char(Shr(val, valb) % 64)] && valb' == valb - 6
    ensures valb == 6 ==> result' == result + [Char(Shr(val, 6) % 64), Char(Shr(val, 0) % 64)] && valb' == -6
  {
    hide Char, Shr;
    result', valb' := result, valb;
    while valb' >= 0
      invariant -6 <= valb' <= valb && (valb - valb') % 6 == 0
      invariant valb' == valb ==> result' == result
      invariant valb' == valb - 6 ==> valb >= 0 && result' == result + [Char(Shr(val, valb) % 64)]
      invariant valb' == valb - 12 ==> result' == result + [Char(Shr(val, 6) % 64), Char(Shr(val, 0) % 64)]
    {
      result' := result' + [Char(Shr(val, valb') % 64)];
      valb' := valb' - 6;
    }
  }

  method Encode(input: bytes) returns (result: string)
    ensures result == Encoded(input)
  {
    hide Char, Shr, Wrap, Emission, Emitted, Tail, Encoded;
    result := "";
    var val, valb := 0, -6;
    NothingEmitted(input);
    for i := 0 to |input|
      invariant result == Emitted(input[..i]) && valb == 2 * (i % 3) - 6
      invariant Carries(val, i % 3, Last(input[..i]))
    {
      var c := input[i];
      ghost var phase, last := i % 3, Last(input[..i]);
      assert input[..i + 1] == input[..i] + [c];
      EmittedNext(input[..i], c);
      EncodeBits(val, phase, last, c);
      val := Wrap(val * 256 + c);
      valb := valb + 8;
      result, valb := EmitReady(val, valb, result);
    }
    EmittedThenTail(input);
    EncodeTailBits(val, |input| % 3, Last(input));
    if valb > -6 {
      result := result + [Char(Shr(Wrap(val * 256), valb + 8) % 64)];
    }
    result := Pad(result, input);
  }

  /** The loop that appends `=` up to a multiple of four. */
  method Pad(text: string, ghost input: bytes) returns (result: string)
    requires text == Emitted(input) + Tail(|input| % 3, Last(input))[..if |input| % 3 > 0 then 1 else 0]
    ensures result == Encoded(input)
  {
    hide Char, Emitted, Encoded;
    EmittedThenTail(input);
    EmittedLength(input);
    result := text;
    ghost var emitted, tail := Emitted(input), Tail(|input| % 3, Last(input));
    while |result| % 4 != 0
      invariant |emitted| <= |result| <= |emitted| + |tail|
      invariant result == emitted + tail[..|result| - |emitted|]
      invariant |result| - |emitted| >= if |input| % 3 > 0 then 1 else 0
      decreases |emitted| + |tail| - |result|
    {
      result := result + ['='];
    }
  }

  lemma NothingEmitted(s: bytes)
    ensures Emitted(s[..0]) == "" && Carries(0, 0, Last(s[..0])) && s[..|s|] == s
  {
  }

  /** The accumulator still holds the last bits of the bytes before it that no character has used. */
  ghost predicate Carries(val: int, phase: nat, last: int) {
    (phase == 1 ==> val % 4 == last % 4) && (phase == 2 ==> val % 16 == last % 16)
  }

  lemma Mix(val: int, c: byte)
    ensures (val * 256 + c) % 256 == c
    ensures (val * 256 + c) % 0x400 == (val % 4) * 256 + c
    ensures (val * 256 + c) % 0x1000 == (val % 16) * 256 + c
  {
    var x := val * 256 + c;
    ModUnique(x, 256, val, c);
    ModUnique(x, 0x400, val / 4, (val % 4) * 256 + c);
    ModUnique(x, 0x1000, val / 16, (val % 16) * 256 + c);
  }

  /** The characters read after shifting in `c`, in each of the three phases of the loop. */
  lemma EncodeBits(val: int, phase: nat, last: int, c: byte)
    requires phase < 3 && Carries(val, phase, last)
    ensures var v := Wrap(val * 256 + c);
            && Emission(phase, last, c)
               == (if phase < 2 then [Char(Shr(v, 2 * phase + 2) % 64)]
                   else [Char(Shr(v, 6) % 64), Char(Shr(v, 0) % 64)])
            && Carries(v, (phase + 1) % 3, c)
  {
    hide Char, Wrap;
    var v := Wrap(val * 256 + c);
    Powers();
    ShiftedIn(val, v, last, c);
  }

  lemma ShiftedIn(val: int, v: int, last: int, c: byte)
    requires v == Wrap(val * 256 + c)
    ensures v / 4 % 64 == c / 4 && v % 4 == c % 4 && v % 16 == c % 16 && v / 1 % 64 == c % 64
    ensures val % 4 == last % 4 ==> v / 16 % 64 == (last % 4) * 16 + c / 16
    ensures val % 16 == last % 16 ==> v / 64 % 64 == (last % 16) * 4 + c / 64
  {
    hide Wrap;
    WrapLow(val * 256 + c);
    Mix(val, c);
    Window(v, 4, 64, 256);
    Window(v, 16, 64, 0x400);
    Window(v, 64, 64, 0x1000);
    ReadBits(last, c);
    LowOf(v, c, 4, 256, 64);
    LowOf(v, c, 16, 256, 16);
    LowOf(v, c, 64, 256, 4);
  }

  lemma ReadBits(last: int, c: byte)
    ensures ((last % 4) * 256 + c) / 16 == (last % 4) * 16 + c / 16
    ensures ((last % 16) * 256 + c) / 64 == (last % 16) * 4 + c / 64
  {
    ModUnique((last % 4) * 256 + c, 16, (last % 4) * 16 + c / 16, c % 16);
    ModUnique((last % 16) * 256 + c, 64, (last % 16) * 4 + c / 64, c % 64);
  }

  lemma EncodeTailBits(val: int, phase: nat, last: int)
    requires phase < 3 && Carries(val, phase, last)
    ensures phase > 0 ==> Tail(phase, last)
                          == [Char(Shr(Wrap(val * 256), 2 * phase + 2) % 64)] + (if phase == 1 then "==" else "=")
  {
    hide Char, Wrap;
    Powers();
    ShiftedIn(val, Wrap(val * 256 + 0), last, 0);
  }

  /** The text is `4 * ceil(n / 3)` characters, all of the alphabet but at most two `=` at the end. */
  lemma {:induction false} EncodedShape(s: bytes)
    ensures |Encoded(s)| == (|s| + 2) / 3 * 4 && AlphabetThenPadding(Encoded(s), Missing(s))
  {
    hide Char, Offset;
    if |s| >= 3 {
      hide Group, AlphabetThenPadding;
      GroupOffsets(s[0], s[1], s[2]);
      EncodedShape(s[3..]);
      ShapePrepended(Group(s[0], s[1], s[2]), Encoded(s[3..]), Missing(s));
    } else {
      hide Encoded, AlphabetThenPadding;
      ShortShape(s);
    }
  }

  lemma ShortShape(s: bytes)
    requires |s| < 3
    ensures |Encoded(s)| == (|s| + 2) / 3 * 4 && AlphabetThenPadding(Encoded(s), Missing(s))
  {
    hide Char, Offset;
    if |s| == 1 {
      OffsetOfChar(s[0] / 4);
      OffsetOfChar((s[0] % 4) * 16);
    } else if |s| == 2 {
      OffsetOfChar(s[0] / 4);
      OffsetOfChar((s[0] % 4) * 16 + s[1] / 16);
      OffsetOfChar((s[1] % 16) * 4);
    }
  }

  ghost predicate AlphabetThenPadding(text: string, padding: nat) {
    && padding <= |text|
    && (forall i :: 0 <= i < |text| - padding ==> 0 <= Offset(text[i]) < 64)
    && (forall i :: |text| - padding <= i < |text| ==> text[i] == '=')
  }

  lemma ShapePrepended(g: string, rest: string, padding: nat)
    requires AlphabetThenPadding(g, 0) && AlphabetThenPadding(rest, padding)
    ensures AlphabetThenPadding(g + rest, padding)
  {
    hide Offset;
  }

  /** The bytes that the last group lacks. */
  function Missing(s: bytes): nat {
    (3 - |s| % 3) % 3
  }

  lemma GroupOffsets(a: byte, b: byte, c: byte)
    ensures var g := Group(a, b, c);
            && |g| == 4 && Offset(g[0]) == a / 4 && Offset(g[1]) == (a % 4) * 16 + b / 16
            && Offset(g[2]) == (b % 16) * 4 + c / 64 && Offset(g[3]) == c % 64
            && '=' !in g && AlphabetThenPadding(g, 0)
  {
    hide Char, Offset;
    OffsetOfChar(a / 4);
    OffsetOfChar((a % 4) * 16 + b / 16);
    OffsetOfChar((b % 16) * 4 + c / 64);
    OffsetOfChar(c % 64);
  }

  // ---- Decoding ----

  /** The values the decoder takes from a text: up to the first `=`, without the characters that the
      alphabet does not hold. */
  function Values(text: string): (vs: seq<int>)
    ensures forall i :: 0 <= i < |vs| ==> 0 <= vs[i] <= 64
  {
    if text == "" || text[0] == '=' then []
    else if Offset(text[0]) < 0 then Values(text[1..]) else [Offset(text[0])] + Values(text[1..])
  }

  /** Bytes collected from a stream of 6-bit values: `held` ends with the `bits` bits not yet used. */
  function Collected(vs: seq<int>, held: int, bits: nat): bytes {
    if vs == [] then []
    else
      var h := held * 64 + vs[0];
      if bits < 2 then Collected(vs[1..], h, bits + 6)
      else [Shr(h, bits - 2) % 256] + Collected(vs[1..], h % Pow2(bits - 2), bits - 2)
  }

  function Decoded(text: string): bytes {
    Collected(Values(text), 0, 0)
  }

  /** The accumulator and the exact stream agree on the bits not yet used. */
  ghost predicate Holds(val: int, held: int, bits: nat) {
    bits in {0, 2, 4, 6} && val % Pow2(bits) == held % Pow2(bits)
  }

  method Decode(input: string) returns (result: bytes)
    ensures result == Decoded(input)
  {
    hide Offset, Shr, Wrap, Pow2, Holds, Collected, Values;
    result := [];
    var val, valb := 0, -8;
    ghost var held := 0;
    DecodeStart(input);
    var i := 0;
    while i < |input|
      invariant i <= |input| && valb in {-8, -6, -4, -2} && Holds(val, held, valb + 8)
      invariant result + Collected(Values(input[i..]), held, valb + 8) == Decoded(input)
    {
      var c := input[i];
      DecodeNext(input, i, held, valb + 8);
      if c == '=' { break; }
      i := i + 1;
      var p := Offset(c);
      if p < 0 { continue; }
      DecodeBits(val, held, p, valb + 8);
      held := held * 64 + p;
      val := Wrap(val * 64 + p);
      valb := valb + 6;
      if valb >= 0 {
        result := result + [Shr(val, valb) % 256];
        held := held % Pow2(valb);
        valb := valb - 8;
      }
    }
    DecodeEnd(input, i, held, valb + 8);
  }

  lemma DecodeStart(input: string)
    ensures Holds(0, 0, 0) && [] + Collected(Values(input[0..]), 0, 0) == Decoded(input)
  {
    assert input[0..] == input;
  }

  lemma DecodeEnd(input: string, i: nat, held: int, bits: nat)
    requires i <= |input| && (i == |input| || input[i] == '=')
    ensures Collected(Values(input[i..]), held, bits) == []
  {
  }

  /** One character of the text, in the exact stream. */
  lemma DecodeNext(input: string, i: nat, held: int, bits: nat)
    requires i < |input| && bits in {0, 2, 4, 6}
    ensures var p := Offset(input[i]);
            var rest := Values(input[i + 1..]);
            input[i] != '=' ==>
              Collected(Values(input[i..]), held, bits)
              == if p < 0 then Collected(rest, held, bits)
                 else if bits == 0 then Collected(rest, held * 64 + p, 6)
                 else [Shr(held * 64 + p, bits - 2) % 256]
                      + Collected(rest, (held * 64 + p) % Pow2(bits - 2), bits - 2)
  {
    hide Offset, Shr, Pow2;
    assert input[i..][1..] == input[i + 1..];
    if input[i] != '=' && Offset(input[i]) >= 0 {
      var vs := [Offset(input[i])] + Values(input[i + 1..]);
      assert Values(input[i..]) == vs && vs[1..] == Values(input[i + 1..]);
    }
  }

  lemma MixSix(val: int, held: int, p: int)
    ensures (val * 64 + p) % 64 == p % 64
    ensures val % 4 == held % 4 ==> (val * 64 + p) % 256 == (held * 64 + p) % 256
    ensures val % 16 == held % 16 ==> (val * 64 + p) % 0x400 == (held * 64 + p) % 0x400
    ensures val % 64 == held % 64 ==> (val * 64 + p) % 0x1000 == (held * 64 + p) % 0x1000
  {
    SameLow(val * 64 + p, p, val, 64);
    if val % 4 == held % 4 { SameLow(val * 64 + p, held * 64 + p, val / 4 - held / 4, 256); }
    if val % 16 == held % 16 { SameLow(val * 64 + p, held * 64 + p, val / 16 - held / 16, 0x400); }
    if val % 64 == held % 64 { SameLow(val * 64 + p, held * 64 + p, val / 64 - held / 64, 0x1000); }
  }

  /** One character of the text, in the accumulator. */
  lemma DecodeBits(val: int, held: int, p: int, bits: nat)
    requires Holds(val, held, bits)
    ensures bits == 0 ==> Holds(Wrap(val * 64 + p), held * 64 + p, 6)
    ensures bits > 0 ==> Reads(Wrap(val * 64 + p), held * 64 + p, bits)
  {
    hide Wrap, Reads;
    if bits == 0 {
      DecodeNone(val, held, p);
    } else if bits == 2 {
      DecodeTwo(val, held, p);
    } else if bits == 4 {
      DecodeFour(val, held, p);
    } else if bits == 6 {
      DecodeSix(val, held, p);
    }
  }

  /** The accumulator gives the byte the stream gives, and agrees on what is left. */
  ghost predicate Reads(v: int, h: int, bits: nat) {
    bits >= 2 && Shr(v, bits - 2) % 256 == Shr(h, bits - 2) % 256 && Holds(v, h % Pow2(bits - 2), bits - 2)
  }

  lemma DecodeNone(val: int, held: int, p: int)
    ensures Holds(Wrap(val * 64 + p), held * 64 + p, 6)
  {
    hide Wrap, Pow2;
    Powers();
    WrapLow(val * 64 + p);
    MixSix(val, held, p);
    MixSix(held, held, p);
  }

  lemma ModTwice(h: int, m: int)
    requires m > 0
    ensures h % m % m == h % m
  {
    ModUnique(h % m, m, 0, h % m);
  }

  lemma DecodeTwo(val: int, held: int, p: int)
    requires Holds(val, held, 2)
    ensures Reads(Wrap(val * 64 + p), held * 64 + p, 2)
  {
    hide Wrap, Pow2;
    Powers();
    WrapLow(val * 64 + p);
    MixSix(val, held, p);
  }

  lemma DecodeFour(val: int, held: int, p: int)
    requires Holds(val, held, 4)
    ensures Reads(Wrap(val * 64 + p), held * 64 + p, 4)
  {
    hide Wrap, Pow2;
    Powers();
    var v, h := Wrap(val * 64 + p), held * 64 + p;
    WrapLow(val * 64 + p);
    MixSix(val, held, p);
    SameWindow(v, h, 4, 256, 0x400);
    LowOf(v, h, 4, 0x400, 256);
    ModTwice(h, 4);
  }

  lemma DecodeSix(val: int, held: int, p: int)
    requires Holds(val, held, 6)
    ensures Reads(Wrap(val * 64 + p), held * 64 + p, 6)
  {
    hide Wrap, Pow2;
    Powers();
    var v, h := Wrap(val * 64 + p), held * 64 + p;
    WrapLow(val * 64 + p);
    MixSix(val, held, p);
    SameWindow(v, h, 16, 256, 0x1000);
    LowOf(v, h, 16, 0x1000, 256);
    ModTwice(h, 16);
  }

  lemma SameWindow(x: int, y: int, p: int, w: int, top: int)
    requires p > 0 && w > 0 && top == w * p && x % top == y % top
    ensures x / p % w == y / p % w
  {
    Window(x, p, w, top);
    Window(y, p, w, top);
  }

  // ---- The two together ----

  lemma CollectGroup(a: byte, b: byte, c: byte, rest: seq<int>)
    ensures var vs := [a / 4, (a % 4) * 16 + b / 16, (b % 16) * 4 + c / 64, c % 64];
            Collected(vs + rest, 0, 0) == [a, b, c] + Collected(rest, 0, 0)
  {
    hide Pow2, Collected;
    Powers();
    var u, v, w, x := a / 4, (a % 4) * 16 + b / 16, (b % 16) * 4 + c / 64, c % 64;
    GroupBytes(a, b, c);
    CollectedCons(u, [v, w, x] + rest, 0, 0);
    CollectedCons(v, [w, x] + rest, u, 6);
    CollectedCons(w, [x] + rest, b / 16, 4);
    CollectedCons(x, rest, c / 64, 2);
    FourAppended(u, v, w, x, rest);
    assert [w] + ([x] + rest) == [w, x] + rest && [v] + ([w, x] + rest) == [v, w, x] + rest;
    assert [a] + ([b] + ([c] + Collected(rest, 0, 0))) == [a, b, c] + Collected(rest, 0, 0);
  }

  lemma CollectedCons(v: int, rest: seq<int>, held: int, bits: nat)
    ensures var h := held * 64 + v;
            Collected([v] + rest, held, bits)
            == if bits < 2 then Collected(rest, h, bits + 6)
               else [Shr(h, bits - 2) % 256] + Collected(rest, h % Pow2(bits - 2), bits - 2)
  {
    hide Shr, Pow2;
    assert ([v] + rest)[1..] == rest;
  }

  lemma GroupBytes(a: byte, b: byte, c: byte)
    ensures (a / 4 * 64 + ((a % 4) * 16 + b / 16)) / 16 % 256 == a
    ensures (a / 4 * 64 + ((a % 4) * 16 + b / 16)) % 16 == b / 16
    ensures (b / 16 * 64 + ((b % 16) * 4 + c / 64)) / 4 % 256 == b
    ensures (b / 16 * 64 + ((b % 16) * 4 + c / 64)) % 4 == c / 64
    ensures (c / 64 * 64 + c % 64) % 256 == c
  {
    HighBits(a, b);
    MiddleBits(b, c);
  }

  lemma HighBits(a: byte, b: byte)
    ensures (a / 4 * 64 + ((a % 4) * 16 + b / 16)) / 16 % 256 == a
    ensures (a / 4 * 64 + ((a % 4) * 16 + b / 16)) % 16 == b / 16
  {
    assert a / 4 * 64 + ((a % 4) * 16 + b / 16) == a * 16 + b / 16;
    ModUnique(a * 16 + b / 16, 16, a, b / 16);
  }

  lemma MiddleBits(b: byte, c: byte)
    ensures (b / 16 * 64 + ((b % 16) * 4 + c / 64)) / 4 % 256 == b
    ensures (b / 16 * 64 + ((b % 16) * 4 + c / 64)) % 4 == c / 64
  {
    assert b / 16 * 64 + ((b % 16) * 4 + c / 64) == b * 4 + c / 64;
    ModUnique(b * 4 + c / 64, 4, b, c / 64);
  }

  lemma ValuesGroup(a: byte, b: byte, c: byte, rest: string)
    ensures Values(Group(a, b, c) + rest)
            == [a / 4, (a % 4) * 16 + b / 16, (b % 16) * 4 + c / 64, c % 64] + Values(rest)
  {
    hide Group, Offset;
    var g := Group(a, b, c);
    GroupOffsets(a, b, c);
    ValuesFour(g[0], g[1], g[2], g[3], rest);
    assert g + rest == [g[0], g[1], g[2], g[3]] + rest;
  }

  lemma ValuesFour(w: char, x: char, y: char, z: char, rest: string)
    requires w != '=' && x != '=' && y != '=' && z != '='
    requires Offset(w) >= 0 && Offset(x) >= 0 && Offset(y) >= 0 && Offset(z) >= 0
    ensures Values([w, x, y, z] + rest) == [Offset(w), Offset(x), Offset(y), Offset(z)] + Values(rest)
  {
    hide Offset, Values;
    var r3 := [z] + rest;
    var r2 := [y] + r3;
    var r1 := [x] + r2;
    ValuesCons(w, r1);
    ValuesCons(x, r2);
    ValuesCons(y, r3);
    ValuesCons(z, rest);
    FourAppended(w, x, y, z, rest);
    FourAppended(Offset(w), Offset(x), Offset(y), Offset(z), Values(rest));
  }

  lemma FourAppended<T>(w: T, x: T, y: T, z: T, rest: seq<T>)
    ensures [w, x, y, z] + rest == [w] + ([x] + ([y] + ([z] + rest)))
  {
  }

  lemma ValuesCons(c: char, rest: string)
    ensures Values([c] + rest)
            == if c == '=' then [] else if Offset(c) < 0 then Values(rest) else [Offset(c)] + Values(rest)
  {
    hide Offset;
    assert ([c] + rest)[1..] == rest;
  }

  /** Decoding undoes encoding, for byte strings of any length. */
  lemma {:induction false} RoundTrip(s: bytes)
    ensures Decoded(Encoded(s)) == s
  {
    if |s| >= 3 {
      hide Group, Values, Collected;
      ValuesGroup(s[0], s[1], s[2], Encoded(s[3..]));
      CollectGroup(s[0], s[1], s[2], Values(Encoded(s[3..])));
      RoundTrip(s[3..]);
      assert s == [s[0], s[1], s[2]] + s[3..];
    } else {
      ShortRoundTrip(s);
    }
  }

  lemma ShortRoundTrip(s: bytes)
    requires |s| < 3
    ensures Decoded(Encoded(s)) == s
  {
    if |s| == 1 {
      OneByte(s[0]);
      assert s == [s[0]];
    } else if |s| == 2 {
      TwoBytes(s[0], s[1]);
      assert s == [s[0], s[1]];
    } else {
      NothingDecoded();
    }
  }

  lemma OneByte(a: byte)
    ensures Decoded(Encoded([a])) == [a]
  {
    hide Char, Collected, Values, Chars;
    var vs := [a / 4, (a % 4) * 16];
    ValuesPadded(vs, "==");
    CharsOfTwo(vs[0], vs[1]);
    CollectTwo(a, 0);
    assert Encoded([a]) == [Char(vs[0]), Char(vs[1])] + "==";
  }

  lemma TwoBytes(a: byte, b: byte)
    ensures Decoded(Encoded([a, b])) == [a, b]
  {
    hide Char, Collected, Values, Chars;
    var vs := [a / 4, (a % 4) * 16 + b / 16, (b % 16) * 4];
    ValuesPadded(vs, "=");
    CharsOfThree(vs[0], vs[1], vs[2]);
    CollectTwo(a, b);
    assert Encoded([a, b]) == [Char(vs[0]), Char(vs[1]), Char(vs[2])] + "=";
  }

  lemma NothingDecoded()
    ensures Decoded("") == []
  {
  }

  function Chars(vs: seq<int>): string
    requires forall i :: 0 <= i < |vs| ==> 0 <= vs[i] < 64
  {
    if vs == [] then "" else [Char(vs[0])] + Chars(vs[1..])
  }

  lemma {:induction false} ValuesPadded(vs: seq<int>, pad: string)
    requires forall i :: 0 <= i < |vs| ==> 0 <= vs[i] < 64
    requires pad != "" && pad[0] == '='
    ensures Values(Chars(vs) + pad) == vs
  {
    hide Char, Offset;
    if vs == [] {
      assert Chars(vs) + pad == pad;
    } else {
      OffsetOfChar(vs[0]);
      ValuesPadded(vs[1..], pad);
      ValuesCons(Char(vs[0]), Chars(vs[1..]) + pad);
      assert Chars(vs) + pad == [Char(vs[0])] + (Chars(vs[1..]) + pad);
    }
  }

  lemma CharsOfTwo(v: int, w: int)
    requires 0 <= v < 64 && 0 <= w < 64
    ensures Chars([v, w]) == [Char(v), Char(w)]
  {
    hide Char;
    assert [v, w][1..] == [w] && [w][1..] == [];
    assert Chars([w]) == [Char(w)];
  }

  lemma CharsOfThree(v: int, w: int, x: int)
    requires 0 <= v < 64 && 0 <= w < 64 && 0 <= x < 64
    ensures Chars([v, w, x]) == [Char(v), Char(w), Char(x)]
  {
    hide Char;
    assert [v, w, x][1..] == [w, x];
    CharsOfTwo(w, x);
  }

  lemma CollectTwo(a: byte, b: byte)
    ensures Collected([a / 4, (a % 4) * 16], 0, 0) == [a]
    ensures Collected([a / 4, (a % 4) * 16 + b / 16, (b % 16) * 4], 0, 0) == [a, b]
  {
    hide Pow2;
    Powers();
    var u, v, w := a / 4, (a % 4) * 16 + b / 16, (b % 16) * 4;
    GroupBytes(a, b, 0);
    GroupBytes(a, 0, 0);
    assert [u, v, w][1..] == [v, w] && [v, w][1..] == [w] && [w][1..] == [];
    assert Collected([w], b / 16, 4) == [b];
    var y := (a % 4) * 16;
    assert [u, y][1..] == [y] && [y][1..] == [];
    assert Collected([y], u, 6) == [a];
  }

  /** A character outside the alphabet, other than `=` and NUL, may stand anywhere in the text. */
  lemma {:induction false} JunkIgnored(before: string, junk: char, after: string)
    requires Offset(junk) < 0 && junk != '='
    ensures Decoded(before + [junk] + after) == Decoded(before + after)
  {
    JunkHasNoValue(before, junk, after);
  }

  lemma {:induction false} JunkHasNoValue(before: string, junk: char, after: string)
    requires Offset(junk) < 0 && junk != '='
    ensures Values(before + [junk] + after) == Values(before + after)
  {
    hide Offset;
    if before == "" {
      assert before + [junk] + after == [junk] + after && before + after == after;
      ValuesCons(junk, after);
    } else {
      var c, rest := before[0], before[1..];
      assert before + [junk] + after == [c] + (rest + [junk] + after);
      assert before + after == [c] + (rest + after);
      ValuesCons(c, rest + [junk] + after);
      ValuesCons(c, rest + after);
      JunkHasNoValue(rest, junk, after);
    }
  }

  /** A character may stand anywhere exactly when `strchr` does not find it and it is not `=`.  So NUL may
      not: `strchr` finds it at the end of the alphabet, as a 65th value. */
  lemma JunkExactly(c: char)
    ensures (forall before, after :: Decoded(before + [c] + after) == Decoded(before + after))
            <==> Offset(c) < 0 && c != '='
    ensures Offset('\0') == 64
  {
    hide Decoded;
    if Offset(c) < 0 && c != '=' {
      forall before, after ensures Decoded(before + [c] + after) == Decoded(before + after) {
        JunkIgnored(before, c, after);
      }
    } else {
      InFrontOfText(c);
      assert "" + [c] + "QQ" == [c] + "QQ" && "" + "QQ" == "QQ";
      assert Decoded("" + [c] + "QQ") != Decoded("" + "QQ");
    }
  }

  /** Any other character changes what a text behind it decodes to. */
  lemma InFrontOfText(c: char)
    requires Offset(c) >= 0 || c == '='
    ensures Decoded([c] + "QQ") != Decoded("QQ")
  {
    hide Offset, Collected, Values;
    CollectThree();
    TextValues();
    ValuesCons(c, "QQ");
    if c != '=' { CollectFirst(Offset(c)); }
  }

  lemma TextValues()
    ensures Values("QQ") == [16, 16]
  {
    assert "QQ"[1..] == "Q" && "Q"[1..] == "";
  }

  lemma CollectThree()
    ensures |Collected([16, 16], 0, 0)| == 1 && |Collected([], 0, 0)| == 0
  {
    hide Pow2;
    Powers();
    assert [16, 16][1..] == [16] && [16][1..] == [];
  }

  lemma CollectFirst(v: int)
    ensures |Collected([v] + [16, 16], 0, 0)| == 2
  {
    hide Pow2, Shr;
    Powers();
    var vs := [v] + [16, 16];
    assert vs[1..] == [16, 16] && [16, 16][1..] == [16] && [16][1..] == [];
    CollectOne((v * 64 + 16) % 16, 16);
  }

  lemma CollectOne(held: int, v: int)
    ensures |Collected([v], held, 4)| == 1
  {
    hide Pow2, Shr;
    assert [v][1..] == [];
  }
}
