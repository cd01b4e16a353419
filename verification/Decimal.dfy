/** `std::to_string` and `std::stoll`. */
module Decimal {
  import opened Wrappers

  predicate Is64(n: int) {
    -0x8000_0000_0000_0000 <= n < 0x8000_0000_0000_0000
  }

  predicate IsDigit(c: char) {
    '0' <= c <= '9'
  }

  predicate IsSpace(c: char) {
    c == ' ' || '\t' <= c <= '\r'
  }

  ghost predicate Number(s: string) {
    s != "" && forall c :: c in s ==> IsDigit(c)
  }

  function Digits(n: nat): (s: string)
    ensures Number(s)
  {
    var d := [('0' as int + n % 10) as char];
    if n < 10 then d else Digits(n / 10) + d
  }

  function Print(n: int): (s: string)
    ensures s != "" && forall c :: c in s ==> IsDigit(c) || c == '-'
  {
    if n < 0 then "-" + Digits(-n) else Digits(n)
  }

  function Value(s: string): int
    requires forall c :: c in s ==> IsDigit(c)
  {
    if |s| == 0 then 0 else 10 * Value(s[..|s| - 1]) + (s[|s| - 1] as int - '0' as int)
  }

  /** How many digits a text begins with. */
  function Leading(s: string): (n: nat)
    ensures n <= |s| && forall c :: c in s[..n] ==> IsDigit(c)
  {
    if s == "" || !IsDigit(s[0]) then 0
    else
      var n := Leading(s[1..]);
      assert s[..n + 1] == [s[0]] + s[1..][..n];
      n + 1
  }

  function Trimmed(s: string): string {
    if s != "" && IsSpace(s[0]) then Trimmed(s[1..]) else s
  }

  /** White space, a sign, digits; what follows them is ignored.  Nothing when there is no digit or the
      number does not fit in 64 bits. */
  function Stoll(s: string): (r: Option<int>)
    ensures r.Some? ==> Is64(r.value)
  {
    var t := Trimmed(s);
    var signed := t != "" && (t[0] == '-' || t[0] == '+');
    var body := if signed then t[1..] else t;
    var n := Leading(body);
    if n == 0 then None
    else
      var v := if signed && t[0] == '-' then -Value(body[..n]) else Value(body[..n]);
      if Is64(v) then Some(v) else None
  }

  lemma {:induction false} ValueOfDigits(n: nat)
    ensures Value(Digits(n)) == n
  {
    var d := [('0' as int + n % 10) as char];
    if n < 10 {
      assert d[..0] == "";
    } else {
      ValueOfDigits(n / 10);
      assert (Digits(n / 10) + d)[..|Digits(n / 10)|] == Digits(n / 10);
    }
  }

  lemma {:induction false} LeadingAll(s: string)
    requires forall c :: c in s ==> IsDigit(c)
    ensures Leading(s) == |s|
  {
    if s != "" {
      LeadingAll(s[1..]);
    }
  }

  /** Parsing undoes printing, for every 64-bit number. */
  lemma StollOfPrint(n: int)
    requires Is64(n)
    ensures Stoll(Print(n)) == Some(n)
  {
    hide Digits, Value, Leading;
    var m := if n < 0 then -n else n;
    var s := Digits(m);
    ValueOfDigits(m);
    LeadingAll(s);
    assert s[..|s|] == s && s[0] in s;
    assert ("-" + s)[1..] == s;
  }

  lemma PrintInjective(m: int, n: int)
    requires Is64(m) && Is64(n) && Print(m) == Print(n)
    ensures m == n
  {
    StollOfPrint(m);
    StollOfPrint(n);
  }

  // ---- Other texts ----

  /** White space, a sign if any, digits, and something that does not go on with a digit. */
  ghost predicate Form(space: string, sign: string, digits: string, rest: string) {
    && (forall c :: c in space ==> IsSpace(c)) && sign in ["", "+", "-"]
    && (forall c :: c in digits ==> IsDigit(c)) && (rest != "" ==> !IsDigit(rest[0]))
  }

  lemma {:induction false} TrimmedSpace(space: string, s: string)
    requires forall c :: c in space ==> IsSpace(c)
    requires s != "" ==> !IsSpace(s[0])
    ensures Trimmed(space + s) == s
    decreases |space|
  {
    if space == "" {
      assert space + s == s;
    } else {
      assert (space + s)[1..] == space[1..] + s;
      TrimmedSpace(space[1..], s);
    }
  }

  lemma {:induction false} LeadingOf(digits: string, rest: string)
    requires (forall c :: c in digits ==> IsDigit(c)) && (rest != "" ==> !IsDigit(rest[0]))
    ensures Leading(digits + rest) == |digits|
    decreases |digits|
  {
    if digits == "" {
      assert digits + rest == rest;
    } else {
      assert (digits + rest)[1..] == digits[1..] + rest;
      LeadingOf(digits[1..], rest);
    }
  }

  /** The number is that of the digits with their sign, whatever follows them; nothing when there are none,
      or when the number does not fit. */
  lemma StollReads(space: string, sign: string, digits: string, rest: string)
    requires Form(space, sign, digits, rest)
    requires sign + digits == "" && rest != "" ==> !IsSpace(rest[0]) && rest[0] != '+' && rest[0] != '-'
    ensures var v := if sign == "-" then -Value(digits) else Value(digits);
            Stoll(space + (sign + (digits + rest))) == if digits != "" && Is64(v) then Some(v) else None
  {
    hide Value, Leading, Trimmed, Is64;
    var t := sign + (digits + rest);
    assert sign == "" ==> t == digits + rest;
    assert digits == "" ==> digits + rest == rest;
    assert digits != "" ==> digits[0] in digits && (digits + rest)[0] == digits[0];
    TrimmedSpace(space, t);
    LeadingOf(digits, rest);
    assert (digits + rest)[..|digits|] == digits;
    assert sign != "" ==> t[1..] == digits + rest;
  }
}
