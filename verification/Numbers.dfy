/**
  Numerals as the C++ library reads them: `std::stoi`, `std::stol` and `std::stoul` skip white
  space, take an optional sign and the longest run of digits, ignore whatever follows, and throw
  when there is no digit or the value does not fit. Casts to unsigned types wrap.
 */
module Numbers {
  import opened Wrappers

  const INT_MAX: int := 0x7FFF_FFFF
  const TWO_32: int := 0x1_0000_0000
  const TWO_63: int := 0x8000_0000_0000_0000
  const TWO_64: int := 0x1_0000_0000_0000_0000

  /** White space, for the grammar's skipper, for trimming and for numerals alike. */
  predicate IsSpace(c: char) {
    c == ' ' || 9 <= c as int <= 13
  }

  predicate Blank(s: string) {
    forall i :: 0 <= i < |s| ==> IsSpace(s[i])
  }

  /** What is left of `s` after its leading white space. */
  function SkipSpace(s: string): (r: string)
    ensures |r| <= |s|
    ensures r == [] || !IsSpace(r[0])
  {
    if s == [] || !IsSpace(s[0]) then s else SkipSpace(s[1..])
  }

  predicate IsDigit(c: char) {
    '0' <= c <= '9'
  }

  function DigitValue(c: char): (v: nat)
    requires IsDigit(c)
    ensures v < 10
  {
    c as int - '0' as int
  }

  function DigitChar(v: nat): (c: char)
    requires v < 10
    ensures IsDigit(c) && DigitValue(c) == v
  {
    ('0' as int + v) as char
  }

  predicate AllDigits(s: string) {
    forall i :: 0 <= i < |s| ==> IsDigit(s[i])
  }

  /** The longest run of digits at the start of `s`. */
  function LeadingDigits(s: string): (r: string)
    ensures r <= s && AllDigits(r)
    ensures |r| < |s| ==> !IsDigit(s[|r|])
  {
    if s == [] || !IsDigit(s[0]) then "" else [s[0]] + LeadingDigits(s[1..])
  }

  /** The number a run of digits denotes. */
  function NumberOf(s: string): nat
    requires AllDigits(s)
  {
    if s == [] then 0 else 10 * NumberOf(s[..|s| - 1]) + DigitValue(s[|s| - 1])
  }

  datatype Numeral = Numeral(negative: bool, magnitude: nat)

  /** The numeral at the start of `s`, as `strtol` in base ten finds it; None without a digit. */
  function Scan(s: string): Option<Numeral> {
    var t := SkipSpace(s);
    var signed := t != [] && (t[0] == '-' || t[0] == '+');
    var digits := LeadingDigits(if signed then t[1..] else t);
    if digits == [] then None else Some(Numeral(signed && t[0] == '-', NumberOf(digits)))
  }

  function Signed(n: Numeral): int {
    if n.negative then 0 - n.magnitude as int else n.magnitude as int
  }

  /** `std::stoi`; None stands for either exception. */
  function Stoi(s: string): Option<int> {
    match Scan(s)
    case Some(n) => if -INT_MAX - 1 <= Signed(n) <= INT_MAX then Some(Signed(n)) else None
    case None => None
  }

  /** `std::stol` with a 64-bit `long`. */
  function Stol(s: string): Option<int> {
    match Scan(s)
    case Some(n) => if -TWO_63 <= Signed(n) < TWO_63 then Some(Signed(n)) else None
    case None => None
  }

  /** `std::stoul` with a 64-bit `unsigned long`: a minus sign negates modulo 2^64. */
  function Stoul(s: string): Option<nat> {
    match Scan(s)
    case Some(n) => if n.magnitude < TWO_64 then Some(AsUint64(Signed(n))) else None
    case None => None
  }

  function AsUint32(x: int): (r: nat)
    ensures 0 <= x < TWO_32 ==> r == x
  {
    x % TWO_32
  }

  function AsUint64(x: int): (r: nat)
    ensures 0 <= x < TWO_64 ==> r == x
  {
    x % TWO_64
  }

  /** The decimal text of a number, without leading zeros. */
  function Decimal(n: nat): (s: string)
    ensures s != [] && AllDigits(s) && NumberOf(s) == n
  {
    if n < 10 then
      assert [DigitChar(n)][..0] == [];
      [DigitChar(n)]
    else
      var s := Decimal(n / 10) + [DigitChar(n % 10)];
      assert s[..|s| - 1] == Decimal(n / 10);
      s
  }

  lemma SkipSpaceIsIdempotent(s: string)
    ensures SkipSpace(SkipSpace(s)) == SkipSpace(s)
  {}

  lemma {:induction false} LeadingDigitsOf(s: string, rest: string)
    requires AllDigits(s) && (rest == [] || !IsDigit(rest[0]))
    ensures LeadingDigits(s + rest) == s
  {
    if s == [] {
      assert s + rest == rest;
    } else {
      assert (s + rest)[1..] == s[1..] + rest;
      LeadingDigitsOf(s[1..], rest);
    }
  }

  /** Reading a printed number gives the number back, whatever text follows it. */
  lemma {:induction false} ScanOfDecimal(n: nat, rest: string)
    requires rest == [] || !IsDigit(rest[0])
    ensures Scan(Decimal(n) + rest) == Some(Numeral(false, n))
  {
    LeadingDigitsOf(Decimal(n), rest);
  }

  /** `std::stoi` accepts exactly the decimals an `int` holds. */
  lemma StoiOfDecimal(n: nat)
    ensures Stoi(Decimal(n)) == if n <= 2147483647 then Some(n) else None
  {
    ScanOfDecimal(n, []);
    assert Decimal(n) + [] == Decimal(n);
  }

  /** A 64-bit identifier survives printing, `std::stol` and the cast to `uint64_t`. */
  lemma StolOfDecimal(n: nat)
    ensures Stol(Decimal(n)) == if n < 9223372036854775808 then Some(n) else None
    ensures n < 9223372036854775808 ==> AsUint64(Stol(Decimal(n)).value) == n
  {
    ScanOfDecimal(n, []);
    assert Decimal(n) + [] == Decimal(n);
  }

  lemma {:induction false} StoulOfDecimal(n: nat)
    ensures Stoul(Decimal(n)) == if n < 18446744073709551616 then Some(n) else None
  {
    ScanOfDecimal(n, []);
    assert Decimal(n) + [] == Decimal(n);
  }

  /** A negative numeral is read as such, and the cast to an unsigned 32-bit identifier wraps it. */
  lemma NegativeWraps(n: int)
    requires 0 < n
    ensures Stoi("-" + Decimal(n)) == if n <= 2147483648 then Some(-n) else None
    ensures n <= 2147483648 ==> AsUint32(-n) == 4294967296 - n
  {
    var s := "-" + Decimal(n);
    assert SkipSpace(s) == s && s[1..] == Decimal(n) + [];
    LeadingDigitsOf(Decimal(n), []);
  }

  // ---- What numerals say, character by character ----

  /** White space is what `isspace` accepts in the default locale; the digits are those of ASCII. */
  lemma CharactersMean(c: char)
    ensures IsSpace(c) <==> c == ' ' || c == '\t' || c == '\n' || c == '\U{B}' || c == '\U{C}' || c == '\r'
    ensures IsDigit(c) <==> c in "0123456789"
    ensures IsDigit(c) ==> "0123456789"[DigitValue(c)] == c
  {}

  /** Conversions to the unsigned types keep the residue. */
  lemma CastsMean(x: int)
    ensures AsUint32(x) == x % 4294967296 && AsUint64(x) == x % 18446744073709551616
  {}

  function Power10(n: nat): nat {
    if n == 0 then 1 else 10 * Power10(n - 1)
  }

  /** Digits have their place value, the first one the highest. */
  lemma {:induction false} PlaceValue(v: nat, s: string)
    requires v < 10 && AllDigits(s)
    ensures NumberOf([DigitChar(v)] + s) == v * Power10(|s|) + NumberOf(s)
    decreases |s|
  {
    var t := [DigitChar(v)] + s;
    if s == "" {
      assert t[..0] == "";
      assert NumberOf("") == 0;
    } else {
      var init := s[..|s| - 1];
      assert t[..|t| - 1] == [DigitChar(v)] + init;
      PlaceValue(v, init);
      assert 10 * (v * Power10(|init|)) == v * Power10(|s|);
    }
  }

  /** White space, a sign or none, some digits, and a rest that does not begin with one. */
  predicate Spells(s: string, before: string, sign: string, digits: string, rest: string) {
    && s == before + sign + digits + rest
    && Blank(before) && (sign == "" || sign == "+" || sign == "-")
    && AllDigits(digits) && digits != "" && (rest == "" || !IsDigit(rest[0]))
  }

  lemma {:induction false} SkipsBlank(before: string, s: string)
    requires Blank(before) && (s == "" || !IsSpace(s[0]))
    ensures SkipSpace(before + s) == s
  {
    if before == "" {
      assert before + s == s;
    } else {
      assert (before + s)[1..] == before[1..] + s;
      SkipsBlank(before[1..], s);
    }
  }

  lemma SignAndDigits(sign: string, digits: string, rest: string)
    requires Spells(sign + digits + rest, "", sign, digits, rest)
    ensures var t := sign + digits + rest;
            && !IsSpace(t[0]) && (t[0] == '-' <==> sign == "-") && (t[0] == '+' <==> sign == "+")
            && (sign == "" ==> t == digits + rest) && (sign != "" ==> t[1..] == digits + rest)
  {
    var t := sign + digits + rest;
    if sign != "" {
      assert t[0] == sign[0];
    } else {
      assert t[0] == digits[0];
    }
  }

  lemma ScanSpelled(s: string, before: string, sign: string, digits: string, rest: string)
    requires Spells(s, before, sign, digits, rest)
    ensures Scan(s) == Some(Numeral(sign == "-", NumberOf(digits)))
  {
    var t := sign + digits + rest;
    assert "" + sign == sign;
    SignAndDigits(sign, digits, rest);
    assert s == before + t;
    SkipsBlank(before, t);
    LeadingDigitsOf(digits, rest);
  }

  lemma {:induction false} SkipSplits(s: string) returns (before: string)
    ensures Blank(before) && s == before + SkipSpace(s)
  {
    if s == "" || !IsSpace(s[0]) {
      before := "";
    } else {
      var more := SkipSplits(s[1..]);
      before := [s[0]] + more;
      assert s == [s[0]] + s[1..];
      Assoc([s[0]], more, SkipSpace(s));
    }
  }

  lemma DigitsSplit(u: string) returns (digits: string, rest: string)
    ensures digits == LeadingDigits(u) && u == digits + rest && AllDigits(digits)
    ensures rest == "" || !IsDigit(rest[0])
  {
    digits := LeadingDigits(u);
    rest := u[|digits|..];
  }

  function SignOf(t: string): string {
    if t != "" && (t[0] == '-' || t[0] == '+') then [t[0]] else ""
  }

  lemma SignSplit(t: string) returns (u: string)
    ensures t == SignOf(t) + u && u == t[|SignOf(t)|..]
    ensures SignOf(t) == "" || SignOf(t) == "+" || SignOf(t) == "-"
  {
    u := t[|SignOf(t)|..];
  }

  lemma ScanSource(s: string) returns (before: string, sign: string, digits: string, rest: string)
    requires Scan(s).Some?
    ensures Spells(s, before, sign, digits, rest)
  {
    before := SkipSplits(s);
    sign := SignOf(SkipSpace(s));
    var u := SignSplit(SkipSpace(s));
    digits, rest := DigitsSplit(u);
    FourParts(s, before, sign, digits, rest);
  }

  lemma FourParts(s: string, before: string, sign: string, digits: string, rest: string)
    requires s == before + (sign + (digits + rest))
    ensures s == before + sign + digits + rest
  {
    Assoc(before, sign, digits + rest);
    Assoc(before + sign, digits, rest);
  }

  /** A numeral is found exactly in the texts that spell one, and it is the one they spell. */
  lemma ScanExactly(s: string)
    ensures Scan(s).Some? <==> exists before, sign, digits, rest :: Spells(s, before, sign, digits, rest)
    ensures forall before, sign, digits, rest :: Spells(s, before, sign, digits, rest) ==>
              Scan(s) == Some(Numeral(sign == "-", NumberOf(digits)))
  {
    if Scan(s).Some? {
      var before, sign, digits, rest := ScanSource(s);
    }
    forall before, sign, digits, rest | Spells(s, before, sign, digits, rest)
      ensures Scan(s) == Some(Numeral(sign == "-", NumberOf(digits)))
    {
      ScanSpelled(s, before, sign, digits, rest);
    }
  }

  /** What the three library functions make of a text that spells a numeral, and of any other. */
  lemma NumeralsMean(s: string, before: string, sign: string, digits: string, rest: string)
    requires Spells(s, before, sign, digits, rest)
    ensures var v: int := if sign == "-" then 0 - NumberOf(digits) as int else NumberOf(digits) as int;
            && Stoi(s) == (if -2147483648 <= v <= 2147483647 then Some(v) else None)
            && Stol(s) == (if -9223372036854775808 <= v <= 9223372036854775807 then Some(v) else None)
            && Stoul(s) == (if NumberOf(digits) <= 18446744073709551615 then Some(v % 18446744073709551616) else None)
  {
    ScanSpelled(s, before, sign, digits, rest);
  }

  lemma NoNumeral(s: string)
    requires forall before, sign, digits, rest :: !Spells(s, before, sign, digits, rest)
    ensures Stoi(s) == None && Stol(s) == None && Stoul(s) == None
  {
    ScanExactly(s);
  }
}
