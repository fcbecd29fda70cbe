/** Decimal rendering of identifiers, as `fmt.Sprint` and `strconv.Itoa` print them. */
module Decimal {
  import opened Prelude

  function Digit(d: nat): char
    requires d < 10
  {
    "0123456789"[d]
  }

  function Print(n: nat): (s: string)
    ensures s != []
  {
    if n < 10 then [Digit(n)] else Print(n / 10) + [Digit(n % 10)]
  }

  /** Reads a digit string back; any other character counts as its distance from '0'. */
  function Value(s: string): int {
    if s == [] then 0 else Value(s[..|s| - 1]) * 10 + (s[|s| - 1] as int - '0' as int)
  }

  lemma {:induction false} PrintThenValue(n: nat)
    ensures Value(Print(n)) == n
  {
    if n < 10 {
      assert Print(n)[..0] == [];
    } else {
      PrintThenValue(n / 10);
      assert Print(n)[..|Print(n)| - 1] == Print(n / 10);
    }
  }

  lemma PrintInjective(a: nat, b: nat)
    requires Print(a) == Print(b)
    ensures a == b
  {
    PrintThenValue(a);
    PrintThenValue(b);
  }

  lemma {:induction false} PrintOnlyDigits(n: nat)
    ensures forall c :: c in Print(n) ==> '0' <= c <= '9'
  {
    if n >= 10 {
      PrintOnlyDigits(n / 10);
    }
  }

  // ---- Signed 64-bit numbers ----

  const MIN64 := -0x8000_0000_0000_0000
  const MAX64 := 0x7FFF_FFFF_FFFF_FFFF

  predicate AllDigits(s: string) {
    s != [] && forall c :: c in s ==> '0' <= c <= '9'
  }

  /** An optional sign and digits. */
  function Signed(s: string): Option<int> {
    var digits := if s != [] && s[0] in "+-" then s[1..] else s;
    if !AllDigits(digits) then None
    else if s[0] == '-' then Some(-Value(digits))
    else Some(Value(digits))
  }

  /** `strconv.ParseInt(s, 10, 64)`. */
  function ParseInt(s: string): (r: Option<int>)
    ensures r.Some? ==> MIN64 <= r.value <= MAX64
  {
    var n := Signed(s);
    if n.Some? && MIN64 <= n.value <= MAX64 then n else None
  }

  function FormatInt(n: int): string {
    if n < 0 then "-" + Print(-n) else Print(n)
  }

  lemma SignedDigits(digits: string)
    requires AllDigits(digits)
    ensures Signed(digits) == Some(Value(digits)) && Signed("-" + digits) == Some(-Value(digits))
    ensures Signed("+" + digits) == Some(Value(digits))
  {
    hide Value;
    assert digits[0] in digits;
    assert ("-" + digits)[1..] == digits && ("+" + digits)[1..] == digits;
  }

  /** A printed number is read back, when it fits 64 bits; a larger one is refused. */
  lemma FormatThenParse(n: int)
    ensures -0x8000_0000_0000_0000 <= n <= 0x7FFF_FFFF_FFFF_FFFF ==> ParseInt(FormatInt(n)) == Some(n)
    ensures !(-0x8000_0000_0000_0000 <= n <= 0x7FFF_FFFF_FFFF_FFFF) ==> ParseInt(FormatInt(n)) == None
  {
    hide Print, Value, Signed;
    var m := if n < 0 then -n else n;
    PrintOnlyDigits(m);
    PrintThenValue(m);
    SignedDigits(Print(m));
  }

  /** What is read is a number with an optional sign, and a plus sign means nothing. */
  lemma OnlyNumbersParse(s: string)
    ensures ParseInt(s).Some? ==> s != "" && AllDigits(if s[0] in {'+', '-'} then s[1..] else s)
    ensures AllDigits(s) ==> ParseInt("+" + s) == ParseInt(s)
  {
    if AllDigits(s) {
      SignedDigits(s);
    }
  }
}
