/** Decimal and fixed-width hexadecimal text, with the parsers that read it back. */
module Digits {
  import opened Wrappers
  import opened Whitespace

  /** The lower-case digit character of a value below sixteen. */
  function DigitChar(d: nat): (c: char)
    requires d < 16
    ensures if d < 10 then '0' <= c <= '9' else 'a' <= c <= 'f'
  {
    if d < 10 then ('0' as int + d) as char else ('a' as int + d - 10) as char
  }

  /** The value of a digit character below the given base; letters in either case. */
  function DigitValue(c: char, base: nat): Option<nat> {
    var v := if '0' <= c <= '9' then c as int - '0' as int
             else if 'a' <= c <= 'f' then c as int - 'a' as int + 10
             else if 'A' <= c <= 'F' then c as int - 'A' as int + 10
             else 16;
    if v < 16 && v < base then Some(v) else None
  }

  /** Big-endian value of a digit string; None when some character is not a digit. */
  function Value(s: string, base: nat): Option<nat> {
    if s == [] then Some(0)
    else
      var last := DigitValue(s[|s| - 1], base);
      var front := Value(s[..|s| - 1], base);
      if last.None? || front.None? then None else Some(front.value * base + last.value)
  }

  /** Python's int(text) restricted to unsigned decimal text; the empty text is an error. */
  function ParseNat(s: string): Option<nat> {
    if s == [] then None else Value(s, 10)
  }

  function Decimal(n: nat): (s: string)
    ensures |s| > 0
    ensures forall k | 0 <= k < |s| :: '0' <= s[k] <= '9'
  {
    if n < 10 then [DigitChar(n)] else Decimal(n / 10) + [DigitChar(n % 10)]
  }

  /** str(n) for any Python integer. */
  function Integer(n: int): string {
    if n < 0 then "-" + Decimal(-n) else Decimal(n)
  }

  function WithoutUnderscores(s: string): string {
    if s == [] then [] else (if s[0] == '_' then [] else [s[0]]) + WithoutUnderscores(s[1..])
  }

  /** Underscores stand only between digits. */
  predicate WellGrouped(s: string) {
    forall k | 0 <= k < |s| && s[k] == '_' :: 0 < k < |s| - 1 && s[k - 1] != '_' && s[k + 1] != '_'
  }

  function ParseGrouped(s: string): Option<nat> {
    if WellGrouped(s) then ParseNat(WithoutUnderscores(s)) else None
  }

  function ParseSigned(s: string): Option<int> {
    if s != [] && s[0] == '-' then
      var magnitude: Option<int> := ParseGrouped(s[1..]);
      if magnitude.None? then None else Some(-magnitude.value)
    else
      var magnitude: Option<int> := ParseGrouped(if s != [] && s[0] == '+' then s[1..] else s);
      if magnitude.None? then None else Some(magnitude.value)
  }

  /** int(text): surrounding white space, a sign and underscores between digits are allowed. */
  function ParseInteger(s: string): Option<int> {
    ParseSigned(Strip(s))
  }

  function Hex(n: nat, width: nat): (s: string)
    ensures |s| == width
    ensures '-' !in s
  {
    if width == 0 then [] else Hex(n / 16, width - 1) + [DigitChar(n % 16)]
  }

  function Pow16(width: nat): (p: nat)
    ensures p > 0
  {
    if width == 0 then 1 else 16 * Pow16(width - 1)
  }

  lemma DigitRoundTrip(d: nat, base: nat)
    requires d < base <= 16
    ensures DigitValue(DigitChar(d), base) == Some(d)
  {
    assert DigitChar(d) as int == if d < 10 then '0' as int + d else 'a' as int + d - 10;
  }

  lemma {:induction false} DecimalRoundTrip(n: nat)
    ensures ParseNat(Decimal(n)) == Some(n)
  {
    DigitRoundTrip(n % 10, 10);
    if n >= 10 {
      DecimalRoundTrip(n / 10);
      assert Decimal(n)[..|Decimal(n)| - 1] == Decimal(n / 10);
    } else {
      assert Decimal(n)[..0] == [];
      assert Value([], 10) == Some(0);
    }
  }

  lemma {:induction false} NoUnderscores(s: string)
    requires '_' !in s
    ensures WithoutUnderscores(s) == s
  {
    if s != [] {
      NoUnderscores(s[1..]);
    }
  }

  lemma GroupedRoundTrip(n: nat)
    ensures ParseGrouped(Decimal(n)) == Some(n)
  {
    NoUnderscores(Decimal(n));
    DecimalRoundTrip(n);
  }

  lemma NegativeRoundTrip(n: int)
    requires n < 0
    ensures ParseSigned("-" + Decimal(-n)) == Some(n)
  {
    var t := "-" + Decimal(-n);
    assert t[0] == '-' && t[1..] == Decimal(-n);
    GroupedRoundTrip(-n);
  }

  lemma UnsignedRoundTrip(n: nat)
    ensures ParseSigned(Decimal(n)) == Some(n)
  {
    var t := Decimal(n);
    assert t[0] != '-' && t[0] != '+';
    GroupedRoundTrip(n);
  }

  lemma SignedRoundTrip(n: int)
    ensures ParseSigned(Integer(n)) == Some(n)
  {
    if n < 0 {
      NegativeRoundTrip(n);
    } else {
      UnsignedRoundTrip(n);
    }
  }

  lemma IntegerNotSpaced(n: int)
    ensures Strip(Integer(n)) == Integer(n)
  {
    var digits := Decimal(if n < 0 then -n else n);
    assert Integer(n)[|Integer(n)| - 1] == digits[|digits| - 1];
    StripNothing(Integer(n));
  }

  lemma IntegerRoundTrip(n: int)
    ensures ParseInteger(Integer(n)) == Some(n)
  {
    IntegerNotSpaced(n);
    SignedRoundTrip(n);
  }

  lemma SpacesStripped(t: string)
    requires t != [] && !IsSpace(t[0]) && !IsSpace(t[|t| - 1])
    ensures Strip(" " + t + "\n") == t
  {
    var s, right := " " + t + "\n", t + "\n";
    assert s[0] == ' ' && s[1..] == right;
    assert right[0] == t[0] && right[|right| - 1] == '\n' && right[..|right| - 1] == t;
    assert LStrip(s) == LStrip(right) == right;
    assert RStrip(right) == RStrip(t) == t;
  }

  /** Other texts that int() reads: a plus sign, white space around, and underscores only between digits. */
  lemma OtherIntegerForms(n: nat)
    ensures ParseInteger("+" + Decimal(n)) == Some(n)
    ensures ParseInteger(" " + Decimal(n) + "\n") == Some(n)
    ensures ParseInteger("_" + Decimal(n)).None? && ParseInteger(Decimal(n) + "_").None?
  {
    var t, plus := Decimal(n), "+" + Decimal(n);
    UnsignedRoundTrip(n);
    GroupedRoundTrip(n);
    SpacesStripped(t);
    assert plus[0] == '+' && plus[1..] == t && plus[|plus| - 1] == t[|t| - 1];
    StripNothing(plus);
    assert ParseSigned(plus) == Some(n);
    NotGrouped("_" + t, 0);
    NotGrouped(t + "_", |t|);
  }

  lemma NotGrouped(s: string, k: nat)
    requires s != [] && k < |s| && s[k] == '_' && (k == 0 || k == |s| - 1)
    requires !IsSpace(s[0]) && !IsSpace(s[|s| - 1]) && s[0] != '-' && s[0] != '+'
    ensures ParseInteger(s).None?
  {
    StripNothing(s);
    assert !WellGrouped(s);
  }

  lemma {:induction false} HexRoundTrip(n: nat, width: nat)
    requires n < Pow16(width)
    ensures Value(Hex(n, width), 16) == Some(n)
  {
    if width > 0 {
      assert n / 16 < Pow16(width - 1);
      HexRoundTrip(n / 16, width - 1);
      DigitRoundTrip(n % 16, 16);
      var text := Hex(n, width);
      assert text[..width - 1] == Hex(n / 16, width - 1);
      assert text[width - 1] == DigitChar(n % 16);
    }
  }

  lemma {:induction false} Pow16Sum(a: nat, b: nat)
    ensures Pow16(a + b) == Pow16(a) * Pow16(b)
  {
    if a > 0 {
      Pow16Sum(a - 1, b);
      assert Pow16(a + b) == 16 * (Pow16(a - 1) * Pow16(b)) == (16 * Pow16(a - 1)) * Pow16(b);
    }
  }
}
