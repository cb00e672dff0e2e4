/**
 * The string arithmetic of `append_integer`: a permalink that ends in an
 * underscore and a run of decimal digits gets that number incremented
 * (`shoes_2` becomes `shoes_3`, `shoes_007` becomes `shoes_8`); any other
 * permalink gets `_1` appended.
 */
module Permalinks {
  import opened Wrappers

  /** Ruby's `\d`: an ASCII decimal digit. */
  predicate IsDigit(c: char) {
    '0' <= c <= '9'
  }

  predicate AllDigits(s: string) {
    forall i :: 0 <= i < |s| ==> IsDigit(s[i])
  }

  /** The weight of one digit character. */
  function DigitValue(c: char): (v: nat)
    ensures v < 10
  {
    if IsDigit(c) then c as int - '0' as int else 0
  }

  /** `String#to_i` on a run of decimal digits; leading zeros carry no weight. */
  function DigitsValue(d: string): nat {
    if d == [] then 0
    else 10 * DigitsValue(d[..|d| - 1]) + DigitValue(d[|d| - 1])
  }

  function DigitChar(k: nat): (c: char)
    requires k < 10
    ensures IsDigit(c)
    ensures c as int - '0' as int == k
  {
    ('0' as int + k) as char
  }

  /** `Integer#to_s`: the decimal form of `n`, which begins with `0` only for zero itself. */
  function NatToString(n: nat): (s: string)
    ensures |s| > 0
  {
    if n < 10 then [DigitChar(n)] else NatToString(n / 10) + [DigitChar(n % 10)]
  }

  lemma {:induction false} NatToStringDigits(n: nat)
    ensures AllDigits(NatToString(n))
    ensures (NatToString(n)[0] == '0') == (n == 0)
  {
    if n >= 10 {
      NatToStringDigits(n / 10);
      var s, init := NatToString(n), NatToString(n / 10);
      assert s == init + [DigitChar(n % 10)];
      assert s[0] == init[0];
      assert forall i :: 0 <= i < |init| ==> s[i] == init[i];
    }
  }

  /** Reading back the decimal form of a number gives the number. */
  lemma {:induction false} DigitsValueOfNatToString(n: nat)
    ensures DigitsValue(NatToString(n)) == n
  {
    var s := NatToString(n);
    if n < 10 {
      assert s[..|s| - 1] == [];
    } else {
      assert s[..|s| - 1] == NatToString(n / 10);
      DigitsValueOfNatToString(n / 10);
    }
  }

  /** A digit string without leading zeros is the decimal form of its value. */
  lemma {:induction false} NatToStringOfDigits(d: string)
    requires |d| > 0 && AllDigits(d)
    requires |d| > 1 ==> d[0] != '0'
    ensures NatToString(DigitsValue(d)) == d
  {
    var init := d[..|d| - 1];
    var k := DigitValue(d[|d| - 1]);
    if |d| == 1 {
      assert init == [];
      assert [DigitChar(k)] == d;
    } else {
      assert init[0] == d[0];
      NatToStringOfDigits(init);
      var v := DigitsValue(init);
      assert v != 0;
      var n := DigitsValue(d);
      assert n == 10 * v + k;
      assert n / 10 == v && n % 10 == k;
      assert d == init + [DigitChar(k)];
    }
  }

  /** The length of the run of digits at the end of `s`. */
  function TrailingDigitCount(s: string): (k: nat)
    ensures k <= |s|
  {
    if s == [] || !IsDigit(s[|s| - 1]) then 0
    else TrailingDigitCount(s[..|s| - 1]) + 1
  }

  /** The counted run is all digits, and the character before it is not one. */
  lemma {:induction false} TrailingDigits(s: string)
    ensures AllDigits(s[|s| - TrailingDigitCount(s)..])
    ensures TrailingDigitCount(s) < |s| ==> !IsDigit(s[|s| - TrailingDigitCount(s) - 1])
  {
    if s != [] && IsDigit(s[|s| - 1]) {
      var init := s[..|s| - 1];
      TrailingDigits(init);
      var k' := TrailingDigitCount(init);
      assert s[|s| - (k' + 1)..] == init[|init| - k'..] + [s[|s| - 1]];
    }
  }

  lemma {:induction false} TrailingDigitCountOf(a: string, d: string)
    requires AllDigits(d)
    requires a == [] || !IsDigit(a[|a| - 1])
    ensures TrailingDigitCount(a + d) == |d|
    decreases |d|
  {
    if d == [] {
      assert a + d == a;
    } else {
      var s := a + d;
      assert s[..|s| - 1] == a + d[..|d| - 1];
      TrailingDigitCountOf(a, d[..|d| - 1]);
    }
  }

  /** A permalink split at the match of the pattern `/_(\d+)$/`. */
  datatype Suffix = Suffix(stem: string, digits: string)

  /** The match of `/_(\d+)$/` against `s`, if there is one. */
  function NumericSuffix(s: string): Option<Suffix> {
    var k := TrailingDigitCount(s);
    if 0 < k < |s| && s[|s| - k - 1] == '_' then Some(Suffix(s[..|s| - k - 1], s[|s| - k..]))
    else None
  }

  /** A match splits the permalink into stem, underscore and a non-empty run of digits. */
  lemma NumericSuffixSplits(s: string)
    ensures NumericSuffix(s).Some? ==>
      var m := NumericSuffix(s).value;
      |m.digits| > 0 && AllDigits(m.digits) && s == m.stem + "_" + m.digits
  {
    var k := TrailingDigitCount(s);
    if 0 < k < |s| && s[|s| - k - 1] == '_' {
      TrailingDigits(s);
      assert s == s[..|s| - k - 1] + "_" + s[|s| - k..];
    }
  }

  /** The pattern `/_(\d+)$/` matches: an underscore followed by one or more digits up to the end. */
  ghost predicate EndsWithUnderscoreNumber(s: string) {
    exists j :: 0 <= j < |s| - 1 && s[j] == '_' && AllDigits(s[j + 1..])
  }

  /** The match of a permalink written as stem, underscore and digits is exactly that split. */
  lemma NumericSuffixOf(stem: string, digits: string)
    requires |digits| > 0 && AllDigits(digits)
    ensures NumericSuffix(stem + "_" + digits) == Some(Suffix(stem, digits))
  {
    var s := stem + "_" + digits;
    assert (stem + "_")[|stem + "_"| - 1] == '_';
    TrailingDigitCountOf(stem + "_", digits);
    assert s[|s| - |digits| - 1] == '_';
    assert s[..|s| - |digits| - 1] == stem;
    assert s[|s| - |digits|..] == digits;
  }

  /** `NumericSuffix` finds a match exactly when the pattern matches. */
  lemma NumericSuffixMatches(s: string)
    ensures NumericSuffix(s).Some? <==> EndsWithUnderscoreNumber(s)
  {
    var m := NumericSuffix(s);
    NumericSuffixSplits(s);
    if m.Some? {
      var stem, digits := m.value.stem, m.value.digits;
      var j := |stem|;
      assert s == stem + "_" + digits;
      assert s[j] == '_';
      assert s[j + 1..] == digits;
    }
    if EndsWithUnderscoreNumber(s) {
      var j :| 0 <= j < |s| - 1 && s[j] == '_' && AllDigits(s[j + 1..]);
      var stem, digits := s[..j], s[j + 1..];
      assert s == stem + "_" + digits;
      NumericSuffixOf(stem, digits);
    }
  }

  /** `append_integer`: increment the trailing `_<digits>`, or append `_1`. */
  function AppendInteger(permalink: string): string {
    match NumericSuffix(permalink)
    case Some(m) => m.stem + "_" + NatToString(DigitsValue(m.digits) + 1)
    case None => permalink + "_1"
  }

  /** A permalink ending in `_N` keeps its stem and gets `_` and the decimal form of N + 1. */
  lemma AppendIntegerIncrements(stem: string, digits: string)
    requires |digits| > 0 && AllDigits(digits)
    ensures AppendInteger(stem + "_" + digits) == stem + "_" + NatToString(DigitsValue(digits) + 1)
  {
    NumericSuffixOf(stem, digits);
  }

  /** Any other permalink gets `_1` appended. */
  lemma AppendIntegerAppendsOne(permalink: string)
    requires !EndsWithUnderscoreNumber(permalink)
    ensures AppendInteger(permalink) == permalink + "_1"
  {
    NumericSuffixMatches(permalink);
  }

  /** The number captured by `/_(\d+)$/`, when the pattern matches. */
  function SuffixValue(s: string): Option<nat> {
    match NumericSuffix(s)
    case Some(m) => Some(DigitsValue(m.digits))
    case None => None
  }

  /** The permalink without its numeric suffix. */
  function Stem(s: string): string {
    match NumericSuffix(s)
    case Some(m) => m.stem
    case None => s
  }

  /** The captured number, or zero when there is none. */
  function BaseValue(s: string): nat {
    match SuffixValue(s)
    case Some(v) => v
    case None => 0
  }

  lemma DigitsValueOne()
    ensures AllDigits("1") && DigitsValue("1") == 1
  {
    var one: string := "1";
    assert one[..0] == [];
  }

  /** After `append_integer` the permalink always ends in a number: one more than before, or 1. */
  lemma AppendIntegerSuffix(s: string)
    ensures SuffixValue(AppendInteger(s)) == Some(BaseValue(s) + 1)
    ensures Stem(AppendInteger(s)) == Stem(s)
  {
    var m := NumericSuffix(s);
    if m.Some? {
      var n := DigitsValue(m.value.digits) + 1;
      var d := NatToString(n);
      assert AppendInteger(s) == m.value.stem + "_" + d;
      NatToStringDigits(n);
      NumericSuffixOf(m.value.stem, d);
      DigitsValueOfNatToString(n);
    } else {
      var one: string := "1";
      assert AppendInteger(s) == s + "_" + one;
      DigitsValueOne();
      NumericSuffixOf(s, one);
    }
  }

  /** `append_integer` applied `k` times. */
  function Iterate(s: string, k: nat): string {
    if k == 0 then s else AppendInteger(Iterate(s, k - 1))
  }

  lemma {:induction false} IterateShift(s: string, k: nat)
    ensures Iterate(AppendInteger(s), k) == Iterate(s, k + 1)
  {
    if k > 0 {
      IterateShift(s, k - 1);
    }
  }

  /** After the first step the stem stays fixed and the number grows by one per step. */
  lemma {:induction false} IterateSuffix(s: string, k: nat)
    requires k > 0
    ensures SuffixValue(Iterate(s, k)) == Some(BaseValue(s) + k)
    ensures Stem(Iterate(s, k)) == Stem(s)
  {
    AppendIntegerSuffix(Iterate(s, k - 1));
    if k > 1 {
      IterateSuffix(s, k - 1);
    }
  }

  /** No two steps of the collision loop produce the same permalink. */
  lemma IterateInjective(s: string, i: nat, j: nat)
    requires i < j
    ensures Iterate(s, i) != Iterate(s, j)
  {
    IterateSuffix(s, j);
    if i > 0 {
      IterateSuffix(s, i);
    }
  }

  /** A permalink without a numeric suffix gets `_1`. */
  lemma AppendIntegerExampleNoSuffix()
    ensures AppendInteger("shoes") == "shoes_1"
  {
    var shoes: string := "shoes";
    assert TrailingDigitCount(shoes) == 0;
  }

  /** `shoes_2` becomes `shoes_3`. */
  lemma AppendIntegerExampleIncrement()
    ensures AppendInteger("shoes_2") == "shoes_3"
  {
    var shoes, two: string := "shoes", "2";
    assert two[..0] == [];
    assert AllDigits(two);
    AppendIntegerIncrements(shoes, two);
    assert shoes + "_" + two == "shoes_2";
    assert NatToString(3) == "3";
  }

  /** `shoes_1` becomes `shoes_2`. */
  lemma AppendIntegerExampleOne()
    ensures AppendInteger("shoes_1") == "shoes_2"
  {
    var shoes, one: string := "shoes", "1";
    DigitsValueOne();
    AppendIntegerIncrements(shoes, one);
    assert shoes + "_" + one == "shoes_1";
    assert NatToString(2) == "2";
  }

  lemma DigitsValueWithLeadingZeros()
    ensures AllDigits("007") && DigitsValue("007") == 7
  {
    var z1, z2, zeros: string := "0", "00", "007";
    assert z1[..0] == [] && z2[..1] == z1 && zeros[..2] == z2;
    assert DigitsValue(z1) == 0;
    assert DigitsValue(z2) == 0;
  }

  /** Leading zeros are dropped: `shoes_007` becomes `shoes_8`. */
  lemma AppendIntegerExampleLeadingZeros()
    ensures AppendInteger("shoes_007") == "shoes_8"
  {
    var shoes, zeros: string := "shoes", "007";
    DigitsValueWithLeadingZeros();
    AppendIntegerIncrements(shoes, zeros);
    assert shoes + "_" + zeros == "shoes_007";
    assert NatToString(8) == "8";
  }

  /** The number may gain a digit: `shoes_9` becomes `shoes_10`. */
  lemma AppendIntegerExampleCarry()
    ensures AppendInteger("shoes_9") == "shoes_10"
  {
    var shoes, nine: string := "shoes", "9";
    assert nine[..0] == [];
    assert AllDigits(nine);
    AppendIntegerIncrements(shoes, nine);
    assert shoes + "_" + nine == "shoes_9";
    assert NatToString(10) == NatToString(1) + [DigitChar(0)];
  }
}
