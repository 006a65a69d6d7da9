/** Reading environment values as truth values and integers (code/logic/env.c). */
module EnvironmentValues {
  import opened CStrings
  import opened Environment

  /** A C string whose characters are bytes. */
  type ByteString = s: string | '\0' !in s && (forall k :: 0 <= k < |s| ==> s[k] as int < 256) witness ""

  // ---------------------------------------------------------------------
  // Comparison without regard to case
  // ---------------------------------------------------------------------

  /** tolower in the C locale. */
  function Lower(c: char): char {
    if 'A' <= c <= 'Z' then (c as int + 32) as char else c
  }

  /** Each of the 26 capitals becomes its small letter. */
  lemma LowerOfCapitals(k: nat)
    requires k < 26
    ensures Lower("ABCDEFGHIJKLMNOPQRSTUVWXYZ"[k]) == "abcdefghijklmnopqrstuvwxyz"[k]
  {
  }

  /** Nothing else changes. */
  lemma LowerChangesCapitalsOnly(c: char)
    ensures Lower(c) != c ==> c in "ABCDEFGHIJKLMNOPQRSTUVWXYZ"
  {
    var capitals := "ABCDEFGHIJKLMNOPQRSTUVWXYZ";
    if 'A' <= c <= 'Z' {
      assert capitals[c as int - 'A' as int] == c;
    }
  }

  function Lowered(s: string): (r: string)
    ensures |r| == |s| && forall k :: 0 <= k < |s| ==> r[k] == Lower(s[k])
  {
    if s == "" then "" else [Lower(s[0])] + Lowered(s[1..])
  }

  /** The value of a byte in a signed `char`. */
  function Signed(c: char): int {
    if c as int < 128 then c as int else c as int - 256
  }

  /** The character a pointer to the start of `s` sees, as a signed char. */
  function Front(s: string): int {
    if s == "" then 0 else Signed(s[0])
  }

  function Compare(a: string, b: string): int {
    if a == "" || b == "" then Front(a) - Front(b)
    else if Lower(a[0]) != Lower(b[0]) then Lower(a[0]) as int - Lower(b[0]) as int
    else Compare(a[1..], b[1..])
  }

  /** fossil_sys_env_stricmp; None is NULL. */
  method Stricmp(a: Option<ByteString>, b: Option<ByteString>) returns (r: int)
    ensures r == if a.None? || b.None? then -1 else Compare(a.value, b.value)
  {
    if a.None? || b.None? {
      return -1;
    }
    var (x, y) := (a.value, b.value);
    var i := 0;
    while i < |x| && i < |y|
      invariant 0 <= i <= |x| && i <= |y|
      invariant Compare(x, y) == Compare(x[i..], y[i..])
    {
      var (ca, cb) := (Lower(x[i]), Lower(y[i]));
      if ca != cb {
        return ca as int - cb as int;
      }
      assert x[i..][1..] == x[i + 1..] && y[i..][1..] == y[i + 1..];
      i := i + 1;
    }
    return (if i < |x| then Signed(x[i]) else 0) - (if i < |y| then Signed(y[i]) else 0);
  }

  /** Strict lexicographic order by character code. */
  predicate LexLess(a: string, b: string) {
    b != "" && (a == "" || a[0] < b[0] || (a[0] == b[0] && LexLess(a[1..], b[1..])))
  }

  predicate IsAscii(s: string) {
    forall k :: 0 <= k < |s| ==> s[k] as int < 128
  }

  /** `b` begins with `a`, in lower case, and goes on with a byte that a signed
      char takes for negative. */
  predicate GoesOnHigh(a: string, b: string) {
    Lowered(a) < Lowered(b) && b[|a|] as int >= 128
  }

  predicate HighTail(a: string, b: string) {
    GoesOnHigh(a, b) || GoesOnHigh(b, a)
  }

  lemma LoweredTail(s: string)
    requires s != ""
    ensures Lowered(s)[1..] == Lowered(s[1..]) && Lowered(s)[0] == Lower(s[0])
  {
  }

  lemma GoesOnHighStep(a: string, b: string)
    requires a != "" && b != ""
    ensures GoesOnHigh(a, b) <==> Lower(a[0]) == Lower(b[0]) && GoesOnHigh(a[1..], b[1..])
  {
  }

  lemma LexLessStep(a: string, b: string)
    requires a != "" && b != ""
    ensures LexLess(Lowered(a), Lowered(b)) <==>
            Lower(a[0]) < Lower(b[0]) || (Lower(a[0]) == Lower(b[0]) && LexLess(Lowered(a[1..]), Lowered(b[1..])))
  {
  }

  ghost predicate SignAgrees(a: string, b: string) {
    && (Compare(a, b) < 0 <==> LexLess(Lowered(a), Lowered(b)))
    && (Compare(a, b) > 0 <==> LexLess(Lowered(b), Lowered(a)))
  }

  lemma CompareWithEmpty(b: ByteString)
    requires b != ""
    ensures SignAgrees("", b) <==> !HighTail("", b)
    ensures SignAgrees(b, "") <==> !HighTail(b, "")
  {
  }

  lemma SignAgreesStep(a: string, b: string)
    requires a != "" && b != "" && Lower(a[0]) == Lower(b[0])
    ensures SignAgrees(a, b) <==> SignAgrees(a[1..], b[1..])
    ensures HighTail(a, b) <==> HighTail(a[1..], b[1..])
  {
    LexLessStep(a, b);
    LexLessStep(b, a);
    GoesOnHighStep(a, b);
    GoesOnHighStep(b, a);
  }

  lemma SignAgreesAtOnce(a: string, b: string)
    requires a != "" && b != "" && Lower(a[0]) != Lower(b[0])
    ensures SignAgrees(a, b) && !HighTail(a, b)
  {
  }

  /** The comparison has the sign of lexicographic order on the lower-cased
      strings, exactly when neither string goes on with a high byte where the
      other ends. */
  lemma {:induction false} CompareSign(a: ByteString, b: ByteString)
    ensures SignAgrees(a, b) <==> !HighTail(a, b)
    decreases |a|
  {
    if a == "" && b == "" {
    } else if a == "" {
      CompareWithEmpty(b);
    } else if b == "" {
      CompareWithEmpty(a);
    } else if Lower(a[0]) == Lower(b[0]) {
      SignAgreesStep(a, b);
      CompareSign(a[1..], b[1..]);
    } else {
      SignAgreesAtOnce(a, b);
    }
  }

  /** Equality is exact on all byte strings. */
  lemma {:induction false} CompareZero(a: ByteString, b: ByteString)
    ensures Compare(a, b) == 0 <==> Lowered(a) == Lowered(b)
    decreases |a|
  {
    if a == "" || b == "" {
      assert forall s: ByteString :: s != "" ==> s[0] != '\0';
    } else {
      LoweredTail(a);
      LoweredTail(b);
      assert Lowered(a) == [Lower(a[0])] + Lowered(a[1..]);
      assert Lowered(b) == [Lower(b[0])] + Lowered(b[1..]);
      if Lower(a[0]) == Lower(b[0]) {
        CompareZero(a[1..], b[1..]);
      }
    }
  }

  /** The value: at the first position where the lower-cased strings differ, or
      where one of them ends, the difference of the lower-cased characters as
      unsigned values, or of the characters as they stand as signed ones. */
  lemma {:induction false} CompareAtDifference(a: ByteString, b: ByteString, k: nat)
    requires k <= |a| && k <= |b| && forall j :: 0 <= j < k ==> Lower(a[j]) == Lower(b[j])
    ensures k < |a| && k < |b| && Lower(a[k]) != Lower(b[k]) ==>
              Compare(a, b) == Lower(a[k]) as int - Lower(b[k]) as int
    ensures k == |a| == |b| ==> Compare(a, b) == 0
    ensures k == |a| < |b| ==> Compare(a, b) == if b[k] as int < 128 then -(b[k] as int) else 256 - b[k] as int
    ensures k == |b| < |a| ==> Compare(a, b) == if a[k] as int < 128 then a[k] as int else a[k] as int - 256
    decreases k
  {
    if k > 0 {
      assert forall j :: 0 <= j < k - 1 ==> a[1..][j] == a[j + 1] && b[1..][j] == b[j + 1];
      CompareAtDifference(a[1..], b[1..], k - 1);
    }
  }

  lemma {:induction false} CompareIsOdd(a: string, b: string)
    ensures Compare(a, b) == -Compare(b, a)
    decreases |a|
  {
    if a != "" && b != "" && Lower(a[0]) == Lower(b[0]) {
      CompareIsOdd(a[1..], b[1..]);
    }
  }

  /** `b` begins with `a`, in lower case, and goes on with a byte that is
      positive as a signed char. */
  predicate GoesOnLow(a: string, b: string) {
    Lowered(a) < Lowered(b) && b[|a|] as int < 128
  }

  lemma GoesOnLowStep(a: string, b: string)
    requires a != "" && b != ""
    ensures GoesOnLow(a, b) <==> Lower(a[0]) == Lower(b[0]) && GoesOnLow(a[1..], b[1..])
  {
  }

  /** `low` and `high` both go on where `end` ends, one with an ASCII character
      and one with a high byte: `end` sorts before `low`, `low` before `high`,
      and `high` before `end`. */
  predicate Circle(end: string, low: string, high: string) {
    GoesOnLow(end, low) && GoesOnHigh(end, high)
  }

  lemma CircleStep(end: string, low: string, high: string)
    requires end != "" && low != "" && high != ""
    ensures Circle(end, low, high) <==>
            Lower(end[0]) == Lower(low[0]) == Lower(high[0]) && Circle(end[1..], low[1..], high[1..])
  {
    GoesOnLowStep(end, low);
    GoesOnHighStep(end, high);
  }

  /** `<=` by the comparison does not carry over from a, b and b, c to a, c. */
  predicate Breaks(a: string, b: string, c: string) {
    Compare(a, b) <= 0 && Compare(b, c) <= 0 && Compare(a, c) > 0
  }

  predicate SomeCircle(a: string, b: string, c: string) {
    Circle(a, b, c) || Circle(b, c, a) || Circle(c, a, b)
  }

  lemma BreaksStep(a: string, b: string, c: string)
    requires a != "" && b != "" && c != ""
    requires Lower(a[0]) == Lower(b[0]) == Lower(c[0])
    ensures Breaks(a, b, c) <==> Breaks(a[1..], b[1..], c[1..])
    ensures SomeCircle(a, b, c) <==> SomeCircle(a[1..], b[1..], c[1..])
  {
    CircleStep(a, b, c);
    CircleStep(b, c, a);
    CircleStep(c, a, b);
  }

  lemma EmptyGoesOn(b: string)
    ensures GoesOnLow("", b) <==> b != "" && b[0] as int < 128
    ensures GoesOnHigh("", b) <==> b != "" && b[0] as int >= 128
    ensures !GoesOnLow(b, "") && !GoesOnHigh(b, "")
  {
  }

  lemma BreaksAtEnd(a: ByteString, b: ByteString, c: ByteString)
    requires a == "" || b == "" || c == ""
    ensures Breaks(a, b, c) <==> SomeCircle(a, b, c)
  {
    EmptyGoesOn(a);
    EmptyGoesOn(b);
    EmptyGoesOn(c);
  }

  lemma DifferentHeads(a: string, b: string)
    requires a != "" && b != "" && Lower(a[0]) != Lower(b[0])
    ensures !GoesOnLow(a, b) && !GoesOnHigh(a, b)
    ensures Compare(a, b) <= 0 <==> Lower(a[0]) < Lower(b[0])
  {
    GoesOnLowStep(a, b);
    GoesOnHighStep(a, b);
  }

  lemma BreaksAtHeads(a: ByteString, b: ByteString, c: ByteString)
    requires a != "" && b != "" && c != ""
    requires Lower(a[0]) != Lower(b[0]) || Lower(b[0]) != Lower(c[0])
    ensures !Breaks(a, b, c) && !SomeCircle(a, b, c)
  {
    if Lower(a[0]) != Lower(b[0]) {
      DifferentHeads(a, b);
    }
    if Lower(b[0]) != Lower(c[0]) {
      DifferentHeads(b, c);
    }
    if Lower(a[0]) != Lower(c[0]) {
      DifferentHeads(a, c);
      DifferentHeads(c, a);
    }
    CircleStep(a, b, c);
    CircleStep(b, c, a);
    CircleStep(c, a, b);
  }

  /** Transitivity fails on exactly the triples of byte strings that make up a
      circle. */
  lemma {:induction false} TransitiveExactly(a: ByteString, b: ByteString, c: ByteString)
    ensures Compare(a, b) <= 0 && Compare(b, c) <= 0 && Compare(a, c) > 0 <==>
            Circle(a, b, c) || Circle(b, c, a) || Circle(c, a, b)
    decreases |a|
  {
    if a == "" || b == "" || c == "" {
      BreaksAtEnd(a, b, c);
    } else if Lower(a[0]) != Lower(b[0]) || Lower(b[0]) != Lower(c[0]) {
      BreaksAtHeads(a, b, c);
    } else {
      TransitiveExactly(a[1..], b[1..], c[1..]);
      BreaksStep(a, b, c);
    }
  }

  lemma AsciiGoesOnLow(a: string, b: string)
    requires IsAscii(b)
    ensures !GoesOnHigh(a, b)
  {
  }

  /** On ASCII strings: a total preorder whose ties are the strings that differ
      in case only. */
  lemma {:induction false} AsciiPreorder(a: ByteString, b: ByteString, c: ByteString)
    requires IsAscii(a) && IsAscii(b) && IsAscii(c)
    ensures Compare(a, b) <= 0 || Compare(b, a) <= 0
    ensures Compare(a, b) <= 0 && Compare(b, c) <= 0 ==> Compare(a, c) <= 0
    ensures Compare(a, b) <= 0 && Compare(b, a) <= 0 ==> Lowered(a) == Lowered(b)
  {
    CompareIsOdd(a, b);
    CompareZero(a, b);
    TransitiveExactly(a, b, c);
    AsciiGoesOnLow(a, c);
    AsciiGoesOnLow(b, a);
    AsciiGoesOnLow(c, b);
  }

  /** The smallest circle. */
  lemma NotTransitiveOnBytes(high: ByteString)
    requires |high| == 1 && high[0] as int == 128
    ensures Compare("", "a") < 0 && Compare("a", high) < 0 && Compare("", high) > 0
  {
    TransitiveExactly("", "a", high);
  }

  // ---------------------------------------------------------------------
  // Truth values
  // ---------------------------------------------------------------------

  predicate TrueWord(s: string) {
    Lowered(s) == "1" || Lowered(s) == "true" || Lowered(s) == "yes"
  }

  predicate FalseWord(s: string) {
    Lowered(s) == "0" || Lowered(s) == "false" || Lowered(s) == "no"
  }

  function BoolOf(v: Option<string>, defaultValue: int): int {
    if v.None? then defaultValue
    else if TrueWord(v.value) then 1
    else if FalseWord(v.value) then 0
    else defaultValue
  }

  /** Which value each word gives, in any case of its letters. */
  lemma BoolOfWords(v: string, defaultValue: int)
    ensures Lowered(v) == "1" || Lowered(v) == "true" || Lowered(v) == "yes" ==> BoolOf(Some(v), defaultValue) == 1
    ensures Lowered(v) == "0" || Lowered(v) == "false" || Lowered(v) == "no" ==> BoolOf(Some(v), defaultValue) == 0
    ensures Lowered(v) != "1" && Lowered(v) != "true" && Lowered(v) != "yes"
            && Lowered(v) != "0" && Lowered(v) != "false" && Lowered(v) != "no" ==>
              BoolOf(Some(v), defaultValue) == defaultValue
    ensures BoolOf(None, defaultValue) == defaultValue
  {
  }

  /** No word is on both lists, so the order of the tests does not matter: the
      default comes back, whatever it is, exactly when there is no value or it
      is none of the six words in any case. */
  lemma BoolOfIsOrderFree(v: Option<string>)
    ensures v.Some? ==> !(TrueWord(v.value) && FalseWord(v.value))
    ensures (forall d: int :: BoolOf(v, d) == d) <==> v.None? || (!TrueWord(v.value) && !FalseWord(v.value))
  {
    assert BoolOf(v, 2) == 2 ==> v.None? || (!TrueWord(v.value) && !FalseWord(v.value));
  }

  predicate IsLower(s: string) {
    forall k :: 0 <= k < |s| ==> Lower(s[k]) == s[k]
  }

  lemma WordsAreLower()
    ensures IsLower("1") && IsLower("true") && IsLower("yes")
    ensures IsLower("0") && IsLower("false") && IsLower("no")
  {
  }

  /** stricmp(v, word) == 0, for a word in lower case. */
  method EqualsWord(v: ByteString, word: ByteString) returns (equal: bool)
    requires IsLower(word)
    ensures equal <==> Lowered(v) == word
  {
    var r := Stricmp(Some(v), Some(word));
    CompareZero(v, word);
    assert Lowered(word) == word;
    return r == 0;
  }

  /** fossil_sys_env_parse_bool; None is NULL. */
  method ParseBool(v: Option<ByteString>, defaultValue: int) returns (r: int)
    ensures r == BoolOf(v, defaultValue)
  {
    if v.None? {
      return defaultValue;
    }
    WordsAreLower();
    var equal := EqualsWord(v.value, "1");
    if equal {
      return 1;
    }
    equal := EqualsWord(v.value, "true");
    if equal {
      return 1;
    }
    equal := EqualsWord(v.value, "yes");
    if equal {
      return 1;
    }
    equal := EqualsWord(v.value, "0");
    if equal {
      return 0;
    }
    equal := EqualsWord(v.value, "false");
    if equal {
      return 0;
    }
    equal := EqualsWord(v.value, "no");
    if equal {
      return 0;
    }
    return defaultValue;
  }

  // ---------------------------------------------------------------------
  // Integers: strtol, base 10 (section 7.22.1.4 of ISO/IEC 9899:2011)
  // ---------------------------------------------------------------------

  const LONG_MAX: int := 0x7fff_ffff_ffff_ffff
  const LONG_MIN: int := -0x8000_0000_0000_0000

  /** isspace in the C locale. */
  predicate IsSpace(c: char) {
    c == ' ' || 9 <= c as int <= 13
  }

  predicate IsDigit(c: char) {
    '0' <= c <= '9'
  }

  lemma SpacesAndDigits(c: char)
    ensures IsSpace(c) <==> c in " \t\n\r" || c as int == 11 || c as int == 12
    ensures IsDigit(c) <==> c in "0123456789"
  {
    var digits := "0123456789";
    if IsDigit(c) {
      assert digits[c as int - '0' as int] == c;
    }
  }

  predicate AllSpace(s: string) {
    forall k :: 0 <= k < |s| ==> IsSpace(s[k])
  }

  predicate AllDigits(s: string) {
    forall k :: 0 <= k < |s| ==> IsDigit(s[k])
  }

  function SkipSpace(s: string, i: nat): (j: nat)
    requires i <= |s|
    ensures i <= j <= |s|
    ensures forall k :: i <= k < j ==> IsSpace(s[k])
    ensures j < |s| ==> !IsSpace(s[j])
    decreases |s| - i
  {
    if i < |s| && IsSpace(s[i]) then SkipSpace(s, i + 1) else i
  }

  function SkipSign(s: string, i: nat): (j: nat)
    requires i <= |s|
    ensures j <= |s|
  {
    if i < |s| && (s[i] == '+' || s[i] == '-') then i + 1 else i
  }

  function SkipDigits(s: string, i: nat): (j: nat)
    requires i <= |s|
    ensures i <= j <= |s|
    ensures forall k :: i <= k < j ==> IsDigit(s[k])
    ensures j < |s| ==> !IsDigit(s[j])
    decreases |s| - i
  {
    if i < |s| && IsDigit(s[i]) then SkipDigits(s, i + 1) else i
  }

  /** The number a digit string denotes. */
  function DecValue(d: string): nat
    requires AllDigits(d)
  {
    if d == "" then 0 else 10 * DecValue(d[..|d| - 1]) + (d[|d| - 1] as int - '0' as int)
  }

  function Saturate(x: int): int {
    if x > LONG_MAX then LONG_MAX else if x < LONG_MIN then LONG_MIN else x
  }

  function Abs(x: int): nat {
    if x < 0 then -x else x
  }

  /** Saturation gives the closest value that a long can hold. */
  lemma SaturateIsClosest(x: int, y: int)
    requires -9_223_372_036_854_775_808 <= y <= 9_223_372_036_854_775_807
    ensures -9_223_372_036_854_775_808 <= Saturate(x) <= 9_223_372_036_854_775_807
    ensures Abs(x - Saturate(x)) <= Abs(x - y)
  {
  }

  function Pow10(n: nat): nat {
    if n == 0 then 1 else 10 * Pow10(n - 1)
  }

  lemma DistributeTen(a: int, p: int, b: int)
    ensures 10 * (a * p + b) == a * (10 * p) + 10 * b
  {
  }

  /** Positional notation: the digits have the values 0 to 9, and a digit string
      counts for as many tens as there are digits behind it. */
  lemma {:induction false} DecValueOfConcat(a: string, b: string)
    requires AllDigits(a) && AllDigits(b)
    ensures DecValue(a + b) == DecValue(a) * Pow10(|b|) + DecValue(b)
  {
    if b == "" {
      assert a + b == a;
    } else {
      var front := b[..|b| - 1];
      assert (a + b)[..|a + b| - 1] == a + front;
      DecValueOfConcat(a, front);
      DistributeTen(DecValue(a), Pow10(|front|), DecValue(front));
    }
  }

  lemma DigitValues(k: nat)
    requires k < 10
    ensures AllDigits(["0123456789"[k]]) && DecValue(["0123456789"[k]]) == k
  {
    var d := ["0123456789"[k]];
    assert d[..0] == "";
  }

  /** The value and the offset of `*end`; without digits, 0 and the start. */
  function Strtol(s: string): (r: (int, nat))
    ensures r.1 <= |s|
  {
    var i := SkipSpace(s, 0);
    var j := SkipSign(s, i);
    var e := SkipDigits(s, j);
    if e == j then (0, 0)
    else
      var magnitude: int := DecValue(s[j..e]);
      (Saturate(if j > i && s[i] == '-' then -magnitude else magnitude), e)
  }

  /** Conversion of a long to a 32-bit int: the low 32 bits, as two's complement. */
  function ToInt32(x: int): int {
    var low := x % 0x1_0000_0000;
    if low >= 0x8000_0000 then low - 0x1_0000_0000 else low
  }

  /** The one 32-bit value that is congruent to `x` modulo 2^32. */
  lemma ToInt32Exactly(x: int, r: int)
    ensures r == ToInt32(x) <==> -2_147_483_648 <= r < 2_147_483_648 && (x - r) % 4_294_967_296 == 0
  {
  }

  /** The reading half of fossil_sys_env_get_int; None is NULL. */
  function IntOf(v: Option<string>, defaultValue: int): int {
    if v.None? then defaultValue
    else
      var (result, end) := Strtol(v.value);
      if end == 0 || end != |v.value| then defaultValue else ToInt32(result)
  }

  /** fossil_sys_env_get_int */
  function GetInt(pl: Platform, env: Environ, key: Option<string>, defaultValue: int): int {
    IntOf(Get(pl, env, key), defaultValue)
  }

  /** Text that is an integer from beginning to end, in its three parts. */
  ghost predicate IsNumeral(s: string, space: string, sign: string, digits: string) {
    && s == space + sign + digits
    && AllSpace(space)
    && (sign == "" || sign == "+" || sign == "-")
    && digits != "" && AllDigits(digits)
  }

  function SignedValue(sign: string, digits: string): int
    requires AllDigits(digits)
  {
    var magnitude: int := DecValue(digits);
    if sign == "-" then -magnitude else magnitude
  }

  lemma {:induction false} SkipSpaceStops(s: string, i: nat, j: nat)
    requires i <= j <= |s| && (forall k :: i <= k < j ==> IsSpace(s[k])) && (j < |s| ==> !IsSpace(s[j]))
    ensures SkipSpace(s, i) == j
    decreases |s| - i
  {
  }

  lemma {:induction false} SkipDigitsToEnd(s: string, i: nat)
    requires i <= |s| && forall k :: i <= k < |s| ==> IsDigit(s[k])
    ensures SkipDigits(s, i) == |s|
    decreases |s| - i
  {
  }

  /** The three parts seen from the whole. */
  lemma NumeralLayout(s: string, space: string, sign: string, digits: string)
    requires s == space + sign + digits
    ensures |s| == |space| + |sign| + |digits|
    ensures forall k :: 0 <= k < |space| ==> s[k] == space[k]
    ensures forall k :: |space| <= k < |space| + |sign| ==> s[k] == sign[k - |space|]
    ensures forall k :: |space| + |sign| <= k < |s| ==> s[k] == digits[k - |space| - |sign|]
    ensures s[|space| + |sign|..|s|] == digits
  {
  }

  lemma NumeralParts(s: string, space: string, sign: string, digits: string)
    requires IsNumeral(s, space, sign, digits)
    ensures SkipSpace(s, 0) == |space|
    ensures SkipSign(s, |space|) == |space| + |sign|
    ensures SkipDigits(s, |space| + |sign|) == |s|
  {
    NumeralLayout(s, space, sign, digits);
    SkipSpaceStops(s, 0, |space|);
    SkipDigitsToEnd(s, |space| + |sign|);
  }

  /** Every numeral is read to its end. */
  lemma NumeralIsRead(s: string, space: string, sign: string, digits: string)
    requires IsNumeral(s, space, sign, digits)
    ensures Strtol(s) == (Saturate(SignedValue(sign, digits)), |s|)
  {
    NumeralParts(s, space, sign, digits);
    NumeralLayout(s, space, sign, digits);
    assert sign != "" ==> s[|space|] == sign[0];
  }

  /** Only numerals are read to their end. */
  lemma OnlyNumeralsAreRead(s: string)
    requires Strtol(s).1 == |s| > 0
    ensures exists space, sign, digits :: IsNumeral(s, space, sign, digits)
  {
    var i := SkipSpace(s, 0);
    var j := SkipSign(s, i);
    assert SkipDigits(s, j) == |s|;
    assert s == s[..i] + s[i..j] + s[j..];
    assert j > i ==> s[i..j] == [s[i]];
    assert IsNumeral(s, s[..i], s[i..j], s[j..]);
  }

  /** The default is returned, whatever it is, exactly when the value is missing
      or is not an integer from beginning to end. */
  lemma DefaultIffNoNumeral(v: Option<string>)
    ensures (forall d: int :: IntOf(v, d) == d) <==>
            v.None? || !exists space, sign, digits :: IsNumeral(v.value, space, sign, digits)
  {
    if v.Some? {
      if space, sign, digits :| IsNumeral(v.value, space, sign, digits) {
        NumeralIsRead(v.value, space, sign, digits);
        var x := ToInt32(Saturate(SignedValue(sign, digits)));
        assert IntOf(v, x + 1) == x;
      } else if Strtol(v.value).1 == |v.value| > 0 {
        OnlyNumeralsAreRead(v.value);
      }
    }
  }

  /** Otherwise it is the low 32 bits of the value saturated to long. */
  lemma NumeralValue(v: string, space: string, sign: string, digits: string, d: int)
    requires IsNumeral(v, space, sign, digits)
    ensures IntOf(Some(v), d) == ToInt32(Saturate(SignedValue(sign, digits)))
  {
    NumeralIsRead(v, space, sign, digits);
  }

  lemma {:induction false} ZerosAreNothing(zeros: string)
    requires forall k :: 0 <= k < |zeros| ==> zeros[k] == '0'
    ensures AllDigits(zeros) && DecValue(zeros) == 0
  {
    if zeros != "" {
      ZerosAreNothing(zeros[..|zeros| - 1]);
    }
  }

  lemma {:induction false} LeadingZeros(zeros: string, digits: string)
    requires (forall k :: 0 <= k < |zeros| ==> zeros[k] == '0') && AllDigits(digits)
    ensures AllDigits(zeros + digits) && DecValue(zeros + digits) == DecValue(digits)
  {
    DecValueOfConcat(zeros, digits);
    ZerosAreNothing(zeros);
  }

  /** What does not matter to the value read: white space before the numeral,
      leading zeros, and a plus sign. */
  lemma LayoutDoesNotMatter(space: string, sign: string, zeros: string, digits: string, d: int)
    requires AllSpace(space) && (sign == "" || sign == "+" || sign == "-")
    requires (forall k :: 0 <= k < |zeros| ==> zeros[k] == '0') && digits != "" && AllDigits(digits)
    ensures IntOf(Some(space + sign + (zeros + digits)), d) ==
            IntOf(Some((if sign == "-" then "-" else "") + digits), d)
  {
    LeadingZeros(zeros, digits);
    NumeralValue(space + sign + (zeros + digits), space, sign, zeros + digits, d);
    var plain := if sign == "-" then "-" else "";
    assert "" + plain + digits == plain + digits;
    NumeralValue(plain + digits, "", plain, digits, d);
  }

  // ---------------------------------------------------------------------
  // Writing an integer and reading it back
  // ---------------------------------------------------------------------

  function Digits(n: nat): (d: string)
    ensures d != "" && AllDigits(d)
  {
    (if n < 10 then "" else Digits(n / 10)) + [(n % 10 + '0' as int) as char]
  }

  function Decimal(n: int): string {
    if n < 0 then "-" + Digits(-n) else Digits(n)
  }

  lemma {:induction false} DigitsValue(n: nat)
    ensures DecValue(Digits(n)) == n
  {
    var d := Digits(n);
    if n < 10 {
      assert d[..|d| - 1] == "";
    } else {
      assert d[..|d| - 1] == Digits(n / 10);
      DigitsValue(n / 10);
    }
  }

  lemma ReadsBack(sign: string, digits: string, n: int, d: int)
    requires (sign == "" || sign == "-") && digits != "" && AllDigits(digits)
    requires SignedValue(sign, digits) == n && -0x8000_0000 <= n < 0x8000_0000
    ensures IntOf(Some(sign + digits), d) == n
  {
    assert "" + sign + digits == sign + digits;
    NumeralValue(sign + digits, "", sign, digits, d);
  }

  lemma DecimalReadsBack(n: int, d: int)
    requires -0x8000_0000 <= n < 0x8000_0000
    ensures IntOf(Some(Decimal(n)), d) == n
  {
    if n < 0 {
      DigitsValue(-n);
      ReadsBack("-", Digits(-n), n, d);
    } else {
      DigitsValue(n);
      assert "" + Digits(n) == Digits(n);
      ReadsBack("", Digits(n), n, d);
    }
  }

  /** A 32-bit integer written in decimal under any key that set and get agree
      on is read back. */
  lemma SetThenGetInt(pl: Platform, env: Environ, key: string, outOfMemory: bool, n: int, d: int)
    requires -0x8000_0000 <= n < 0x8000_0000
    requires !ReadOnlyId(key) && AfterSet(env, key, Some(Decimal(n)), outOfMemory).1 == 0
    ensures GetInt(pl, AfterSet(env, key, Some(Decimal(n)), outOfMemory).0, Some(key), d) == n
  {
    GetAfterSet(pl, env, key, Some(Decimal(n)), outOfMemory);
    DecimalReadsBack(n, d);
  }
}
