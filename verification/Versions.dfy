/**
  Comparing versions (internal/jars/jars.go, CompareVersionTokens), and the pattern of the versions that
  count as releases (internal/servers/update_checker.go).
 */
module Versions {
  import opened Options
  import opened Bytes

  const LATEST: GoString := [108, 97, 116, 101, 115, 116]
  const CUSTOM: GoString := [99, 117, 115, 116, 111, 109]
  const DOT: byte := 46
  const DASH: byte := 45

  predicate IsSeparator(c: byte) {
    c == DOT || c == DASH
  }

  function Piece(current: GoString): seq<GoString> {
    if current == [] then [] else [current]
  }

  /** strings.FieldsFunc on '.' and '-': the runs between separators, `current` being the one begun. */
  function FieldsFrom(s: GoString, current: GoString): seq<GoString> {
    if s == [] then Piece(current)
    else if IsSeparator(s[0]) then Piece(current) + FieldsFrom(s[1..], [])
    else FieldsFrom(s[1..], current + [s[0]])
  }

  function Fields(s: GoString): seq<GoString> {
    FieldsFrom(s, [])
  }

  /** Go's < on strings. */
  predicate Less(a: GoString, b: GoString) {
    if b == [] then false
    else if a == [] then true
    else if a[0] != b[0] then a[0] < b[0]
    else Less(a[1..], b[1..])
  }

  function CompareInts(a: int, b: int): int {
    if a > b then 1 else if a < b then -1 else 0
  }

  /** One segment against another: as 64-bit integers when both are, otherwise as text. */
  function CompareSegment(a: GoString, b: GoString): int {
    if a == b then 0
    else
      var x, y := ParseInt(a, 8), ParseInt(b, 8);
      if x.Some? && y.Some? then CompareInts(x.value, y.value)
      else if Less(b, a) then 1 else -1
  }

  /** The loop over segments: the first difference decides, and a longer version beats its own prefix. */
  function CompareSegments(a: seq<GoString>, b: seq<GoString>): int {
    if a == [] then if b == [] then 0 else -1
    else if b == [] then 1
    else if CompareSegment(a[0], b[0]) != 0 then CompareSegment(a[0], b[0])
    else CompareSegments(a[1..], b[1..])
  }

  function CompareSpec(a: GoString, b: GoString): int {
    if a == b then 0
    else if a == LATEST then 1
    else if b == LATEST then -1
    else
      var x, y := ParseInt(a, 8), ParseInt(b, 8);
      if x.Some? && y.Some? then CompareInts(x.value, y.value)
      else CompareSegments(Fields(a), Fields(b))
  }

  method CompareVersionTokens(a: GoString, b: GoString) returns (r: int)
    ensures r == CompareSpec(a, b)
  {
    hide ParseInt, FieldsFrom, Less;
    if a == b {
      return 0;
    }
    if a == LATEST {
      return 1;
    }
    if b == LATEST {
      return -1;
    }
    var x, y := ParseInt(a, 8), ParseInt(b, 8);
    if x.Some? && y.Some? {
      return CompareInts(x.value, y.value);
    }
    var left, right := Fields(a), Fields(b);
    var i := 0;
    assert left[0..] == left && right[0..] == right;
    while i < |left| || i < |right|
      invariant i <= |left| && i <= |right|
      invariant CompareSegments(left, right) == CompareSegments(left[i..], right[i..])
      decreases |left| + |right| - i
    {
      if i >= |left| {
        return -1;
      }
      if i >= |right| {
        return 1;
      }
      assert left[i..][1..] == left[i + 1..] && right[i..][1..] == right[i + 1..];
      if left[i] != right[i] {
        var m, n := ParseInt(left[i], 8), ParseInt(right[i], 8);
        if m.Some? && n.Some? {
          if m.value > n.value {
            return 1;
          }
          if m.value < n.value {
            return -1;
          }
        } else if Less(right[i], left[i]) {
          return 1;
        } else {
          return -1;
        }
      }
      i := i + 1;
    }
    return 0;
  }

  // ---- dotted numbers ----------------------------------------------------------------------------------

  /** ^\d+(?:\.\d+)+$ : digits and dots, a dot somewhere, and every dot between two digits. */
  predicate Stable(s: GoString) {
    && s != []
    && (forall i :: 0 <= i < |s| ==> IsDigit(s[i]) || s[i] == DOT)
    && (forall i :: 0 <= i < |s| && s[i] == DOT ==> 0 < i < |s| - 1 && IsDigit(s[i - 1]) && IsDigit(s[i + 1]))
    && DOT in s
  }

  predicate AllDigits(s: GoString) {
    forall i :: 0 <= i < |s| ==> IsDigit(s[i])
  }

  function Value(s: GoString): nat {
    var v := DigitsValue(s);
    if v.Some? then v.value else 0
  }

  function Numbers(segments: seq<GoString>): seq<nat> {
    if segments == [] then [] else [Value(segments[0])] + Numbers(segments[1..])
  }

  /** Every component fits in a signed 64-bit integer. */
  predicate InRange(s: GoString) {
    forall i :: 0 <= i < |Fields(s)| ==> Value(Fields(s)[i]) < 0x8000_0000_0000_0000
  }

  predicate Known(s: GoString) {
    Stable(s) && InRange(s)
  }

  /** Lexicographic order on number sequences, a proper prefix being smaller. */
  function CompareNumbers(a: seq<nat>, b: seq<nat>): int {
    if a == [] then if b == [] then 0 else -1
    else if b == [] then 1
    else if a[0] != b[0] then CompareInts(a[0], b[0])
    else CompareNumbers(a[1..], b[1..])
  }

  lemma {:induction false} DigitsHaveValue(s: GoString)
    ensures DigitsValue(s).Some? <==> AllDigits(s)
  {
    if s != [] {
      DigitsHaveValue(s[..|s| - 1]);
      assert s == s[..|s| - 1] + [s[|s| - 1]];
    }
  }

  lemma {:induction false} FieldsAreDigits(s: GoString, current: GoString)
    requires AllDigits(current) && forall i :: 0 <= i < |s| ==> IsDigit(s[i]) || s[i] == DOT
    ensures forall i :: 0 <= i < |FieldsFrom(s, current)| ==>
      FieldsFrom(s, current)[i] != [] && AllDigits(FieldsFrom(s, current)[i])
  {
    if s != [] {
      FieldsAreDigits(s[1..], if IsSeparator(s[0]) then [] else current + [s[0]]);
    }
  }

  lemma DigitsParse(s: GoString)
    requires s != [] && AllDigits(s) && Value(s) < 0x8000_0000_0000_0000
    ensures ParseInt(s, 8) == Some(Value(s))
  {
    DigitsHaveValue(s);
    assert !IsDigit(MINUS) && !IsDigit(PLUS) && IsDigit(s[0]);
    assert Pow256(4) == 0x1_0000_0000;
    assert Pow256(7) == 0x100_0000_0000_0000;
  }

  lemma StableIsNotAnInteger(s: GoString)
    requires Stable(s)
    ensures ParseInt(s, 8) == None
  {
    DigitsHaveValue(s);
    assert IsDigit(s[0]);
    var i :| 0 <= i < |s| && s[i] == DOT;
    assert !IsDigit(s[i]);
  }

  ghost predicate Parses(segments: seq<GoString>) {
    forall i :: 0 <= i < |segments| ==> ParseInt(segments[i], 8) == Some(Value(segments[i]))
  }

  lemma {:induction false} SegmentsAreNumbers(a: seq<GoString>, b: seq<GoString>)
    requires Parses(a) && Parses(b)
    ensures CompareSegments(a, b) == CompareNumbers(Numbers(a), Numbers(b))
  {
    hide ParseInt, DigitsValue, Value;
    if a != [] && b != [] {
      SegmentsAreNumbers(a[1..], b[1..]);
      assert Numbers(a)[1..] == Numbers(a[1..]) && Numbers(b)[1..] == Numbers(b[1..]);
    }
  }

  lemma KnownParses(s: GoString)
    requires Known(s)
    ensures Parses(Fields(s))
  {
    hide FieldsFrom, ParseInt, DigitsValue;
    FieldsAreDigits(s, []);
    forall i | 0 <= i < |Fields(s)| ensures ParseInt(Fields(s)[i], 8) == Some(Value(Fields(s)[i])) {
      DigitsParse(Fields(s)[i]);
    }
  }

  /** On dotted numbers whose components fit in 64 bits, the comparison is the comparison of the
      number sequences: text order never gets a say. */
  lemma CompareIsNumeric(a: GoString, b: GoString)
    requires Known(a) && Known(b)
    ensures CompareSpec(a, b) == CompareNumbers(Numbers(Fields(a)), Numbers(Fields(b)))
  {
    hide FieldsFrom, ParseInt, DigitsValue, Value, InRange;
    StableIsNotAnInteger(a);
    StableIsNotAnInteger(b);
    KnownParses(a);
    KnownParses(b);
    SegmentsAreNumbers(Fields(a), Fields(b));
    assert !IsDigit(LATEST[0]) && LATEST[0] != DOT;
    if a == b {
      NumbersReflexive(Numbers(Fields(a)));
    }
  }

  lemma {:induction false} NumbersReflexive(a: seq<nat>)
    ensures CompareNumbers(a, a) == 0
  {
    if a != [] {
      NumbersReflexive(a[1..]);
    }
  }

  lemma {:induction false} NumbersSymmetric(a: seq<nat>, b: seq<nat>)
    ensures CompareNumbers(a, b) == -CompareNumbers(b, a)
  {
    if a != [] && b != [] {
      NumbersSymmetric(a[1..], b[1..]);
    }
  }

  lemma {:induction false} NumbersTransitive(a: seq<nat>, b: seq<nat>, c: seq<nat>)
    requires CompareNumbers(a, b) <= 0 && CompareNumbers(b, c) <= 0
    ensures CompareNumbers(a, c) <= 0
    ensures CompareNumbers(a, c) == 0 ==> CompareNumbers(a, b) == 0 && CompareNumbers(b, c) == 0
  {
    if a != [] && b != [] && c != [] && a[0] == b[0] && b[0] == c[0] {
      NumbersTransitive(a[1..], b[1..], c[1..]);
    }
  }

  /** A total preorder: versions compare both ways consistently, and transitively. */
  lemma CompareIsTotalPreorder(a: GoString, b: GoString, c: GoString)
    requires Known(a) && Known(b) && Known(c)
    ensures CompareSpec(a, b) == -CompareSpec(b, a)
    ensures CompareSpec(a, b) <= 0 && CompareSpec(b, c) <= 0 ==> CompareSpec(a, c) <= 0
    ensures CompareSpec(a, b) == 0 && CompareSpec(b, c) == 0 ==> CompareSpec(a, c) == 0
  {
    hide CompareSpec, Known, Fields, CompareNumbers, Numbers;
    CompareIsNumeric(a, b);
    CompareIsNumeric(b, a);
    CompareIsNumeric(b, c);
    CompareIsNumeric(c, b);
    CompareIsNumeric(a, c);
    CompareIsNumeric(c, a);
    var x, y, z := Numbers(Fields(a)), Numbers(Fields(b)), Numbers(Fields(c));
    NumbersSymmetric(x, y);
    NumbersSymmetric(y, z);
    NumbersSymmetric(x, z);
    if CompareNumbers(x, y) <= 0 && CompareNumbers(y, z) <= 0 {
      NumbersTransitive(x, y, z);
    }
    if CompareNumbers(x, y) == 0 && CompareNumbers(y, z) == 0 {
      NumbersTransitive(z, y, x);
    }
  }

  /** Outside that domain it is not an order: "9" < "10" < "1a" < "9". */
  lemma MixedTokensCycle()
    ensures var nine, ten, mixed := [57], [49, 48], [49, 97];
      CompareSpec(nine, ten) < 0 && CompareSpec(ten, mixed) < 0 && CompareSpec(mixed, nine) < 0
      && CompareSpec(ten, nine) > 0 && CompareSpec(mixed, ten) > 0 && CompareSpec(nine, mixed) > 0
  {
    hide DigitsValue, Less, FieldsFrom, CompareSpec;
    var nine: GoString, ten: GoString, mixed: GoString := [57], [49, 48], [49, 97];
    CycleLiterals();
    IntegersDecide(nine, ten, 9, 10);
    TextDecides(ten, mixed);
    TextDecides(mixed, nine);
  }

  lemma CycleLiterals()
    ensures var nine, ten, mixed := [57], [49, 48], [49, 97];
      ParseInt(nine, 8) == Some(9) && ParseInt(ten, 8) == Some(10) && ParseInt(mixed, 8) == None
      && Less(ten, mixed) && Less(mixed, nine)
  {
    var nine: GoString, ten: GoString, mixed: GoString := [57], [49, 48], [49, 97];
    var one: GoString := [49];
    assert nine[..0] == [] && one[..0] == [] && ten[..1] == one && mixed[..1] == one;
    assert DigitsValue(one) == Some(1);
    assert ten[1..] == [48] && mixed[1..] == [97];
  }

  /** Two tokens without separators, not both numbers, are compared as text. */
  lemma IntegersDecide(a: GoString, b: GoString, x: int, y: int)
    requires ParseInt(a, 8) == Some(x) && ParseInt(b, 8) == Some(y) && x < y && a != LATEST && b != LATEST
    ensures CompareSpec(a, b) == -1 && CompareSpec(b, a) == 1
  {
    hide ParseInt, FieldsFrom, CompareSegments;
  }

  lemma TextDecides(a: GoString, b: GoString)
    requires Less(a, b) && a != LATEST && b != LATEST && (ParseInt(a, 8).None? || ParseInt(b, 8).None?)
    requires a != [] && b != []
    requires (forall i :: 0 <= i < |a| ==> !IsSeparator(a[i])) && (forall i :: 0 <= i < |b| ==> !IsSeparator(b[i]))
    ensures CompareSpec(a, b) == -1 && CompareSpec(b, a) == 1
  {
    hide ParseInt, FieldsFrom, Less;
    FieldsOfOne(a, []);
    FieldsOfOne(b, []);
    assert [] + a == a && [] + b == b;
    OneSegment(a, b);
    OneSegment(b, a);
    NotBoth(a, b);
    NotBoth(a, a);
  }

  lemma {:induction false} NotBoth(a: GoString, b: GoString)
    ensures !(Less(a, b) && Less(b, a))
  {
    if a != [] && b != [] {
      NotBoth(a[1..], b[1..]);
    }
  }

  lemma {:induction false} FieldsOfOne(s: GoString, current: GoString)
    requires forall i :: 0 <= i < |s| ==> !IsSeparator(s[i])
    ensures FieldsFrom(s, current) == Piece(current + s)
    ensures forall rest :: FieldsFrom(s + [DOT] + rest, current) == Piece(current + s) + Fields(rest)
  {
    if s == [] {
      assert current + s == current;
      forall rest ensures FieldsFrom(s + [DOT] + rest, current) == Piece(current + s) + Fields(rest) {
        assert (s + [DOT] + rest)[1..] == rest;
      }
    } else {
      FieldsOfOne(s[1..], current + [s[0]]);
      assert current + [s[0]] + s[1..] == current + s;
      forall rest ensures FieldsFrom(s + [DOT] + rest, current) == Piece(current + s) + Fields(rest) {
        assert (s + [DOT] + rest)[1..] == s[1..] + [DOT] + rest;
      }
    }
  }

  /** A version of two number components. */
  lemma TwoComponents(x: GoString, y: GoString)
    requires x != [] && y != [] && AllDigits(x) && AllDigits(y)
    ensures Stable(x + [DOT] + y) && Fields(x + [DOT] + y) == [x, y]
  {
    var s := x + [DOT] + y;
    FieldsOfOne(x, []);
    FieldsOfOne(y, []);
    assert [] + x == x && [] + y == y;
    assert s[|x|] == DOT;
  }

  function PowerOfTen(n: nat): nat {
    if n == 0 then 1 else 10 * PowerOfTen(n - 1)
  }

  lemma {:induction false} LongNumbersAreLarge(s: GoString)
    requires s != [] && AllDigits(s) && s[0] != ZERO
    ensures Value(s) >= PowerOfTen(|s| - 1)
  {
    DigitsHaveValue(s);
    if |s| > 1 {
      DigitsHaveValue(s[..|s| - 1]);
      LongNumbersAreLarge(s[..|s| - 1]);
    }
  }

  /** Nor is it one on release versions with a component beyond 64 bits, which falls back to text:
      "1.2" < "1.10" < "1.10000000000000000000" < "1.2". */
  lemma HugeComponentsCycle(huge: GoString)
    requires |huge| == 20 && huge[0] == 49 && huge[1] == ZERO && AllDigits(huge)
    ensures var two, ten, big := [49] + [DOT] + [50], [49] + [DOT] + [49, 48], [49] + [DOT] + huge;
      Stable(two) && Stable(ten) && Stable(big)
      && CompareSpec(two, ten) < 0 && CompareSpec(ten, big) < 0 && CompareSpec(big, two) < 0
      && CompareSpec(ten, two) > 0 && CompareSpec(big, ten) > 0 && CompareSpec(two, big) > 0
  {
    var one: GoString, a: GoString, b: GoString := [49], [50], [49, 48];
    var two, ten, big := one + [DOT] + a, one + [DOT] + b, one + [DOT] + huge;
    TwoComponents(one, a);
    TwoComponents(one, b);
    TwoComponents(one, huge);
    StableIsNotAnInteger(two);
    StableIsNotAnInteger(ten);
    StableIsNotAnInteger(big);
    assert two[0] != LATEST[0] && ten[0] != LATEST[0] && big[0] != LATEST[0];
    HugeLiterals(huge);
    NotBoth(b, huge);
    NotBoth(huge, a);
    SecondDecides(one, a, b);
    SecondDecides(one, b, huge);
    SecondDecides(one, huge, a);
    SecondDecides(one, b, a);
    SecondDecides(one, huge, b);
    SecondDecides(one, a, huge);
  }

  lemma HugeLiterals(huge: GoString)
    requires |huge| == 20 && huge[0] == 49 && huge[1] == ZERO && AllDigits(huge)
    ensures ParseInt([50], 8) == Some(2) && ParseInt([49, 48], 8) == Some(10) && ParseInt(huge, 8) == None
    ensures Less([49, 48], huge) && Less(huge, [50])
  {
    var one: GoString, a: GoString, b: GoString := [49], [50], [49, 48];
    assert a[..0] == [] && one[..0] == [] && b[..1] == one && DigitsValue(one) == Some(1);
    HugeIsNotAnInteger(huge);
    assert b[1..][0] == huge[1..][0] && b[1..][1..] == [];
  }

  lemma HugeIsNotAnInteger(huge: GoString)
    requires |huge| == 20 && huge[0] == 49 && AllDigits(huge)
    ensures ParseInt(huge, 8) == None
  {
    hide DigitsValue;
    LongNumbersAreLarge(huge);
    DigitsHaveValue(huge);
    assert PowerOfTen(19) == 10_000_000_000_000_000_000 by { TenToTheNineteen(); }
    assert !IsDigit(MINUS) && !IsDigit(PLUS) && IsDigit(huge[0]);
    assert Pow256(4) == 0x1_0000_0000;
    assert Pow256(7) == 0x100_0000_0000_0000;
  }

  lemma TenToTheNineteen()
    ensures PowerOfTen(19) == 10_000_000_000_000_000_000
  {
    assert PowerOfTen(5) == 100_000;
    assert PowerOfTen(10) == 10_000_000_000;
    assert PowerOfTen(15) == 1_000_000_000_000_000;
  }

  lemma OneSegment(y: GoString, z: GoString)
    ensures CompareSegments([y], [z]) == CompareSegment(y, z)
  {
    hide CompareSegment;
    var nothing: seq<GoString> := [];
    assert [y][1..] == nothing && [z][1..] == nothing;
    assert CompareSegments(nothing, nothing) == 0;
  }

  lemma SecondDecides(x: GoString, y: GoString, z: GoString)
    ensures CompareSegments([x, y], [x, z]) == CompareSegment(y, z)
  {
    hide CompareSegment;
    SameSegment(x);
    OneSegment(y, z);
    assert [x, y][1..] == [y] && [x, z][1..] == [z];
  }

  lemma SameSegment(x: GoString)
    ensures CompareSegment(x, x) == 0
  {
  }
}
