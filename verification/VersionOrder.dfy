/**
  When the version comparison (internal/jars/jars.go, CompareVersionTokens) is an order. It always compares
  both ways consistently; it is transitive on a set of names exactly when no three of them cross: at the
  first place where they differ two are 64-bit integers, the third is not, and as text the third falls
  between the two in the wrong direction.
 */
module VersionOrder {
  import opened Options
  import opened Bytes
  import opened Versions

  // ---- text -----------------------------------------------------------------------------------------------

  lemma {:induction false} LessTransitive(a: GoString, b: GoString, c: GoString)
    requires Less(a, b) && Less(b, c)
    ensures Less(a, c)
  {
    if a != [] && a[0] == b[0] && b[0] == c[0] {
      LessTransitive(a[1..], b[1..], c[1..]);
    }
  }

  lemma {:induction false} LessTotal(a: GoString, b: GoString)
    ensures a == b || Less(a, b) || Less(b, a)
  {
    if a != [] && b != [] && a[0] == b[0] {
      LessTotal(a[1..], b[1..]);
      assert a == [a[0]] + a[1..] && b == [b[0]] + b[1..];
    }
  }

  // ---- tokens ---------------------------------------------------------------------------------------------

  function AsInt(s: GoString): Option<int> {
    ParseInt(s, 8)
  }

  /** Two integers with a token that is none between them as text. */
  predicate Between(x: GoString, y: GoString, z: GoString) {
    AsInt(x).Some? && AsInt(y).Some? && AsInt(z).None? && Less(y, z) && Less(z, x)
  }

  /** And the order of the integers is the other one. */
  predicate TokensCross(x: GoString, y: GoString, z: GoString) {
    Between(x, y, z) && AsInt(x).value <= AsInt(y).value
  }

  lemma SegmentFlips(x: GoString, y: GoString)
    ensures CompareSegment(x, y) == -CompareSegment(y, x)
  {
    hide ParseInt, Less;
    LessTotal(x, y);
    NotBoth(x, y);
  }

  lemma SegmentSame(x: GoString, y: GoString)
    ensures CompareSegment(x, y) == 0 <==> x == y || (AsInt(x).Some? && AsInt(x) == AsInt(y))
  {
    hide ParseInt, Less;
  }

  lemma BetweenDecides(x: GoString, y: GoString, z: GoString)
    requires Between(x, y, z)
    ensures CompareSegment(y, z) < 0 && CompareSegment(z, x) < 0
    ensures CompareSegment(x, y) <= 0 <==> TokensCross(x, y, z)
  {
    hide ParseInt, Less;
    NotBoth(y, z);
    NotBoth(z, x);
  }

  /** Three tokens can only go round in a circle with one of them between the other two. */
  lemma TokensCycle(x: GoString, y: GoString, z: GoString)
    requires CompareSegment(x, y) <= 0 && CompareSegment(y, z) <= 0 && CompareSegment(z, x) <= 0
    requires CompareSegment(x, y) < 0 || CompareSegment(y, z) < 0
    ensures Between(x, y, z) || Between(y, z, x) || Between(z, x, y)
  {
    hide ParseInt, Less;
    TextCycle(x, y, z);
    TextCycle(y, z, x);
    TextCycle(z, x, y);
    LessTotal(x, y);
    LessTotal(y, z);
    LessTotal(z, x);
  }

  lemma TextCycle(x: GoString, y: GoString, z: GoString)
    ensures !(Less(x, y) && Less(y, z) && Less(z, x)) && !(Less(x, y) && Less(y, x)) && !Less(x, x)
  {
    if Less(x, y) && Less(y, z) {
      LessTransitive(x, y, z);
    }
    NotBoth(x, z);
    NotBoth(x, y);
    NotBoth(x, x);
  }

  ghost predicate TransitiveOnTokens(tokens: iset<GoString>) {
    forall a, b, c ::
      a in tokens && b in tokens && c in tokens && CompareSegment(a, b) <= 0 && CompareSegment(b, c) <= 0 ==>
        CompareSegment(a, c) <= 0
  }

  /** The comparison of single tokens is transitive on a set exactly if no three of them cross. */
  lemma TokensTransitiveIff(tokens: iset<GoString>)
    ensures TransitiveOnTokens(tokens)
       <==> forall x, y, z :: x in tokens && y in tokens && z in tokens ==> !TokensCross(x, y, z)
  {
    hide CompareSegment, TokensCross, Between;
    if TransitiveOnTokens(tokens) {
      forall x, y, z | x in tokens && y in tokens && z in tokens ensures !TokensCross(x, y, z) {
        if TokensCross(x, y, z) {
          CrossingTokens(x, y, z);
        }
      }
    }
    if forall x, y, z :: x in tokens && y in tokens && z in tokens ==> !TokensCross(x, y, z) {
      forall a, b, c | a in tokens && b in tokens && c in tokens
                       && CompareSegment(a, b) <= 0 && CompareSegment(b, c) <= 0
        ensures CompareSegment(a, c) <= 0
      {
        IntransitiveTokens(a, b, c);
      }
    }
  }

  lemma CrossingTokens(x: GoString, y: GoString, z: GoString)
    requires TokensCross(x, y, z)
    ensures CompareSegment(x, y) <= 0 && CompareSegment(y, z) <= 0 && CompareSegment(x, z) > 0
  {
    hide CompareSegment, Less;
    BetweenDecides(x, y, z);
    SegmentFlips(x, z);
  }

  lemma IntransitiveTokens(a: GoString, b: GoString, c: GoString)
    requires CompareSegment(a, b) <= 0 && CompareSegment(b, c) <= 0
    requires !TokensCross(a, b, c) && !TokensCross(b, c, a) && !TokensCross(c, a, b)
    ensures CompareSegment(a, c) <= 0
  {
    hide CompareSegment, Between;
    SegmentFlips(a, c);
    if CompareSegment(a, c) > 0 {
      if CompareSegment(a, b) < 0 || CompareSegment(b, c) < 0 {
        TokensCycle(a, b, c);
        if Between(a, b, c) {
          BetweenDecides(a, b, c);
        } else if Between(b, c, a) {
          BetweenDecides(b, c, a);
        } else {
          BetweenDecides(c, a, b);
        }
      } else {
        SegmentSame(a, b);
        SegmentSame(b, c);
        SegmentSame(a, c);
      }
    }
  }

  // ---- names split into tokens ----------------------------------------------------------------------------

  /** Where three names first differ, their tokens are as in `Between`, and the first name is not above the
      second: by those two integers, or if these are equal by what follows. */
  predicate SegmentsCross(x: seq<GoString>, y: seq<GoString>, z: seq<GoString>) {
    x != [] && y != [] && z != []
    && if CompareSegment(x[0], y[0]) == 0 && CompareSegment(y[0], z[0]) == 0
       then SegmentsCross(x[1..], y[1..], z[1..])
       else Between(x[0], y[0], z[0]) && CompareSegments(x, y) <= 0
  }

  /** Three names that go round in a circle. */
  predicate SegmentsCycle(x: seq<GoString>, y: seq<GoString>, z: seq<GoString>) {
    && CompareSegments(x, y) <= 0 && CompareSegments(y, z) <= 0 && CompareSegments(z, x) <= 0
    && (CompareSegments(x, y) < 0 || CompareSegments(y, z) < 0 || CompareSegments(z, x) < 0)
  }

  lemma {:induction false} SegmentsFlip(x: seq<GoString>, y: seq<GoString>)
    ensures CompareSegments(x, y) == -CompareSegments(y, x)
  {
    hide CompareSegment;
    if x != [] && y != [] {
      SegmentFlips(x[0], y[0]);
      SegmentsFlip(x[1..], y[1..]);
    }
  }

  lemma SameTokens(a: GoString, b: GoString, c: GoString)
    requires CompareSegment(a, b) == 0 && CompareSegment(b, c) == 0
    ensures CompareSegment(c, a) == 0
  {
    hide CompareSegment, ParseInt;
    SegmentSame(a, b);
    SegmentSame(b, c);
    SegmentSame(c, a);
  }

  lemma {:induction false} CrossingIsCycle(x: seq<GoString>, y: seq<GoString>, z: seq<GoString>)
    requires SegmentsCross(x, y, z)
    ensures SegmentsCycle(x, y, z)
  {
    hide CompareSegment, Between;
    var a, b, c := x[0], y[0], z[0];
    if CompareSegment(a, b) == 0 && CompareSegment(b, c) == 0 {
      CrossingIsCycle(x[1..], y[1..], z[1..]);
      SameTokens(a, b, c);
    } else {
      BetweenDecides(a, b, c);
    }
  }

  lemma {:induction false} CycleIsCrossing(x: seq<GoString>, y: seq<GoString>, z: seq<GoString>)
    requires SegmentsCycle(x, y, z)
    ensures SegmentsCross(x, y, z) || SegmentsCross(y, z, x) || SegmentsCross(z, x, y)
  {
    hide CompareSegment, Between;
    var a, b, c := x[0], y[0], z[0];
    SegmentFlips(a, b);
    SegmentFlips(b, c);
    SegmentFlips(c, a);
    if CompareSegment(a, b) == 0 && CompareSegment(b, c) == 0 {
      SameTokens(a, b, c);
      SameTokens(b, c, a);
      CycleIsCrossing(x[1..], y[1..], z[1..]);
    } else {
      TokensCycle(a, b, c);
      if CompareSegment(b, c) == 0 && CompareSegment(c, a) == 0 {
        SameTokens(b, c, a);
      }
      if CompareSegment(c, a) == 0 && CompareSegment(a, b) == 0 {
        SameTokens(c, a, b);
      }
    }
  }

  // ---- whole names ------------------------------------------------------------------------------------------

  /** Two names that are integers as a whole are compared as such, which is what comparing their tokens
      does, unless there is a minus sign: the split drops it. */
  predicate BySign(a: GoString, b: GoString) {
    AsInt(a).Some? && AsInt(b).Some? && (a[..1] == [MINUS] || b[..1] == [MINUS])
  }

  /** Three names cross: none is the symbolic one, and either their tokens cross, or the first two are
      integers with a sign, in one order as integers and in the other with the third name between them. */
  predicate Cross(a: GoString, b: GoString, c: GoString) {
    var x, y, z := Fields(a), Fields(b), Fields(c);
    a != LATEST && b != LATEST && c != LATEST
    && if BySign(a, b) then
         AsInt(c).None? && AsInt(a).value <= AsInt(b).value
         && CompareSegments(y, z) <= 0 && CompareSegments(z, x) <= 0
         && (AsInt(a).value < AsInt(b).value || CompareSegments(y, z) < 0 || CompareSegments(z, x) < 0)
       else !BySign(b, c) && !BySign(c, a) && SegmentsCross(x, y, z)
  }

  predicate NamesCycle(a: GoString, b: GoString, c: GoString) {
    && CompareSpec(a, b) <= 0 && CompareSpec(b, c) <= 0 && CompareSpec(c, a) <= 0
    && (CompareSpec(a, b) < 0 || CompareSpec(b, c) < 0 || CompareSpec(c, a) < 0)
  }

  /** For all names whatever: the comparison says the same both ways. */
  lemma CompareFlips(a: GoString, b: GoString)
    ensures CompareSpec(a, b) == -CompareSpec(b, a)
  {
    hide ParseInt, FieldsFrom, CompareSegments;
    SegmentsFlip(Fields(a), Fields(b));
  }

  lemma UnsignedIntegerIsOneToken(a: GoString)
    requires AsInt(a).Some? && a[..1] != [MINUS]
    ensures a != [] && Fields(a) == [a]
  {
    var signed := a[0] == MINUS || a[0] == PLUS;
    DigitsHaveValue(if signed then a[1..] else a);
    assert forall i :: 1 <= i < |a| ==> a[i] == a[1..][i - 1];
    FieldsOfOne(a, []);
    assert [] + a == a;
  }

  lemma CompareIsByTokens(a: GoString, b: GoString)
    requires a != LATEST && b != LATEST && !BySign(a, b)
    ensures CompareSpec(a, b) == CompareSegments(Fields(a), Fields(b))
  {
    hide ParseInt, FieldsFrom, CompareSegments;
    SegmentsFlip(Fields(a), Fields(a));
    if AsInt(a).Some? && AsInt(b).Some? {
      UnsignedIntegerIsOneToken(a);
      UnsignedIntegerIsOneToken(b);
      OneSegment(a, b);
    }
  }

  lemma NoCycleAtLatest(a: GoString, b: GoString, c: GoString)
    requires NamesCycle(a, b, c)
    ensures a != LATEST && b != LATEST && c != LATEST
  {
    hide ParseInt, FieldsFrom, CompareSegments;
  }

  lemma CycleBySign(a: GoString, b: GoString, c: GoString)
    requires NamesCycle(a, b, c) && BySign(a, b)
    ensures Cross(a, b, c)
  {
    hide ParseInt, FieldsFrom, CompareSegments;
    NoCycleAtLatest(a, b, c);
    if AsInt(c).None? {
      CompareIsByTokens(b, c);
      CompareIsByTokens(c, a);
    }
  }

  lemma CycleIsCross(a: GoString, b: GoString, c: GoString)
    requires NamesCycle(a, b, c)
    ensures Cross(a, b, c) || Cross(b, c, a) || Cross(c, a, b)
  {
    hide CompareSpec, BySign, CompareSegments, SegmentsCross, FieldsFrom;
    NoCycleAtLatest(a, b, c);
    if BySign(a, b) {
      CycleBySign(a, b, c);
    } else if BySign(b, c) {
      CycleBySign(b, c, a);
    } else if BySign(c, a) {
      CycleBySign(c, a, b);
    } else {
      CompareIsByTokens(a, b);
      CompareIsByTokens(b, c);
      CompareIsByTokens(c, a);
      CycleIsCrossing(Fields(a), Fields(b), Fields(c));
    }
  }

  lemma CrossIsCycle(a: GoString, b: GoString, c: GoString)
    requires Cross(a, b, c)
    ensures NamesCycle(a, b, c)
  {
    hide ParseInt, CompareSegments, SegmentsCross, FieldsFrom;
    if BySign(a, b) {
      CompareIsByTokens(b, c);
      CompareIsByTokens(c, a);
    } else {
      CompareIsByTokens(a, b);
      CompareIsByTokens(b, c);
      CompareIsByTokens(c, a);
      CrossingIsCycle(Fields(a), Fields(b), Fields(c));
    }
  }

  ghost predicate TransitiveOn(names: iset<GoString>) {
    forall a, b, c :: a in names && b in names && c in names && CompareSpec(a, b) <= 0 && CompareSpec(b, c) <= 0 ==>
      CompareSpec(a, c) <= 0
  }

  ghost predicate NoneCross(names: iset<GoString>) {
    forall a, b, c :: a in names && b in names && c in names ==> !Cross(a, b, c)
  }

  /** The exact condition, for every set of names: the comparison is transitive on it, and so with
      `CompareFlips` a total preorder, if and only if no three of its names cross. */
  lemma TransitiveIff(names: iset<GoString>)
    ensures TransitiveOn(names) <==> NoneCross(names)
  {
    hide CompareSpec, Cross;
    if TransitiveOn(names) {
      forall a, b, c | a in names && b in names && c in names ensures !Cross(a, b, c) {
        if Cross(a, b, c) {
          CrossIsCycle(a, b, c);
          CompareFlips(a, b);
          CompareFlips(b, c);
          CompareFlips(c, a);
        }
      }
    }
    if NoneCross(names) {
      forall a, b, c | a in names && b in names && c in names && CompareSpec(a, b) <= 0 && CompareSpec(b, c) <= 0
        ensures CompareSpec(a, c) <= 0
      {
        CompareFlips(a, c);
        if CompareSpec(a, c) > 0 {
          CycleIsCross(a, b, c);
        }
      }
    }
  }

  // ---- names that never cross, and simple cases ------------------------------------------------------------

  /** Every token is a 64-bit integer, and the name as a whole is not one with a minus sign. */
  predicate Numeric(a: GoString) {
    (forall i :: 0 <= i < |Fields(a)| ==> AsInt(Fields(a)[i]).Some?) && !(AsInt(a).Some? && a[..1] == [MINUS])
  }

  lemma {:induction false} CrossingHasText(x: seq<GoString>, y: seq<GoString>, z: seq<GoString>)
    requires SegmentsCross(x, y, z)
    ensures exists i :: 0 <= i < |z| && AsInt(z[i]).None?
  {
    hide CompareSegment, CompareSegments, ParseInt, Less;
    if CompareSegment(x[0], y[0]) == 0 && CompareSegment(y[0], z[0]) == 0 {
      CrossingHasText(x[1..], y[1..], z[1..]);
      var i :| 0 <= i < |z[1..]| && AsInt(z[1..][i]).None?;
      assert z[i + 1] == z[1..][i];
    } else {
      assert AsInt(z[0]).None?;
    }
  }

  /** Builds and versions made of numbers that fit: on them the comparison is a total preorder. */
  lemma NumericNamesDoNotCross(names: iset<GoString>)
    requires forall a :: a in names ==> Numeric(a)
    ensures NoneCross(names) && TransitiveOn(names)
  {
    hide CompareSegments, SegmentsCross, ParseInt, FieldsFrom, TransitiveOn;
    forall a, b, c | a in names && b in names && c in names ensures !Cross(a, b, c) {
      if SegmentsCross(Fields(a), Fields(b), Fields(c)) {
        CrossingHasText(Fields(a), Fields(b), Fields(c));
      }
    }
    TransitiveIff(names);
  }

  lemma LatestHasText()
    ensures Fields(LATEST) == [LATEST] && AsInt(LATEST).None?
  {
    FieldsOfOne(LATEST, []);
    assert [] + LATEST == LATEST;
    DigitsHaveValue(LATEST);
    assert !IsDigit(LATEST[0]);
  }

  /** And it is the comparison of the numbers, whatever separates them. */
  lemma CompareIsNumbers(a: GoString, b: GoString)
    requires Parses(Fields(a)) && Parses(Fields(b)) && !BySign(a, b)
    ensures CompareSpec(a, b) == CompareNumbers(Numbers(Fields(a)), Numbers(Fields(b)))
  {
    hide FieldsFrom, ParseInt, Value, CompareSpec;
    LatestHasText();
    assert Fields(LATEST)[0] == LATEST && !Parses(Fields(LATEST));
    assert a != LATEST && b != LATEST;
    CompareIsByTokens(a, b);
    SegmentsAreNumbers(Fields(a), Fields(b));
  }

  /** Nor do releases whose components fit. */
  lemma KnownIsNumeric(s: GoString)
    requires Known(s)
    ensures Numeric(s)
  {
    hide FieldsFrom, ParseInt, DigitsValue, InRange;
    KnownParses(s);
    StableIsNotAnInteger(s);
  }

  /** "1.2", "1.10" and a "1.1000…" beyond 64 bits. */
  lemma HugeComponentsCross(huge: GoString)
    requires |huge| == 20 && huge[0] == 49 && huge[1] == ZERO && AllDigits(huge)
    ensures var two, ten, big := [49] + [DOT] + [50], [49] + [DOT] + [49, 48], [49] + [DOT] + huge;
      Stable(two) && Stable(ten) && Stable(big) && Cross(two, ten, big)
  {
    hide ParseInt, FieldsFrom, Less, CompareSegment;
    var one: GoString, a: GoString, b: GoString := [49], [50], [49, 48];
    var two, ten, big := one + [DOT] + a, one + [DOT] + b, one + [DOT] + huge;
    HugeLiterals(huge);
    TwoComponents(one, a);
    TwoComponents(one, b);
    TwoComponents(one, huge);
    StableIsNotAnInteger(two);
    StableIsNotAnInteger(ten);
    assert two[0] != LATEST[0] && ten[0] != LATEST[0] && big[0] != LATEST[0];
    SameSegment(one);
    OneSegment(a, b);
    BetweenDecides(a, b, huge);
    assert [one, a][1..] == [a] && [one, b][1..] == [b] && [one, huge][1..] == [huge];
    assert SegmentsCross([a], [b], [huge]);
  }

  predicate OneToken(a: GoString) {
    a != [] && forall i :: 0 <= i < |a| ==> !IsSeparator(a[i])
  }

  /** Names without separators cross exactly as tokens do. */
  lemma OneTokensCross(a: GoString, b: GoString, c: GoString)
    requires OneToken(a) && OneToken(b) && OneToken(c) && a != LATEST && b != LATEST && c != LATEST
    ensures Cross(a, b, c) <==> TokensCross(a, b, c)
  {
    hide ParseInt, FieldsFrom, CompareSegment;
    FieldsOfOne(a, []);
    FieldsOfOne(b, []);
    FieldsOfOne(c, []);
    assert [] + a == a && [] + b == b && [] + c == c;
    assert a[..1] == [a[0]] && b[..1] == [b[0]] && c[..1] == [c[0]] && IsSeparator(MINUS);
    OneSegment(a, b);
    var nothing: seq<GoString> := [];
    assert [a][1..] == nothing;
    assert !SegmentsCross(nothing, [b][1..], [c][1..]);
    if Between(a, b, c) {
      BetweenDecides(a, b, c);
    }
  }
}
