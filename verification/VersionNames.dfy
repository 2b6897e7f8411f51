/**
  What the version comparison reads in a name (internal/jars/jars.go, CompareVersionTokens) and which names
  are releases (internal/servers/update_checker.go), said without scanning: names as joined parts, text
  order as a first difference.
 */
module VersionNames {
  import opened Options
  import opened Bytes
  import opened Versions

  /** Parts joined by separators, one before each part but the first. */
  function Join(parts: seq<GoString>, separators: seq<byte>): GoString
    requires |parts| == |separators| + 1
  {
    if separators == [] then parts[0]
    else parts[0] + [separators[0]] + Join(parts[1..], separators[1..])
  }

  predicate Separators(separators: seq<byte>) {
    forall i :: 0 <= i < |separators| ==> separators[i] == 46 || separators[i] == 45
  }

  /** A part: at least one byte, none of them a dot or a dash. */
  predicate IsPart(s: GoString) {
    s != [] && forall i :: 0 <= i < |s| ==> s[i] != 46 && s[i] != 45
  }

  predicate AreParts(parts: seq<GoString>) {
    forall i :: 0 <= i < |parts| ==> IsPart(parts[i])
  }

  predicate IsNumber(s: GoString) {
    s != [] && forall i :: 0 <= i < |s| ==> 48 <= s[i] <= 57
  }

  predicate AreNumbers(parts: seq<GoString>) {
    forall i :: 0 <= i < |parts| ==> IsNumber(parts[i])
  }

  lemma {:induction false} FieldsOfPart(part: GoString, current: GoString, separator: byte, rest: GoString)
    requires forall i :: 0 <= i < |part| ==> part[i] != 46 && part[i] != 45
    requires separator == 46 || separator == 45
    ensures FieldsFrom(part, current) == Piece(current + part)
    ensures FieldsFrom(part + [separator] + rest, current) == Piece(current + part) + Fields(rest)
    decreases |part|
  {
    var s := part + [separator] + rest;
    if part == [] {
      assert current + part == current && s[1..] == rest;
    } else {
      FieldsOfPart(part[1..], current + [part[0]], separator, rest);
      assert current + [part[0]] + part[1..] == current + part;
      assert s[1..] == part[1..] + [separator] + rest;
    }
  }

  /** The segments of joined parts are the parts, whichever separators join them. */
  lemma {:induction false} FieldsOfJoin(parts: seq<GoString>, separators: seq<byte>)
    requires |parts| == |separators| + 1 && AreParts(parts) && Separators(separators)
    ensures Fields(Join(parts, separators)) == parts
    decreases |separators|
  {
    assert IsPart(parts[0]) && [] + parts[0] == parts[0];
    if separators == [] {
      FieldsOfPart(parts[0], [], 46, []);
    } else {
      FieldsOfJoin(parts[1..], separators[1..]);
      FieldsOfPart(parts[0], [], separators[0], Join(parts[1..], separators[1..]));
    }
  }

  /** A separator at either end, and one after another, makes no segment. */
  lemma EmptySegmentsVanish(s: GoString, separator: byte)
    requires separator == 46 || separator == 45
    ensures Fields([separator] + s) == Fields(s)
  {
    assert ([separator] + s)[1..] == s;
  }

  /** Numbers joined by dots. */
  function Dotted(numbers: seq<GoString>): GoString
    requires numbers != []
  {
    if |numbers| == 1 then numbers[0] else numbers[0] + ([46] + Dotted(numbers[1..]))
  }

  lemma DottedOfMore(number: GoString, more: seq<GoString>)
    requires more != []
    ensures Dotted([number] + more) == number + ([46] + Dotted(more))
  {
    assert ([number] + more)[1..] == more;
  }

  /** The pattern at one place: a digit, or a dot between two digits. */
  predicate FitsAt(s: GoString, i: int)
    requires 0 <= i < |s|
  {
    IsDigit(s[i]) || (s[i] == DOT && 0 < i < |s| - 1 && IsDigit(s[i - 1]) && IsDigit(s[i + 1]))
  }

  predicate FitsPattern(s: GoString) {
    s != [] && forall i :: 0 <= i < |s| ==> FitsAt(s, i)
  }

  lemma StableFits(s: GoString)
    ensures Stable(s) <==> FitsPattern(s) && DOT in s
  {
    if FitsPattern(s) && DOT in s {
      forall i | 0 <= i < |s|
        ensures IsDigit(s[i]) || s[i] == DOT
      {
        assert FitsAt(s, i);
      }
      forall i | 0 <= i < |s| && s[i] == DOT
        ensures 0 < i < |s| - 1 && IsDigit(s[i - 1]) && IsDigit(s[i + 1])
      {
        assert FitsAt(s, i);
      }
    }
  }

  /** A number, a dot and something that fits, fit; and so does a number alone. */
  lemma NumberFits(number: GoString, rest: GoString)
    requires IsNumber(number)
    ensures FitsPattern(number) && DOT !in number
    ensures FitsPattern(rest) ==> FitsPattern(number + ([46] + rest)) && DOT in number + ([46] + rest)
  {
    var s, n := number + ([46] + rest), |number|;
    if FitsPattern(rest) {
      assert FitsAt(rest, 0) && s[n] == DOT;
      forall i | 0 <= i < |s|
        ensures FitsAt(s, i)
      {
        if i > n {
          assert FitsAt(rest, i - n - 1);
        }
      }
    }
  }

  lemma {:induction false} DottedFits(numbers: seq<GoString>)
    requires numbers != [] && AreNumbers(numbers)
    ensures FitsPattern(Dotted(numbers)) && (DOT in Dotted(numbers) <==> |numbers| >= 2)
    decreases |numbers|
  {
    hide FitsPattern, IsNumber;
    assert IsNumber(numbers[0]);
    if |numbers| == 1 {
      NumberFits(numbers[0], []);
    } else {
      DottedFits(numbers[1..]);
      NumberFits(numbers[0], Dotted(numbers[1..]));
    }
  }

  /** What follows a digit, or a digit and a dot, fits again. */
  lemma RestFits(s: GoString)
    requires FitsPattern(s)
    ensures s != [] && IsDigit(s[0])
    ensures |s| > 1 && s[1] != DOT ==> FitsPattern(s[1..])
    ensures |s| > 1 && s[1] == DOT ==> |s| > 2 && FitsPattern(s[2..])
  {
    assert FitsAt(s, 0);
    if |s| > 1 {
      assert FitsAt(s, 1);
      var k := if s[1] == DOT then 2 else 1;
      var rest := s[k..];
      forall i | 0 <= i < |rest|
        ensures FitsAt(rest, i)
      {
        assert FitsAt(s, i + k);
        assert i == 0 ==> FitsAt(s, k);
      }
    }
  }

  lemma NumberOfMore(c: byte, head: GoString)
    requires IsDigit(c) && (head == [] || IsNumber(head))
    ensures IsNumber([c] + head)
  {
  }

  /** One more digit in front of the first number. */
  lemma LongerHead(c: byte, head: GoString, more: seq<GoString>)
    ensures Dotted([[c] + head] + more) == [c] + Dotted([head] + more)
  {
    if more != [] {
      DottedOfMore([c] + head, more);
      DottedOfMore(head, more);
      Assoc([c], head, [46] + Dotted(more));
    }
  }

  /** The numbers of anything that fits. */
  lemma {:induction false} NumbersIn(s: GoString) returns (numbers: seq<GoString>)
    requires FitsPattern(s)
    ensures numbers != [] && AreNumbers(numbers) && s == Dotted(numbers)
    decreases |s|
  {
    hide FitsPattern, Dotted, IsNumber;
    RestFits(s);
    NumberOfMore(s[0], []);
    assert [s[0]] + [] == [s[0]];
    if |s| == 1 {
      numbers := [s];
      assert s == [s[0]];
      DottedOfOne(s);
    } else if s[1] == DOT {
      var more := NumbersIn(s[2..]);
      numbers := [[s[0]]] + more;
      DottedOfMore([s[0]], more);
      assert s == [s[0]] + ([46] + s[2..]);
    } else {
      var more := NumbersIn(s[1..]);
      var head, tail := more[0], more[1..];
      assert IsNumber(head) && more == [head] + tail;
      numbers := [[s[0]] + head] + tail;
      NumberOfMore(s[0], head);
      LongerHead(s[0], head, tail);
      assert s == [s[0]] + s[1..];
    }
  }

  lemma DottedOfOne(s: GoString)
    ensures Dotted([s]) == s
  {
  }

  /** The names that count as releases are exactly two or more numbers joined by dots. */
  lemma StableIff(s: GoString)
    ensures Stable(s) <==>
      exists numbers: seq<GoString> :: |numbers| >= 2 && AreNumbers(numbers) && s == Dotted(numbers)
  {
    hide Stable, FitsPattern, Dotted, IsNumber;
    StableFits(s);
    if Stable(s) {
      var numbers := NumbersIn(s);
      DottedFits(numbers);
    }
    forall numbers: seq<GoString> | |numbers| >= 2 && AreNumbers(numbers) && s == Dotted(numbers)
      ensures Stable(s)
    {
      DottedFits(numbers);
    }
  }

  // ---- the order of two names -------------------------------------------------------------------------------

  lemma SameHeads(a: GoString, b: GoString, k: nat)
    requires 0 < k <= |a| && k <= |b| && a[..k] == b[..k]
    ensures a[0] == b[0]
  {
    assert a[..k][0] == b[..k][0];
  }

  /** Text order: a proper beginning comes first, and otherwise the first byte that differs decides. */
  lemma {:induction false} LessMeans(a: GoString, b: GoString)
    ensures Less(a, b) <==>
      exists k :: 0 <= k <= |a| && k < |b| && a[..k] == b[..k] && (k == |a| || a[k] < b[k])
    decreases |a|
  {
    if a != [] && b != [] && a[0] == b[0] {
      LessMeans(a[1..], b[1..]);
      if Less(a, b) {
        var k :| 0 <= k <= |a[1..]| && k < |b[1..]| && a[1..][..k] == b[1..][..k]
          && (k == |a[1..]| || a[1..][k] < b[1..][k]);
        assert a[..k + 1] == [a[0]] + a[1..][..k] && b[..k + 1] == [b[0]] + b[1..][..k];
      }
      if k :| 0 <= k <= |a| && k < |b| && a[..k] == b[..k] && (k == |a| || a[k] < b[k]) {
        assert k > 0;
        assert a[1..][..k - 1] == a[..k][1..] && b[1..][..k - 1] == b[..k][1..];
        assert k - 1 == |a[1..]| || a[1..][k - 1] < b[1..][k - 1];
      }
    } else if a != [] && b != [] {
      if a[0] < b[0] {
        assert a[..0] == b[..0];
      }
      if k :| 0 <= k <= |a| && k < |b| && a[..k] == b[..k] && (k == |a| || a[k] < b[k]) {
        if k > 0 {
          SameHeads(a, b, k);
        }
      }
    } else if b != [] {
      assert a[..0] == b[..0];
    }
  }

  /** Numbers are compared as numbers, whatever their spelling, and anything else as text. */
  lemma SegmentMeans(a: GoString, b: GoString)
    ensures var x, y := ParseInt(a, 8), ParseInt(b, 8);
            if x.Some? && y.Some?
            then (CompareSegment(a, b) > 0 <==> x.value > y.value) && (CompareSegment(a, b) < 0 <==> x.value < y.value)
            else (CompareSegment(a, b) < 0 <==> Less(a, b)) && (CompareSegment(a, b) > 0 <==> Less(b, a))
  {
    hide ParseInt;
    TextOrder(a, b);
  }

  lemma {:induction false} TextOrder(a: GoString, b: GoString)
    ensures a == b || Less(a, b) || Less(b, a)
    ensures !(Less(a, b) && Less(b, a)) && !Less(a, a)
    decreases |a|
  {
    if a != [] {
      TextOrder(a[1..], if b == [] then [] else b[1..]);
      assert b != [] && a[0] == b[0] && a[1..] == b[1..] ==> a == [a[0]] + a[1..] == b;
    }
  }

  /** "latest" is newer than every other name, and nothing else is newer than every name but itself: two
      names that are single integers compare as those, and any others by the first segment in which they
      differ in order, a longer name being newer than its own beginning. */
  lemma LatestIsNewest(v: GoString)
    requires v != [108, 97, 116, 101, 115, 116]
    ensures CompareSpec([108, 97, 116, 101, 115, 116], v) == 1 && CompareSpec(v, [108, 97, 116, 101, 115, 116]) == -1
  {
  }

  /** The segments before the first that differs in order do not matter. */
  lemma {:induction false} FirstDifferenceDecides(a: seq<GoString>, b: seq<GoString>, k: nat)
    requires k <= |a| && k <= |b| && forall i :: 0 <= i < k ==> CompareSegment(a[i], b[i]) == 0
    ensures k < |a| && k < |b| && CompareSegment(a[k], b[k]) != 0 ==>
              CompareSegments(a, b) == CompareSegment(a[k], b[k])
    ensures k == |a| < |b| ==> CompareSegments(a, b) == -1
    ensures k == |b| < |a| ==> CompareSegments(a, b) == 1
    ensures k == |a| == |b| ==> CompareSegments(a, b) == 0
    decreases k
  {
    hide CompareSegment;
    if k > 0 {
      assert forall i :: 0 <= i < k - 1 ==> a[1..][i] == a[i + 1] && b[1..][i] == b[i + 1];
      FirstDifferenceDecides(a[1..], b[1..], k - 1);
    }
  }
}
