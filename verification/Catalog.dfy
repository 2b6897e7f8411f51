/**
  The catalog of the newest releases seen (internal/servers/software_catalog.go): each observation of a
  list of versions may only move a row forward.
 */
module Catalog {
  import opened Options
  import opened Bytes
  import opened Versions
  import opened VersionNames
  import opened VersionOrder

  datatype Slot = Slot(kind: GoString, version: GoString)

  /** Newest among some of the values, in list order: only a strictly newer one displaces. */
  function NewestOf(values: seq<GoString>, keep: GoString -> bool): GoString {
    if values == [] then []
    else
      var before, v := NewestOf(values[..|values| - 1], keep), values[|values| - 1];
      if !keep(v) then before
      else if before == [] || CompareSpec(v, before) > 0 then v
      else before
  }

  /** newestStable skips empty, symbolic and prerelease names; the pattern is a parameter. */
  function IsBuild(prerelease: GoString -> bool): GoString -> bool {
    v => v != [] && v != LATEST && v != CUSTOM && !prerelease(v)
  }

  /** What a row accepts: releases in the row of game versions, builds in the row of one version. */
  function Accepts(version: GoString, prerelease: GoString -> bool): GoString -> bool {
    if version == [] then Stable else IsBuild(prerelease)
  }

  /** The row's next value; a saved version that is not a release does not count. */
  function Kept(previous: Option<GoString>, version: GoString, latest: GoString): Option<GoString> {
    if latest == [] then previous
    else
      var known := if previous.None? || (version == [] && !Stable(previous.value)) then [] else previous.value;
      if known != [] && CompareSpec(latest, known) <= 0 then previous else Some(latest)
  }

  class Store {
    var rows: map<Slot, GoString>

    function Row(slot: Slot): Option<GoString>
      reads this
    {
      if slot in rows then Some(rows[slot]) else None
    }

    method Newest(values: seq<GoString>, keep: GoString -> bool) returns (latest: GoString)
      ensures latest == NewestOf(values, keep)
    {
      hide CompareSpec;
      latest := [];
      for i := 0 to |values|
        invariant latest == NewestOf(values[..i], keep)
      {
        assert values[..i + 1][..i] == values[..i];
        if !keep(values[i]) {
          continue;
        }
        if latest == [] {
          latest := values[i];
        } else {
          var order := CompareVersionTokens(values[i], latest);
          if order > 0 {
            latest := values[i];
          }
        }
      }
      assert values[..|values|] == values;
    }

    /** rememberSoftwareCatalog: a list of game versions when `version` is empty, otherwise the builds
        of one version. */
    method Remember(kind: GoString, version: GoString, values: seq<GoString>, prerelease: GoString -> bool)
      modifies this
      ensures var slot := Slot(kind, version);
        var latest := NewestOf(values, Accepts(version, prerelease));
        Row(slot) == Kept(old(Row(slot)), version, latest)
        && forall other :: other != slot ==> Row(other) == old(Row(other))
    {
      hide CompareSpec;
      var slot := Slot(kind, version);
      var latest := Newest(values, if version == [] then Stable else IsBuild(prerelease));
      if latest == [] {
        return;
      }
      var previous := if slot in rows then rows[slot] else [];
      if version == [] && !Stable(previous) {
        previous := [];
      }
      if previous != [] {
        var order := CompareVersionTokens(latest, previous);
        if order <= 0 {
          return;
        }
      }
      rows := rows[slot := latest];
    }
  }

  // ---- the running maximum ------------------------------------------------------------------------------

  lemma AcceptedName(version: GoString, prerelease: GoString -> bool, v: GoString)
    requires Accepts(version, prerelease)(v)
    ensures v != [] && v != LATEST
  {
    assert !IsDigit(LATEST[0]) && LATEST[0] != DOT;
  }

  /** What a row accepts: two or more numbers joined by dots in the row of game versions; in the row of one
      version any name but the empty one, "latest", "custom" and prereleases. */
  lemma AcceptedMeans(version: GoString, prerelease: GoString -> bool, v: GoString)
    ensures Accepts(version, prerelease)(v) <==>
      if version == []
      then exists numbers: seq<GoString> :: |numbers| >= 2 && AreNumbers(numbers) && v == Dotted(numbers)
      else v != [] && v != [108, 97, 116, 101, 115, 116] && v != [99, 117, 115, 116, 111, 109] && !prerelease(v)
  {
    StableIff(v);
  }

  lemma {:induction false} NewestIsObserved(values: seq<GoString>, keep: GoString -> bool)
    ensures NewestOf(values, keep) != [] ==> NewestOf(values, keep) in values && keep(NewestOf(values, keep))
  {
    hide CompareSpec;
    if values != [] {
      NewestIsObserved(values[..|values| - 1], keep);
    }
  }

  /** Whatever is observed, in whatever order: the row only ever takes an accepted name from the list that
      is being observed, and only over nothing, over a saved game version that is no release, or over a
      name that it is newer than. */
  lemma RowMovesForward(previous: Option<GoString>, version: GoString, prerelease: GoString -> bool,
                        values: seq<GoString>)
    ensures var next := Kept(previous, version, NewestOf(values, Accepts(version, prerelease)));
            next != previous ==>
              && next.Some? && next.value in values && Accepts(version, prerelease)(next.value)
              && (previous.None? || previous.value == [] || (version == [] && !Stable(previous.value))
                  || CompareSpec(next.value, previous.value) > 0)
  {
    hide CompareSpec, Stable, Accepts;
    NewestIsObserved(values, Accepts(version, prerelease));
  }

  /** A row after a run of observations. */
  function After(start: Option<GoString>, version: GoString, prerelease: GoString -> bool,
                 observations: seq<seq<GoString>>): Option<GoString> {
    if observations == [] then start
    else
      Kept(After(start, version, prerelease, observations[..|observations| - 1]), version,
           NewestOf(observations[|observations| - 1], Accepts(version, prerelease)))
  }

  /** The names in sight: those observed and accepted, and the one stored at the start. */
  ghost predicate Seen(start: Option<GoString>, keep: GoString -> bool, observations: seq<seq<GoString>>, v: GoString) {
    keep(v) && (start == Some(v) || exists i :: 0 <= i < |observations| && v in observations[i])
  }

  ghost function Sight(start: Option<GoString>, keep: GoString -> bool, observations: seq<seq<GoString>>):
    iset<GoString>
  {
    iset v | Seen(start, keep, observations, v)
  }

  /** A row of builds holds a build; in the row of game versions anything else counts as nothing. */
  predicate ValidStart(start: Option<GoString>, version: GoString, prerelease: GoString -> bool) {
    start.Some? && version != [] ==> IsBuild(prerelease)(start.value)
  }

  /** `best` is one of some names, and none of them is newer. */
  ghost predicate IsNewest(best: GoString, names: iset<GoString>) {
    best in names && forall v :: v in names ==> CompareSpec(v, best) <= 0
  }

  /** The row is one of the names in sight and none of them is newer; with none in sight it is as it was. */
  ghost predicate IsMaximum(start: Option<GoString>, version: GoString, prerelease: GoString -> bool,
                            observations: seq<seq<GoString>>) {
    var stored := After(start, version, prerelease, observations);
    var names := Sight(start, Accepts(version, prerelease), observations);
    if exists v :: v in names then stored.Some? && IsNewest(stored.value, names) else stored == start
  }

  lemma {:induction false} NewestOfIsNewest(values: seq<GoString>, keep: GoString -> bool)
    requires TransitiveOn(iset v | v in values && keep(v)) && !keep([])
    ensures var best := NewestOf(values, keep);
      if best == [] then forall v :: v in values ==> !keep(v)
      else IsNewest(best, iset v | v in values && keep(v))
  {
    hide CompareSpec;
    if values != [] {
      var init, v := values[..|values| - 1], values[|values| - 1];
      assert values == init + [v];
      NewestOfIsNewest(init, keep);
      var before, best := NewestOf(init, keep), NewestOf(values, keep);
      CompareFlips(v, v);
      CompareFlips(v, before);
      if keep(v) && before != [] {
        forall u | u in values && keep(u) ensures CompareSpec(u, best) <= 0 {
          if u in init {
            assert CompareSpec(u, before) <= 0;
          }
        }
      }
    }
  }

  /** Where the comparison is transitive on what is in sight, the row is a running maximum. */
  lemma {:induction false} TransitiveIsMaximum(start: Option<GoString>, version: GoString,
                                               prerelease: GoString -> bool, observations: seq<seq<GoString>>)
    requires ValidStart(start, version, prerelease)
    requires TransitiveOn(Sight(start, Accepts(version, prerelease), observations))
    ensures IsMaximum(start, version, prerelease, observations)
    decreases |observations|
  {
    hide CompareSpec, Stable, NewestOf;
    var keep := Accepts(version, prerelease);
    NothingIsNotAccepted(version, prerelease);
    if observations == [] {
      if start.Some? && keep(start.value) {
        assert Seen(start, keep, observations, start.value);
        CompareFlips(start.value, start.value);
      }
    } else {
      var init, values := observations[..|observations| - 1], observations[|observations| - 1];
      SightMore(start, keep, observations);
      TransitiveIsMaximum(start, version, prerelease, init);
      NewestOfIsNewest(values, keep);
      OneMoreObservation(start, version, prerelease, observations);
    }
  }

  lemma NothingIsNotAccepted(version: GoString, prerelease: GoString -> bool)
    ensures !Accepts(version, prerelease)([])
  {
  }

  lemma OneMoreObservation(start: Option<GoString>, version: GoString, prerelease: GoString -> bool,
                           observations: seq<seq<GoString>>)
    requires observations != [] && ValidStart(start, version, prerelease)
    requires TransitiveOn(Sight(start, Accepts(version, prerelease), observations))
    requires IsMaximum(start, version, prerelease, observations[..|observations| - 1])
    requires var values, keep := observations[|observations| - 1], Accepts(version, prerelease);
      var best := NewestOf(values, keep);
      if best == [] then forall v :: v in values ==> !keep(v) else IsNewest(best, iset v | v in values && keep(v))
    ensures IsMaximum(start, version, prerelease, observations)
  {
    hide CompareSpec, Stable, NewestOf;
    var keep := Accepts(version, prerelease);
    var init, values := observations[..|observations| - 1], observations[|observations| - 1];
    SightMore(start, keep, observations);
    var before, after := Sight(start, keep, init), Sight(start, keep, observations);
    var previous, latest := After(start, version, prerelease, init), NewestOf(values, keep);
    var stored := After(start, version, prerelease, observations);
    NothingIsNotAccepted(version, prerelease);
    if latest != [] {
      assert latest in after;
      CompareFlips(latest, latest);
      if exists v :: v in before {
        assert previous.value in before && keep(previous.value);
        CompareFlips(latest, previous.value);
        forall v | v in after ensures CompareSpec(v, stored.value) <= 0 {
          assert v in before ==> CompareSpec(v, previous.value) <= 0;
          assert v !in before ==> CompareSpec(v, latest) <= 0;
        }
      } else {
        assert previous == start;
        NoStartInSight(start, version, prerelease, init);
      }
    } else {
      assert after == before;
    }
  }

  lemma NoStartInSight(start: Option<GoString>, version: GoString, prerelease: GoString -> bool,
                       observations: seq<seq<GoString>>)
    requires ValidStart(start, version, prerelease)
    requires forall v :: v !in Sight(start, Accepts(version, prerelease), observations)
    ensures start.Some? ==> version == [] && !Stable(start.value)
  {
    hide Stable;
    if start.Some? {
      assert start.value !in Sight(start, Accepts(version, prerelease), observations);
    }
  }

  lemma SightMore(start: Option<GoString>, keep: GoString -> bool, observations: seq<seq<GoString>>)
    requires observations != []
    ensures var init, values := observations[..|observations| - 1], observations[|observations| - 1];
      Sight(start, keep, observations) == Sight(start, keep, init) + iset v | v in values && keep(v)
  {
    var init, values := observations[..|observations| - 1], observations[|observations| - 1];
    assert observations == init + [values];
    forall v ensures (exists i :: 0 <= i < |observations| && v in observations[i])
                <==> (exists i :: 0 <= i < |init| && v in init[i]) || v in values {
      if v in values {
        assert v in observations[|observations| - 1];
      }
      if exists i :: 0 <= i < |init| && v in init[i] {
        var i :| 0 <= i < |init| && v in init[i];
        assert v in observations[i];
      }
      if exists i :: 0 <= i < |observations| && v in observations[i] {
        var i :| 0 <= i < |observations| && v in observations[i];
        assert i < |init| ==> v in init[i];
      }
    }
  }

  // ---- exactly when -----------------------------------------------------------------------------------------

  /** Over some names, the row is a running maximum from every start and over every run of observations. */
  ghost predicate AlwaysMaximum(version: GoString, prerelease: GoString -> bool, names: iset<GoString>) {
    forall start: Option<GoString>, observations: seq<seq<GoString>> ::
      ValidStart(start, version, prerelease)
      && Sight(start, Accepts(version, prerelease), observations) <= names ==>
        IsMaximum(start, version, prerelease, observations)
  }

  /** An older response never erases a newer known name from a row, whatever is observed in whatever order,
      exactly if no three of the names cross. For every set of names the row accepts. */
  lemma MaximumIff(version: GoString, prerelease: GoString -> bool, names: iset<GoString>)
    requires forall v :: v in names ==> Accepts(version, prerelease)(v)
    ensures AlwaysMaximum(version, prerelease, names) <==> NoneCross(names)
  {
    hide CompareSpec, Cross, IsMaximum, NoneCross, TransitiveOn;
    TransitiveIff(names);
    if TransitiveOn(names) {
      forall start: Option<GoString>, observations: seq<seq<GoString>>
        | ValidStart(start, version, prerelease) && Sight(start, Accepts(version, prerelease), observations) <= names
        ensures IsMaximum(start, version, prerelease, observations)
      {
        TransitiveOnFewer(names, Sight(start, Accepts(version, prerelease), observations));
        TransitiveIsMaximum(start, version, prerelease, observations);
      }
    } else {
      IntransitiveLoses(version, prerelease, names);
    }
  }

  lemma TransitiveOnFewer(names: iset<GoString>, fewer: iset<GoString>)
    requires TransitiveOn(names) && fewer <= names
    ensures TransitiveOn(fewer)
  {
    hide CompareSpec;
  }

  /** a <= b <= c but c < a: after the lists [c] and [b, a] the row holds c, and a is newer. */
  lemma IntransitiveLoses(version: GoString, prerelease: GoString -> bool, names: iset<GoString>)
    requires forall v :: v in names ==> Accepts(version, prerelease)(v)
    requires !TransitiveOn(names)
    ensures !AlwaysMaximum(version, prerelease, names)
  {
    hide CompareSpec, Stable;
    var a, b, c :| a in names && b in names && c in names
                   && CompareSpec(a, b) <= 0 && CompareSpec(b, c) <= 0 && CompareSpec(a, c) > 0;
    LosesTo(version, prerelease, a, b, c);
    var observations: seq<seq<GoString>> := [[c], [b, a]];
    assert Sight(None, Accepts(version, prerelease), observations) <= names;
    assert !IsMaximum(None, version, prerelease, observations);
  }

  lemma LosesTo(version: GoString, prerelease: GoString -> bool, a: GoString, b: GoString, c: GoString)
    requires var keep := Accepts(version, prerelease); keep(a) && keep(b) && keep(c)
    requires CompareSpec(a, b) <= 0 && CompareSpec(b, c) <= 0 && CompareSpec(a, c) > 0
    ensures After(None, version, prerelease, [[c], [b, a]]) == Some(c)
    ensures Sight(None, Accepts(version, prerelease), [[c], [b, a]]) == iset{a, b, c}
  {
    hide CompareSpec, Stable;
    var keep := Accepts(version, prerelease);
    AcceptedName(version, prerelease, a);
    AcceptedName(version, prerelease, b);
    AcceptedName(version, prerelease, c);
    NewestOfOne(c, keep);
    NewestOfOne(b, keep);
    assert [b, a][..1] == [b];
    assert NewestOf([b, a], keep) == b;
    var observations: seq<seq<GoString>> := [[c], [b, a]];
    var none: seq<seq<GoString>> := [];
    assert observations[..1] == [[c]] && observations[..1][..0] == none;
    assert After(None, version, prerelease, [[c]]) == Some(c);
    forall v ensures v in Sight(None, keep, observations) <==> v in iset{a, b, c} {
      assert c in observations[0] && b in observations[1] && a in observations[1];
    }
  }

  lemma NewestOfOne(v: GoString, keep: GoString -> bool)
    requires keep(v)
    ensures NewestOf([v], keep) == v
  {
    hide CompareSpec;
    assert [v][..0] == [];
  }

  // ---- in particular ----------------------------------------------------------------------------------------

  /** Rows of builds, or of versions, made of numbers that fit in 64 bits are running maxima. */
  lemma NumericRowIsMaximum(start: Option<GoString>, version: GoString, prerelease: GoString -> bool,
                            observations: seq<seq<GoString>>)
    requires ValidStart(start, version, prerelease)
    requires forall v :: Seen(start, Accepts(version, prerelease), observations, v) ==> Numeric(v)
    ensures IsMaximum(start, version, prerelease, observations)
  {
    hide Numeric, IsMaximum, TransitiveOn;
    NumericNamesDoNotCross(Sight(start, Accepts(version, prerelease), observations));
    TransitiveIsMaximum(start, version, prerelease, observations);
  }

  /** The row of game versions is one, if every release in sight has components that fit. */
  lemma CatalogIsRunningMaximum(start: Option<GoString>, prerelease: GoString -> bool,
                                observations: seq<seq<GoString>>)
    requires forall v :: Seen(start, Stable, observations, v) ==> Known(v)
    ensures IsMaximum(start, [], prerelease, observations)
  {
    hide Numeric, IsMaximum, Known, Stable;
    forall v | Seen(start, Stable, observations, v) ensures Numeric(v) {
      KnownIsNumeric(v);
    }
    NumericRowIsMaximum(start, [], prerelease, observations);
  }

  /** A row of builds without separators: exactly if no three of them cross as tokens. */
  lemma BuildMaximumIff(version: GoString, prerelease: GoString -> bool, builds: iset<GoString>)
    requires version != [] && forall v :: v in builds ==> IsBuild(prerelease)(v) && OneToken(v)
    ensures AlwaysMaximum(version, prerelease, builds)
       <==> forall x, y, z :: x in builds && y in builds && z in builds ==> !TokensCross(x, y, z)
  {
    hide AlwaysMaximum, TokensCross, OneToken, Cross;
    MaximumIff(version, prerelease, builds);
    forall x, y, z | x in builds && y in builds && z in builds ensures Cross(x, y, z) <==> TokensCross(x, y, z) {
      AcceptedName(version, prerelease, x);
      AcceptedName(version, prerelease, y);
      AcceptedName(version, prerelease, z);
      OneTokensCross(x, y, z);
    }
  }

  /** The row of game versions: exactly if no three releases cross, which takes one whose component at the
      first difference does not fit in 64 bits. */
  lemma ReleaseMaximumIff(prerelease: GoString -> bool, releases: iset<GoString>)
    requires forall v :: v in releases ==> Stable(v)
    ensures AlwaysMaximum([], prerelease, releases) <==> NoneCross(releases)
    ensures forall a, b, c :: a in releases && b in releases && c in releases && Cross(a, b, c) ==> !InRange(c)
  {
    hide AlwaysMaximum, Cross, Stable, InRange;
    MaximumIff([], prerelease, releases);
    forall a, b, c | a in releases && b in releases && c in releases && Cross(a, b, c) ensures !InRange(c) {
      ReleasesCrossBeyondRange(a, b, c);
    }
  }

  lemma ReleasesCrossBeyondRange(a: GoString, b: GoString, c: GoString)
    requires Stable(a) && Cross(a, b, c) && Stable(c)
    ensures !InRange(c)
  {
    hide Stable, FieldsFrom, ParseInt, SegmentsCross, CompareSegments, InRange;
    StableIsNotAnInteger(a);
    CrossingHasText(Fields(a), Fields(b), Fields(c));
    if InRange(c) {
      KnownParses(c);
    }
  }

  /** So the order of observations does not matter: two runs that saw the same names, none of which cross,
      store names that compare equal. */
  lemma OrderDoesNotMatter(start: Option<GoString>, version: GoString, prerelease: GoString -> bool,
                           first: seq<seq<GoString>>, second: seq<seq<GoString>>)
    requires ValidStart(start, version, prerelease)
    requires var keep := Accepts(version, prerelease);
      NoneCross(Sight(start, keep, first)) && Sight(start, keep, first) == Sight(start, keep, second)
      && exists v :: v in Sight(start, keep, first)
    ensures var a, b := After(start, version, prerelease, first), After(start, version, prerelease, second);
      a.Some? && b.Some? && CompareSpec(a.value, b.value) == 0
  {
    hide CompareSpec, After, Sight, NoneCross;
    TransitiveIff(Sight(start, Accepts(version, prerelease), first));
    TransitiveIsMaximum(start, version, prerelease, first);
    TransitiveIsMaximum(start, version, prerelease, second);
    CompareFlips(After(start, version, prerelease, first).value, After(start, version, prerelease, second).value);
  }

  // ---- and where it fails -----------------------------------------------------------------------------------

  /** Builds "9", "10" and "1a" cross, and displace each other in turn for ever. */
  lemma BuildsCanCycle(version: GoString, prerelease: GoString -> bool)
    requires version != [] && !prerelease([57]) && !prerelease([49, 48]) && !prerelease([49, 97])
    ensures var nine, ten, mixed := [57], [49, 48], [49, 97];
      var keep := IsBuild(prerelease);
      keep(nine) && keep(ten) && keep(mixed) && TokensCross(nine, ten, mixed)
      && Kept(Some(nine), version, NewestOf([ten], keep)) == Some(ten)
      && Kept(Some(ten), version, NewestOf([mixed], keep)) == Some(mixed)
      && Kept(Some(mixed), version, NewestOf([nine], keep)) == Some(nine)
  {
    hide CompareSpec;
    var nine: GoString, ten: GoString, mixed: GoString := [57], [49, 48], [49, 97];
    var keep := IsBuild(prerelease);
    MixedTokensCycle();
    CycleLiterals();
    assert |nine| == 1 && |ten| == 2 && |mixed| == 2;
    NewestOfOne(nine, keep);
    NewestOfOne(ten, keep);
    NewestOfOne(mixed, keep);
  }

  /** Releases with a component over 64 bits can do the same: "1.2", "1.10" and such a "1.10000000000000000000"
      displace each other in turn in the row of game versions. */
  lemma ReleasesCanCycle(huge: GoString)
    requires |huge| == 20 && huge[0] == 49 && huge[1] == ZERO && AllDigits(huge)
    ensures var two, ten, big := [49] + [DOT] + [50], [49] + [DOT] + [49, 48], [49] + [DOT] + huge;
      Cross(two, ten, big)
      && Kept(Some(two), [], NewestOf([ten], Stable)) == Some(ten)
      && Kept(Some(ten), [], NewestOf([big], Stable)) == Some(big)
      && Kept(Some(big), [], NewestOf([two], Stable)) == Some(two)
  {
    hide CompareSpec, Stable, Cross;
    HugeComponentsCycle(huge);
    HugeComponentsCross(huge);
    var two, ten, big := [49] + [DOT] + [50], [49] + [DOT] + [49, 48], [49] + [DOT] + huge;
    assert |two| == 3 && |ten| == 4 && |big| == 22;
    NewestOfOne(two, Stable);
    NewestOfOne(ten, Stable);
    NewestOfOne(big, Stable);
  }
}
