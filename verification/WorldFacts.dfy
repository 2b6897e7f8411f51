/**
  What the skip-scan of a world file reports, read off the decoded tree by names alone
  (internal/servers/world_nbt.go): which members of which compounds, with no path and no scan in sight.
 */
module WorldFacts {
  import opened Options
  import opened Bytes
  import opened ModifiedUtf8
  import opened Nbt
  import opened WorldScan
  import opened WorldScanRefines

  // ---- paths ------------------------------------------------------------------------------------------

  /** A member of the root has its name as its path; below that, names are joined by a slash. One leading
      slash is lost on the way down, and only that. */
  lemma ChildPathMeans(path: GoString, name: GoString)
    ensures path == [] ==> ChildPath(path, name) == name
    ensures path != [] && path[0] != 47 ==> ChildPath(path, name) == path + [47] + name
    ensures path != [] && path[0] == 47 ==> ChildPath(path, name) == path[1..] + [47] + name
  {
    if path == [] {
      assert path + [SLASH] + name == [SLASH] + name;
    } else {
      assert (path + [SLASH] + name)[0] == path[0];
      assert (path + [SLASH] + name)[1..] == path[1..] + [SLASH] + name;
    }
  }

  /** A path that another may start with: not empty, and with no slash to lose. */
  predicate Solid(path: GoString) {
    path != [] && path[0] != 47
  }

  predicate Under(path: GoString, other: GoString) {
    other == path || path + [47] <= other
  }

  lemma UnderChild(path: GoString, step: GoString, other: GoString)
    requires Under(path + [47] + step, other)
    ensures path + [47] <= other
  {
    var below := path + [47] + step;
    assert path + [47] <= below;
  }

  /** Everything in a subtree is at the path of its root or under it. */
  lemma {:induction false} VisitsUnder(path: GoString, t: Tag)
    requires Solid(path)
    ensures forall v :: v in Visits(path, t) ==> Under(path, v.path)
    decreases t, 0
  {
    if t.kind == LIST {
      ListVisitsUnder(path, t.children);
      forall v | v in VisitsOfList(path, t.children)
        ensures Under(path, v.path)
      {
        assert path + LIST_STEP == path + [47] + [91, 93];
        UnderChild(path, [91, 93], v.path);
      }
    } else if t.kind == COMPOUND {
      MemberVisitsUnder(path, t.children);
    }
  }

  lemma {:induction false} ListVisitsUnder(path: GoString, ts: seq<Tag>)
    requires Solid(path)
    ensures forall v :: v in VisitsOfList(path, ts) ==> Under(path + LIST_STEP, v.path)
    decreases ts, 1
  {
    hide Visits, Under;
    if ts != [] {
      VisitsUnder(path + LIST_STEP, ts[0]);
      ListVisitsUnder(path, ts[1..]);
    }
  }

  lemma {:induction false} MemberVisitsUnder(path: GoString, ts: seq<Tag>)
    requires Solid(path)
    ensures forall v :: v in VisitsOfMembers(path, ts) ==> path + [47] <= v.path
    decreases ts, 1
  {
    hide Visits, ChildPath, Under;
    if ts != [] {
      ChildPathMeans(path, ts[0].name);
      var child := path + [47] + ts[0].name;
      VisitsUnder(child, ts[0]);
      forall v | v in Visits(child, ts[0])
        ensures path + [47] <= v.path
      {
        UnderChild(path, ts[0].name, v.path);
      }
      MemberVisitsUnder(path, ts[1..]);
    }
  }

  // ---- the last of some visits ----------------------------------------------------------------------

  lemma {:induction false} LastOfTwo(vs: seq<Visit>, us: seq<Visit>, kind: byte, paths: iset<GoString>)
    ensures LastAt(vs + us, kind, paths)
         == if LastAt(us, kind, paths).Some? then LastAt(us, kind, paths) else LastAt(vs, kind, paths)
    decreases |us|
  {
    if us == [] {
      assert vs + us == vs;
    } else {
      LastOfTwo(vs, us[..|us| - 1], kind, paths);
      assert (vs + us)[..|vs + us| - 1] == vs + us[..|us| - 1];
    }
  }

  lemma {:induction false} LastOfNone(vs: seq<Visit>, kind: byte, paths: iset<GoString>)
    requires forall v :: v in vs ==> !(v.tag.kind == kind && v.path in paths)
    ensures LastAt(vs, kind, paths) == None
    decreases |vs|
  {
    if vs != [] {
      assert vs[|vs| - 1] in vs;
      LastOfNone(vs[..|vs| - 1], kind, paths);
    }
  }

  /** A tag is looked at before what is inside it. */
  lemma TagLast(path: GoString, t: Tag, kind: byte, paths: iset<GoString>, inside: seq<Visit>)
    requires Visits(path, t) == [Visit(path, t)] + inside
    ensures LastAt(Visits(path, t), kind, paths)
         == if LastAt(inside, kind, paths).Some? then LastAt(inside, kind, paths)
            else if t.kind == kind && path in paths then Some(t.value) else None
  {
    LastOfTwo([Visit(path, t)], inside, kind, paths);
    LastOfOne([], Visit(path, t), kind, paths);
    assert [] + [Visit(path, t)] == [Visit(path, t)];
  }

  /** A tag that none of the paths leads through: it can only be named by one itself. */
  lemma NothingInside(path: GoString, t: Tag, kind: byte, paths: iset<GoString>)
    requires Solid(path)
    requires t.kind == LIST ==> forall p :: p in paths ==> 91 !in p
    requires t.kind == COMPOUND ==> forall p :: p in paths ==> !(path + [47] <= p)
    ensures LastAt(Visits(path, t), kind, paths) == if t.kind == kind && path in paths then Some(t.value) else None
  {
    var inside := if t.kind == LIST then VisitsOfList(path, t.children)
                  else if t.kind == COMPOUND then VisitsOfMembers(path, t.children)
                  else [];
    if t.kind == LIST {
      ListVisitsUnder(path, t.children);
      forall v | v in inside
        ensures v.path !in paths
      {
        assert (path + LIST_STEP)[|path| + 1] == 91;
        assert v.path[|path| + 1] == 91;
      }
    } else if t.kind == COMPOUND {
      MemberVisitsUnder(path, t.children);
    }
    LastOfNone(inside, kind, paths);
    TagLast(path, t, kind, paths, inside);
  }

  // ---- the facts on the tree ----------------------------------------------------------------------------

  const SEED: GoString := Ascii("seed")
  const LOWER_DATA: GoString := Ascii("data")
  const RANDOM_SEED: GoString := Ascii("RandomSeed")
  const SETTINGS: GoString := Ascii("WorldGenSettings")
  const VERSION: GoString := Ascii("Version")
  const NAME: GoString := Ascii("Name")

  predicate Named(t: Tag, kind: byte, name: GoString) {
    t.kind == kind && t.name == name
  }

  /** What the last member that has something to say says. */
  function LastOver(ms: seq<Tag>, f: Tag -> Option<GoString>): Option<GoString> {
    if ms == [] then None
    else
      var rest := LastOver(ms[1..], f);
      if rest.Some? then rest else f(ms[0])
  }

  /** A compound "Data" among these tags, or among the members of an unnamed compound among them. */
  predicate HasData(ms: seq<Tag>) {
    ms != []
    && (Named(ms[0], 10, DATA)
        || (Named(ms[0], 10, []) && HasData(ms[0].children))
        || HasData(ms[1..]))
  }

  /** A Long "seed". */
  function SeedLeaf(t: Tag): Option<GoString> {
    if Named(t, 4, SEED) then Some(t.value) else None
  }

  /** In a compound "Data": a Long "RandomSeed", or the seed in a compound "WorldGenSettings". */
  function SeedInData(t: Tag): Option<GoString> {
    if Named(t, 4, RANDOM_SEED) then Some(t.value)
    else if Named(t, 10, SETTINGS) then LastOver(t.children, SeedLeaf)
    else None
  }

  /** In the root: a Long "seed", the seed in a compound "data", or what a compound "Data" holds. */
  function SeedInRoot(t: Tag): Option<GoString> {
    if Named(t, 10, DATA) then LastOver(t.children, SeedInData)
    else if Named(t, 10, LOWER_DATA) then LastOver(t.children, SeedLeaf)
    else SeedLeaf(t)
  }

  function VersionLeaf(t: Tag): Option<GoString> {
    if Named(t, 8, NAME) then Some(t.value) else None
  }

  /** In a compound "Data": a String "Name" in a compound "Version". */
  function VersionInData(t: Tag): Option<GoString> {
    if Named(t, 10, VERSION) then LastOver(t.children, VersionLeaf) else None
  }

  function VersionInRoot(t: Tag): Option<GoString> {
    if Named(t, 10, DATA) then LastOver(t.children, VersionInData) else None
  }

  predicate SlashFree(name: GoString) {
    47 !in name
  }

  /** The root's members have names, and neither those nor the names in a compound "Data" hold a slash. */
  predicate PlainNames(root: Tag) {
    forall i :: 0 <= i < |root.children| ==>
      var m := root.children[i];
      m.name != [] && SlashFree(m.name)
      && (Named(m, 10, DATA) ==>
            forall j :: 0 <= j < |m.children| ==> SlashFree(m.children[j].name))
  }

  // ---- splitting the tested paths at their slashes ----------------------------------------------------------

  lemma Splits(a: GoString, c: GoString, d: GoString)
    requires SlashFree(a) && SlashFree(c)
    requires a + [47] <= c + [47] + d
    ensures a == c
  {
    var l, r := a + [47], c + [47] + d;
    assert l == r[..|l|] && l[|a|] == 47 && r[|c|] == 47;
    assert forall i :: 0 <= i < |a| ==> a[i] == l[i];
    assert forall i :: 0 <= i < |c| ==> c[i] == r[i];
    assert |a| == |c|;
  }

  lemma SlashInside(q: GoString, p: GoString)
    requires q + [47] <= p
    ensures 47 in p
  {
    assert p[|q|] == (q + [47])[|q|];
  }

  lemma JoinedText(a: string, b: string)
    requires forall i :: 0 <= i < |a| ==> '\0' < a[i] < 128 as char
    requires forall i :: 0 <= i < |b| ==> '\0' < b[i] < 128 as char
    ensures forall i :: 0 <= i < |a + "/" + b| ==> '\0' < (a + "/" + b)[i] < 128 as char
    ensures Ascii(a + "/" + b) == Ascii(a) + [47] + Ascii(b)
  {
  }

  lemma SettingsPath()
    ensures Ascii("Data/WorldGenSettings/seed") == DATA + [47] + SETTINGS + [47] + SEED
  {
    JoinedText("Data", "WorldGenSettings");
    JoinedText("Data" + "/" + "WorldGenSettings", "seed");
    assert "Data" + "/" + "WorldGenSettings" + "/" + "seed" == "Data/WorldGenSettings/seed";
  }

  lemma VersionPath()
    ensures VERSION_NAME == DATA + [47] + VERSION + [47] + NAME
  {
    JoinedText("Data", "Version");
    JoinedText("Data" + "/" + "Version", "Name");
    assert "Data" + "/" + "Version" + "/" + "Name" == "Data/Version/Name";
  }

  lemma SeedPathParts(p: GoString)
    ensures IsSeedPath(p) <==>
      p == SEED || p == LOWER_DATA + [47] + SEED || p == DATA + [47] + RANDOM_SEED
      || p == DATA + [47] + SETTINGS + [47] + SEED
  {
    SettingsPath();
    assert Ascii("data/seed") == LOWER_DATA + [47] + SEED by {
      JoinedText("data", "seed");
      assert "data" + "/" + "seed" == "data/seed";
    }
    assert Ascii("Data/RandomSeed") == DATA + [47] + RANDOM_SEED by {
      JoinedText("Data", "RandomSeed");
      assert "Data" + "/" + "RandomSeed" == "Data/RandomSeed";
    }
  }

  lemma NamesAreSlashFree()
    ensures SlashFree(SEED) && SlashFree(LOWER_DATA) && SlashFree(DATA)
    ensures SlashFree(RANDOM_SEED) && SlashFree(SETTINGS) && SlashFree(VERSION) && SlashFree(NAME)
  {
  }

  lemma NamesDiffer()
    ensures |SEED| == 4 && |LOWER_DATA| == 4 && |DATA| == 4 && SEED[0] == 115 && LOWER_DATA[0] == 100 && DATA[0] == 68
    ensures |RANDOM_SEED| == 10 && RANDOM_SEED[0] == 82 && |SETTINGS| == 16 && SETTINGS[0] == 87
    ensures |VERSION| == 7 && |NAME| == 4
  {
  }

  /** If `f` says of every member what the walk finds in it, it says so of all of them. */
  lemma {:induction false} MembersLast(path: GoString, ms: seq<Tag>, kind: byte, paths: iset<GoString>,
                                       f: Tag -> Option<GoString>)
    requires forall i :: 0 <= i < |ms| ==>
               LastAt(Visits(ChildPath(path, ms[i].name), ms[i]), kind, paths) == f(ms[i])
    ensures LastAt(VisitsOfMembers(path, ms), kind, paths) == LastOver(ms, f)
    decreases |ms|
  {
    hide ChildPath, Visits, LastAt;
    if ms == [] {
      LastOfNone([], kind, paths);
    } else {
      var rest := ms[1..];
      forall i | 0 <= i < |rest|
        ensures LastAt(Visits(ChildPath(path, rest[i].name), rest[i]), kind, paths) == f(rest[i])
      {
        assert rest[i] == ms[i + 1];
      }
      MembersLast(path, rest, kind, paths, f);
      LastOfTwo(Visits(ChildPath(path, ms[0].name), ms[0]), VisitsOfMembers(path, rest), kind, paths);
    }
  }

  // ---- the seed ---------------------------------------------------------------------------------------------

  lemma NoBracket(p: GoString)
    requires IsSeedPath(p) || p == VERSION_NAME || p == DATA
    ensures 91 !in p
  {
  }

  lemma RootSeedPaths(q: GoString)
    requires SlashFree(q)
    ensures IsSeedPath(q) <==> q == SEED
    ensures forall p :: p in SEED_PATHS && q + [47] <= p ==> q == LOWER_DATA || q == DATA
  {
    hide Ascii, IsSeedPath;
    NamesAreSlashFree();
    SeedPathParts(q);
    forall p | p in SEED_PATHS && q + [47] <= p
      ensures q == LOWER_DATA || q == DATA
    {
      SeedPathParts(p);
      SlashInside(q, p);
      if p == SEED {
      } else if p == LOWER_DATA + [47] + SEED {
        Splits(q, LOWER_DATA, SEED);
      } else if p == DATA + [47] + RANDOM_SEED {
        Splits(q, DATA, RANDOM_SEED);
      } else {
        assert p == DATA + [47] + (SETTINGS + [47] + SEED);
        Splits(q, DATA, SETTINGS + [47] + SEED);
      }
    }
  }

  lemma DataSeedPaths(n: GoString)
    requires SlashFree(n)
    ensures IsSeedPath(DATA + [47] + n) <==> n == RANDOM_SEED
    ensures forall p :: p in SEED_PATHS && DATA + [47] + n + [47] <= p ==> n == SETTINGS
  {
    hide Ascii, IsSeedPath;
    NamesAreSlashFree();
    NamesDiffer();
    var q := DATA + [47] + n;
    SeedPathParts(q);
    SameHead(n, RANDOM_SEED);
    SameHead(n, SETTINGS + [47] + SEED);
    assert DATA + [47] + SETTINGS + [47] + SEED == DATA + [47] + (SETTINGS + [47] + SEED);
    assert (SETTINGS + [47] + SEED)[|SETTINGS|] == 47;
    assert q[0] == 68 && (LOWER_DATA + [47] + SEED)[0] == 100;
    forall p | p in SEED_PATHS && q + [47] <= p
      ensures n == SETTINGS
    {
      SeedPathParts(p);
      assert p[0] == (q + [47])[0] == q[0];
      if p == DATA + [47] + RANDOM_SEED {
        TailSlash(n, RANDOM_SEED);
      } else if p == DATA + [47] + SETTINGS + [47] + SEED {
        assert p == DATA + [47] + (SETTINGS + [47] + SEED);
        TailSlash(n, SETTINGS + [47] + SEED);
        Splits(n, SETTINGS, SEED);
      }
    }
  }

  lemma SameHead(n: GoString, m: GoString)
    ensures DATA + [47] + n == DATA + [47] + m <==> n == m
  {
    hide Ascii;
    assert n == (DATA + [47] + n)[|DATA| + 1..];
    assert m == (DATA + [47] + m)[|DATA| + 1..];
  }

  lemma TailSlash(n: GoString, m: GoString)
    requires DATA + [47] + n + [47] <= DATA + [47] + m
    ensures n + [47] <= m && 47 in m
  {
    hide Ascii;
    var l, r := DATA + [47] + n + [47], DATA + [47] + m;
    assert n + [47] == l[|DATA| + 1..];
    assert m == r[|DATA| + 1..];
    SlashInside(n, m);
  }

  /** The compounds whose member "seed" is a seed. */
  predicate HoldsSeed(path: GoString) {
    path == LOWER_DATA || path == DATA + [47] + SETTINGS
  }

  lemma LeafSeedPaths(path: GoString, n: GoString)
    requires HoldsSeed(path)
    ensures Solid(path)
    ensures IsSeedPath(path + [47] + n) <==> n == SEED
  {
    hide Ascii, IsSeedPath;
    NamesAreSlashFree();
    NamesDiffer();
    var q := path + [47] + n;
    SeedPathParts(q);
    assert n == q[|path| + 1..];
    assert q[0] == path[0] && q[|path|] == 47 && |q| == |path| + 1 + |n|;
    if path == LOWER_DATA {
      assert (LOWER_DATA + [47] + SEED)[5..] == SEED;
      assert (DATA + [47] + RANDOM_SEED)[0] == 68 && (DATA + [47] + SETTINGS + [47] + SEED)[0] == 68;
    } else {
      var settings := DATA + [47] + SETTINGS;
      assert (settings + [47] + SEED)[|settings| + 1..] == SEED;
      assert q[5] == SETTINGS[0] && (DATA + [47] + RANDOM_SEED)[5] == RANDOM_SEED[0];
      assert (LOWER_DATA + [47] + SEED)[0] == 100;
    }
  }

  lemma LeafSeed(path: GoString, m: Tag)
    requires HoldsSeed(path)
    ensures LastAt(Visits(ChildPath(path, m.name), m), 4, SEED_PATHS) == SeedLeaf(m)
  {
    hide Ascii, IsSeedPath, ChildPath, Visits, LastAt, HoldsSeed;
    LeafSeedPaths(path, m.name);
    ChildPathMeans(path, m.name);
    NamesAreSlashFree();
    var q := path + [47] + m.name;
    assert q[0] == path[0];
    forall p | p in SEED_PATHS
      ensures 91 !in p && !(q + [47] <= p)
    {
      NoBracket(p);
      if q + [47] <= p {
        var n := m.name + [47] + p[|q| + 1..];
        assert p == p[..|q| + 1] + p[|q| + 1..];
        assert p == path + [47] + n;
        assert m.name + [47] <= n;
        SlashInside(m.name, n);
        LeafSeedPaths(path, n);
      }
    }
    NothingInside(q, m, 4, SEED_PATHS);
  }

  lemma DataSeed(m: Tag)
    requires SlashFree(m.name)
    ensures LastAt(Visits(ChildPath(DATA, m.name), m), 4, SEED_PATHS) == SeedInData(m)
  {
    hide Ascii, IsSeedPath, ChildPath, LastAt, Visits, LastOver;
    NamesDiffer();
    DataSeedPaths(m.name);
    ChildPathMeans(DATA, m.name);
    var q := DATA + [47] + m.name;
    assert q[0] == 68;
    if Named(m, 10, SETTINGS) {
      forall i | 0 <= i < |m.children|
        ensures LastAt(Visits(ChildPath(q, m.children[i].name), m.children[i]), 4, SEED_PATHS)
             == SeedLeaf(m.children[i])
      {
        LeafSeed(q, m.children[i]);
      }
      MembersLast(q, m.children, 4, SEED_PATHS, SeedLeaf);
      CompoundLast(q, m, 4, SEED_PATHS);
    } else {
      forall p | p in SEED_PATHS
        ensures 91 !in p
      {
        NoBracket(p);
      }
      NothingInside(q, m, 4, SEED_PATHS);
    }
  }

  lemma CompoundLast(path: GoString, t: Tag, kind: byte, paths: iset<GoString>)
    requires t.kind == COMPOUND && kind != COMPOUND
    ensures LastAt(Visits(path, t), kind, paths) == LastAt(VisitsOfMembers(path, t.children), kind, paths)
  {
    hide LastAt;
    TagLast(path, t, kind, paths, VisitsOfMembers(path, t.children));
  }

  /** A member of the root: its path is its name. */
  lemma RootSeed(m: Tag)
    requires m.name != [] && SlashFree(m.name)
    requires Named(m, 10, DATA) ==> forall j :: 0 <= j < |m.children| ==> SlashFree(m.children[j].name)
    ensures LastAt(Visits(ChildPath([], m.name), m), 4, SEED_PATHS) == SeedInRoot(m)
  {
    hide Ascii, IsSeedPath, ChildPath, LastAt, Visits, LastOver;
    NamesDiffer();
    RootSeedPaths(m.name);
    ChildPathMeans([], m.name);
    if Named(m, 10, DATA) {
      forall i | 0 <= i < |m.children|
        ensures LastAt(Visits(ChildPath(DATA, m.children[i].name), m.children[i]), 4, SEED_PATHS)
             == SeedInData(m.children[i])
      {
        DataSeed(m.children[i]);
      }
      MembersLast(DATA, m.children, 4, SEED_PATHS, SeedInData);
      CompoundLast(DATA, m, 4, SEED_PATHS);
    } else if Named(m, 10, LOWER_DATA) {
      forall i | 0 <= i < |m.children|
        ensures LastAt(Visits(ChildPath(LOWER_DATA, m.children[i].name), m.children[i]), 4, SEED_PATHS)
             == SeedLeaf(m.children[i])
      {
        LeafSeed(LOWER_DATA, m.children[i]);
      }
      MembersLast(LOWER_DATA, m.children, 4, SEED_PATHS, SeedLeaf);
      CompoundLast(LOWER_DATA, m, 4, SEED_PATHS);
    } else {
      forall p | p in SEED_PATHS
        ensures 91 !in p
      {
        NoBracket(p);
      }
      NothingInside(m.name, m, 4, SEED_PATHS);
    }
  }

  // ---- the version ------------------------------------------------------------------------------------------

  lemma VersionPaths(n: GoString)
    ensures SlashFree(n) ==> n != VERSION_NAME && (n + [47] <= VERSION_NAME ==> n == DATA)
    ensures SlashFree(n) ==> DATA + [47] + n != VERSION_NAME
    ensures SlashFree(n) && DATA + [47] + n + [47] <= VERSION_NAME ==> n == VERSION
    ensures DATA + [47] + VERSION + [47] + n == VERSION_NAME <==> n == NAME
  {
    hide Ascii;
    NamesAreSlashFree();
    VersionPath();
    var below := VERSION + [47] + NAME;
    assert VERSION_NAME == DATA + [47] + below;
    SameHead(n, below);
    assert below[|VERSION|] == 47 && VERSION_NAME[|DATA|] == 47;
    if SlashFree(n) && n + [47] <= VERSION_NAME {
      Splits(n, DATA, below);
    }
    if SlashFree(n) && DATA + [47] + n + [47] <= VERSION_NAME {
      TailSlash(n, below);
      Splits(n, VERSION, NAME);
    }
    var head := DATA + [47] + VERSION + [47];
    assert (head + n)[|head|..] == n && (head + NAME)[|head|..] == NAME;
  }

  lemma LeafVersion(m: Tag)
    ensures LastAt(Visits(ChildPath(DATA + [47] + VERSION, m.name), m), TEXT, iset{VERSION_NAME}) == VersionLeaf(m)
  {
    hide Ascii, ChildPath, Visits, LastAt;
    NamesDiffer();
    var path := DATA + [47] + VERSION;
    assert path[0] == 68;
    VersionPaths(m.name);
    ChildPathMeans(path, m.name);
    var q := path + [47] + m.name;
    NoBracket(VERSION_NAME);
    if q + [47] <= VERSION_NAME {
      var n := m.name + [47] + VERSION_NAME[|q| + 1..];
      assert VERSION_NAME == VERSION_NAME[..|q| + 1] + VERSION_NAME[|q| + 1..];
      assert VERSION_NAME == path + [47] + n;
      assert m.name + [47] <= n;
      SlashInside(m.name, n);
      NamesAreSlashFree();
      VersionPaths(n);
    }
    NothingInside(q, m, TEXT, iset{VERSION_NAME});
  }

  lemma DataVersion(m: Tag)
    requires SlashFree(m.name)
    ensures LastAt(Visits(ChildPath(DATA, m.name), m), TEXT, iset{VERSION_NAME}) == VersionInData(m)
  {
    hide Ascii, ChildPath, LastAt, Visits, LastOver;
    NamesDiffer();
    VersionPaths(m.name);
    ChildPathMeans(DATA, m.name);
    var q := DATA + [47] + m.name;
    assert q[0] == 68;
    if Named(m, 10, VERSION) {
      forall i | 0 <= i < |m.children|
        ensures LastAt(Visits(ChildPath(q, m.children[i].name), m.children[i]), TEXT, iset{VERSION_NAME})
             == VersionLeaf(m.children[i])
      {
        LeafVersion(m.children[i]);
      }
      MembersLast(q, m.children, TEXT, iset{VERSION_NAME}, VersionLeaf);
      CompoundLast(q, m, TEXT, iset{VERSION_NAME});
    } else {
      NoBracket(VERSION_NAME);
      NothingInside(q, m, TEXT, iset{VERSION_NAME});
    }
  }

  lemma RootVersion(m: Tag)
    requires m.name != [] && SlashFree(m.name)
    requires Named(m, 10, DATA) ==> forall j :: 0 <= j < |m.children| ==> SlashFree(m.children[j].name)
    ensures LastAt(Visits(ChildPath([], m.name), m), TEXT, iset{VERSION_NAME}) == VersionInRoot(m)
  {
    hide Ascii, ChildPath, LastAt, Visits, LastOver;
    NamesDiffer();
    VersionPaths(m.name);
    ChildPathMeans([], m.name);
    if Named(m, 10, DATA) {
      forall i | 0 <= i < |m.children|
        ensures LastAt(Visits(ChildPath(DATA, m.children[i].name), m.children[i]), TEXT, iset{VERSION_NAME})
             == VersionInData(m.children[i])
      {
        DataVersion(m.children[i]);
      }
      MembersLast(DATA, m.children, TEXT, iset{VERSION_NAME}, VersionInData);
      CompoundLast(DATA, m, TEXT, iset{VERSION_NAME});
    } else {
      NoBracket(VERSION_NAME);
      NothingInside(m.name, m, TEXT, iset{VERSION_NAME});
    }
  }

  // ---- world data -------------------------------------------------------------------------------------------

  /** No part of the tree but the unnamed compounds at its top has a path without a slash in it. */
  lemma {:induction false} DataFound(ms: seq<Tag>)
    ensures LastAt(VisitsOfMembers([], ms), COMPOUND, iset{DATA}).Some? <==> HasData(ms)
    decreases ms
  {
    hide Ascii, ChildPath, LastAt, Visits;
    if ms == [] {
      LastOfNone([], COMPOUND, iset{DATA});
    } else {
      var m := ms[0];
      ChildPathMeans([], m.name);
      DataFound(ms[1..]);
      LastOfTwo(Visits(m.name, m), VisitsOfMembers([], ms[1..]), COMPOUND, iset{DATA});
      DataInMember(m);
    }
  }

  lemma {:induction false} DataInMember(m: Tag)
    ensures LastAt(Visits(m.name, m), COMPOUND, iset{DATA}).Some?
       <==> Named(m, 10, DATA) || (Named(m, 10, []) && HasData(m.children))
    decreases m, 0
  {
    hide Ascii, ChildPath, LastAt, HasData;
    NamesDiffer();
    NamesAreSlashFree();
    var inside := if m.kind == LIST then VisitsOfList(m.name, m.children)
                  else if m.kind == COMPOUND then VisitsOfMembers(m.name, m.children)
                  else [];
    TagLast(m.name, m, COMPOUND, iset{DATA}, inside);
    if Named(m, 10, []) {
      DataFound(m.children);
    } else {
      if m.kind == LIST {
        ListVisitsSlashed(m.name, m.children);
      } else if m.kind == COMPOUND {
        MemberVisitsSlashed(m.name, m.children);
      }
      LastOfNone(inside, COMPOUND, iset{DATA});
    }
  }

  lemma {:induction false} VisitsSlashed(path: GoString, t: Tag)
    requires !SlashFree(path)
    ensures forall v :: v in Visits(path, t) ==> !SlashFree(v.path)
    decreases t, 0
  {
    if t.kind == LIST {
      ListVisitsSlashed(path, t.children);
    } else if t.kind == COMPOUND {
      MemberVisitsSlashed(path, t.children);
    }
  }

  lemma {:induction false} ListVisitsSlashed(path: GoString, ts: seq<Tag>)
    ensures forall v :: v in VisitsOfList(path, ts) ==> !SlashFree(v.path)
    decreases ts, 1
  {
    hide Visits;
    if ts != [] {
      assert (path + LIST_STEP)[|path|] == 47;
      VisitsSlashed(path + LIST_STEP, ts[0]);
      ListVisitsSlashed(path, ts[1..]);
    }
  }

  /** Below a path that is not empty the joining slash stays. */
  lemma {:induction false} MemberVisitsSlashed(path: GoString, ts: seq<Tag>)
    requires path != []
    ensures forall v :: v in VisitsOfMembers(path, ts) ==> !SlashFree(v.path)
    decreases ts, 1
  {
    hide Visits, ChildPath;
    if ts != [] {
      var child := ChildPath(path, ts[0].name);
      ChildPathMeans(path, ts[0].name);
      assert child[if path[0] == 47 then |path| - 1 else |path|] == 47;
      VisitsSlashed(child, ts[0]);
      MemberVisitsSlashed(path, ts[1..]);
    }
  }

  // ---- the report -------------------------------------------------------------------------------------------

  /** What the scan reports of a file that the tree reader accepts with a compound root, by the names in the
      decoded tree. World data is reported exactly if the root, or an unnamed compound at its top, holds a
      compound "Data". With plain names at the top of the tree, the seed is the last one in document order
      among the Long "RandomSeed" of Data, the Long "seed" of Data's WorldGenSettings, the Long "seed" of a
      compound "data" and the root's own Long "seed"; and the version, decoded, is the String "Name" of
      Data's compound "Version". */
  lemma MetadataOfTree(floats: FloatText, data: seq<byte>)
    requires ReadRoot(floats, false, data).Some? && ReadRoot(floats, false, data).value.kind == COMPOUND
    ensures ScanRoot(data).Some?
    ensures var root, found := ReadRoot(floats, false, data).value, ScanRoot(data).value;
            && (found.worldData <==> HasData(root.children))
            && (PlainNames(root) ==>
                  && found.seed == LastOver(root.children, SeedInRoot)
                  && var version := LastOver(root.children, VersionInRoot);
                     TextOf(found.version) == if version.Some? then version else Some([]))
  {
    hide ReadRoot, ScanRoot, Visits, LastAt, TextOf, Ascii, IsSeedPath, ChildPath, HasData, LastOver, Agrees;
    hide SeedInRoot, VersionInRoot;
    ScanRefinesDecode(floats, data);
    var root := ReadRoot(floats, false, data).value;
    RootVisits(root);
    var ms := root.children;
    DataFound(ms);
    if PlainNames(root) {
      forall i | 0 <= i < |ms|
        ensures LastAt(Visits(ChildPath([], ms[i].name), ms[i]), 4, SEED_PATHS) == SeedInRoot(ms[i])
        ensures LastAt(Visits(ChildPath([], ms[i].name), ms[i]), TEXT, iset{VERSION_NAME}) == VersionInRoot(ms[i])
      {
        RootSeed(ms[i]);
        RootVersion(ms[i]);
      }
      MembersLast([], ms, 4, SEED_PATHS, SeedInRoot);
      MembersLast([], ms, TEXT, iset{VERSION_NAME}, VersionInRoot);
    }
  }

  /** The root itself is at the empty path, which is none of the tested ones. */
  lemma RootVisits(root: Tag)
    requires root.kind == COMPOUND
    ensures var vs, inside := Visits([], root), VisitsOfMembers([], root.children);
            && LastAt(vs, COMPOUND, iset{DATA}) == LastAt(inside, COMPOUND, iset{DATA})
            && LastAt(vs, 4, SEED_PATHS) == LastAt(inside, 4, SEED_PATHS)
            && LastAt(vs, TEXT, iset{VERSION_NAME}) == LastAt(inside, TEXT, iset{VERSION_NAME})
  {
    hide Ascii, LastAt, IsSeedPath;
    NamesDiffer();
    var inside := VisitsOfMembers([], root.children);
    TagLast([], root, COMPOUND, iset{DATA}, inside);
    CompoundLast([], root, 4, SEED_PATHS);
    CompoundLast([], root, TEXT, iset{VERSION_NAME});
  }

  lemma {:induction false} LastOverAt(ms: seq<Tag>, f: Tag -> Option<GoString>, i: nat)
    requires i < |ms| && f(ms[i]).Some? && forall k :: i < k < |ms| ==> f(ms[k]) == None
    ensures LastOver(ms, f) == f(ms[i])
    decreases |ms|
  {
    if i > 0 {
      assert forall k :: i - 1 < k < |ms[1..]| ==> ms[1..][k] == ms[k + 1];
      LastOverAt(ms[1..], f, i - 1);
    } else {
      assert forall k :: 0 <= k < |ms[1..]| ==> ms[1..][k] == ms[k + 1];
      NothingOver(ms[1..], f);
    }
  }

  lemma {:induction false} NothingOver(ms: seq<Tag>, f: Tag -> Option<GoString>)
    requires forall k :: 0 <= k < |ms| ==> f(ms[k]) == None
    ensures LastOver(ms, f) == None
    decreases |ms|
  {
    if ms != [] {
      assert forall k :: 0 <= k < |ms[1..]| ==> ms[1..][k] == ms[k + 1];
      NothingOver(ms[1..], f);
    }
  }

  /** An ordinary world: its Long "RandomSeed" in the compound "Data" is the seed that is reported, unless a
      later tag is a seed as well. */
  lemma RandomSeedReported(floats: FloatText, data: seq<byte>, i: nat, j: nat)
    requires ReadRoot(floats, false, data).Some? && ReadRoot(floats, false, data).value.kind == COMPOUND
    requires PlainNames(ReadRoot(floats, false, data).value)
    requires var ms := ReadRoot(floats, false, data).value.children;
             && i < |ms| && Named(ms[i], 10, DATA)
             && j < |ms[i].children| && Named(ms[i].children[j], 4, RANDOM_SEED)
             && (forall k :: j < k < |ms[i].children| ==> SeedInData(ms[i].children[k]) == None)
             && (forall k :: i < k < |ms| ==> SeedInRoot(ms[k]) == None)
    ensures ScanRoot(data).Some?
    ensures ScanRoot(data).value.worldData
    ensures ScanRoot(data).value.seed == Some(ReadRoot(floats, false, data).value.children[i].children[j].value)
  {
    hide ReadRoot, ScanRoot, TextOf, Ascii, LastOver, SeedInData, HasData;
    MetadataOfTree(floats, data);
    var ms := ReadRoot(floats, false, data).value.children;
    DataAt(ms, i);
    assert SeedInData(ms[i].children[j]) == Some(ms[i].children[j].value) by {
      RandomSeedIsSeed(ms[i].children[j]);
    }
    LastOverAt(ms[i].children, SeedInData, j);
    LastOverAt(ms, SeedInRoot, i);
  }

  lemma RandomSeedIsSeed(t: Tag)
    requires Named(t, 4, RANDOM_SEED)
    ensures SeedInData(t) == Some(t.value)
  {
  }

  lemma {:induction false} DataAt(ms: seq<Tag>, i: nat)
    requires i < |ms| && Named(ms[i], 10, DATA)
    ensures HasData(ms)
    decreases |ms|
  {
    hide Ascii;
    if i > 0 {
      DataAt(ms[1..], i - 1);
    }
  }

  // ---- files the tree reader refuses ------------------------------------------------------------------------

  /** Whatever the bytes, a scan of a tag that succeeds has counted it, and at most a million in all, and
      was not deeper than 64. */
  lemma {:induction false} PayloadBounded(kind: byte, key: GoString, depth: nat, st: ScanState)
    requires ScanPayload(kind, key, depth, st).Some?
    ensures var after := ScanPayload(kind, key, depth, st).value;
            depth <= 64 && st.nodes < after.nodes <= 1000000 && |after.rest| <= |st.rest|
    decreases 66 - depth, 0
  {
    hide ScanList, ScanMembers, ScanArray, ScanLong, ScanString, ScanNumber, FromBits;
    var st1 := st.(nodes := st.nodes + 1);
    if IsArray(kind) {
      ArrayKeepsCount(kind, st1);
    } else if kind == 4 {
      LongKeepsCount(key, st1);
    } else if kind == TEXT {
      StringKeepsCount(key, st1);
    } else if kind == LIST {
      ListKindAndCount(st1);
      var (listType, st2) := ScanByte(st1).value;
      var (bits, st3) := ScanNumber(4, st2).value;
      ListBounded(listType, key, FromBits(bits, 4), depth + 1, st3);
    } else if kind == COMPOUND {
      MembersBounded(key, depth + 1, if key == DATA then st1.(result := st1.result.(worldData := true)) else st1);
    }
  }

  lemma ArrayKeepsCount(kind: byte, st: ScanState)
    ensures ScanArray(kind, st).Some? ==> ScanArray(kind, st).value.nodes == st.nodes
  {
  }

  lemma LongKeepsCount(key: GoString, st: ScanState)
    ensures ScanLong(key, st).Some? ==> ScanLong(key, st).value.nodes == st.nodes
  {
    hide IsSeedPath;
  }

  lemma StringKeepsCount(key: GoString, st: ScanState)
    ensures ScanString(key, st).Some? ==> ScanString(key, st).value.nodes == st.nodes
  {
    hide Ascii;
  }

  lemma ListKindAndCount(st: ScanState)
    ensures ScanByte(st).Some? ==>
              ScanByte(st).value.1.nodes == st.nodes
              && (ScanNumber(4, ScanByte(st).value.1).Some? ==>
                    ScanNumber(4, ScanByte(st).value.1).value.1.nodes == st.nodes)
  {
    hide FromBigEndian, Pow256;
  }

  lemma {:induction false} ListBounded(listType: byte, key: GoString, n: nat, depth: nat, st: ScanState)
    requires ScanList(listType, key, n, depth, st).Some? && st.nodes <= 1000000
    ensures st.nodes <= ScanList(listType, key, n, depth, st).value.nodes <= 1000000
    decreases 66 - depth, 1, n
  {
    hide ScanPayload, Ascii;
    if n > 0 {
      PayloadBounded(listType, key + LIST_STEP, depth, st);
      ListBounded(listType, key, n - 1, depth, ScanPayload(listType, key + LIST_STEP, depth, st).value);
    }
  }

  lemma {:induction false} MembersBounded(key: GoString, depth: nat, st: ScanState)
    requires ScanMembers(key, depth, st).Some? && st.nodes <= 1000000
    ensures st.nodes <= ScanMembers(key, depth, st).value.nodes <= 1000000
    decreases 66 - depth, 1, |st.rest|
  {
    hide ScanPayload, ScanName, ChildPath;
    var (kind, st1) := ScanByte(st).value;
    if kind != 0 {
      var (name, st2) := ScanName(st1).value;
      NameKeepsNodes(st1);
      PayloadBounded(kind, ChildPath(key, name), depth, st2);
      MembersBounded(key, depth, ScanPayload(kind, ChildPath(key, name), depth, st2).value);
    }
  }

  lemma NameKeepsNodes(st: ScanState)
    ensures ScanName(st).Some? ==> ScanName(st).value.1.nodes == st.nodes
  {
    hide FromBigEndian, Pow256;
  }

  /** The same scan, begun after `n` tags. */
  ghost predicate Shifted(st: ScanState, r: Option<ScanState>, n: nat, r': Option<ScanState>) {
    && r.Some? && r.value.nodes >= st.nodes
    && var end := n + (r.value.nodes - st.nodes);
       r' == if end <= 1000000 then Some(r.value.(nodes := end)) else None
  }

  /** The limit is the only thing the count is used for: what succeeds with some tags before it succeeds, in
      the same way, after exactly those numbers of tags that leave room for its own. */
  lemma {:induction false} PayloadShifts(kind: byte, key: GoString, depth: nat, st: ScanState, n: nat)
    requires ScanPayload(kind, key, depth, st).Some? && n <= 1000000
    ensures Shifted(st, ScanPayload(kind, key, depth, st), n, ScanPayload(kind, key, depth, st.(nodes := n)))
    decreases 66 - depth, 0
  {
    hide ScanList, ScanMembers, ScanNumber, ScanArray, ScanLong, ScanString, FromBits, Ascii;
    PayloadBounded(kind, key, depth, st);
    var st1, shifted := st.(nodes := st.nodes + 1), st.(nodes := n + 1);
    if n == 1000000 {
    } else if kind == 4 || kind == TEXT || IsArray(kind) {
      LeafShifts(kind, key, st1, n + 1);
    } else if kind == LIST {
      var (listType, st2) := ScanByte(st1).value;
      NumbersShift(st2, n + 1);
      var (bits, st3) := ScanNumber(4, st2).value;
      ListKindAndCount(st1);
      ListShifts(listType, key, FromBits(bits, 4), depth + 1, st3, n + 1);
    } else if kind == COMPOUND {
      var found := if key == DATA then st1.(result := st1.result.(worldData := true)) else st1;
      MembersShift(key, depth + 1, found, n + 1);
    }
  }

  lemma LeafShifts(kind: byte, key: GoString, st: ScanState, n: nat)
    ensures ScanLong(key, st).Some? ==>
              ScanLong(key, st).value.nodes == st.nodes
              && ScanLong(key, st.(nodes := n)) == Some(ScanLong(key, st).value.(nodes := n))
    ensures ScanString(key, st).Some? ==>
              ScanString(key, st).value.nodes == st.nodes
              && ScanString(key, st.(nodes := n)) == Some(ScanString(key, st).value.(nodes := n))
    ensures ScanArray(kind, st).Some? ==>
              ScanArray(kind, st).value.nodes == st.nodes
              && ScanArray(kind, st.(nodes := n)) == Some(ScanArray(kind, st).value.(nodes := n))
  {
    hide ScanNumber, FromBits, FormatInt, IsSeedPath, Ascii;
    NumbersShift(st, n);
  }

  lemma NumbersShift(st: ScanState, n: nat)
    ensures forall width: nat :: ScanNumber(width, st.(nodes := n))
                              == if ScanNumber(width, st).None? then None
                                 else var (v, after) := ScanNumber(width, st).value; Some((v, after.(nodes := n)))
    ensures forall width: nat :: ScanNumber(width, st).Some? ==> ScanNumber(width, st).value.1.nodes == st.nodes
  {
    hide FromBigEndian, Pow256;
  }

  lemma {:induction false} ListShifts(listType: byte, key: GoString, count: nat, depth: nat, st: ScanState, n: nat)
    requires ScanList(listType, key, count, depth, st).Some? && n <= 1000000
    ensures Shifted(st, ScanList(listType, key, count, depth, st), n,
                    ScanList(listType, key, count, depth, st.(nodes := n)))
    decreases 66 - depth, 1, count
  {
    hide ScanPayload, Ascii;
    if count > 0 {
      var step := key + LIST_STEP;
      PayloadShifts(listType, step, depth, st, n);
      var st1 := ScanPayload(listType, step, depth, st).value;
      var end := n + (st1.nodes - st.nodes);
      ListGrows(listType, key, count - 1, depth, st1);
      if end <= 1000000 {
        ListShifts(listType, key, count - 1, depth, st1, end);
      }
    }
  }

  lemma {:induction false} ListGrows(listType: byte, key: GoString, count: nat, depth: nat, st: ScanState)
    requires ScanList(listType, key, count, depth, st).Some?
    ensures ScanList(listType, key, count, depth, st).value.nodes >= st.nodes
    decreases count
  {
    hide ScanPayload, Ascii;
    if count > 0 {
      PayloadBounded(listType, key + LIST_STEP, depth, st);
      ListGrows(listType, key, count - 1, depth, ScanPayload(listType, key + LIST_STEP, depth, st).value);
    }
  }

  lemma {:induction false} MembersShift(key: GoString, depth: nat, st: ScanState, n: nat)
    requires ScanMembers(key, depth, st).Some? && n <= 1000000
    ensures Shifted(st, ScanMembers(key, depth, st), n, ScanMembers(key, depth, st.(nodes := n)))
    decreases 66 - depth, 1, |st.rest|
  {
    hide ScanPayload, ScanName, ChildPath;
    var (kind, st1) := ScanByte(st).value;
    if kind != 0 {
      var (name, st2) := ScanName(st1).value;
      NameShifts(st1, n);
      var child := ChildPath(key, name);
      PayloadShifts(kind, child, depth, st2, n);
      var st3 := ScanPayload(kind, child, depth, st2).value;
      var end := n + (st3.nodes - st2.nodes);
      MembersGrow(key, depth, st3);
      if end <= 1000000 {
        MembersShift(key, depth, st3, end);
      }
    }
  }

  lemma NameShifts(st: ScanState, n: nat)
    requires ScanName(st).Some?
    ensures var (name, after) := ScanName(st).value;
            after.nodes == st.nodes && ScanName(st.(nodes := n)) == Some((name, after.(nodes := n)))
  {
    hide FromBigEndian, Pow256;
  }

  lemma {:induction false} MembersGrow(key: GoString, depth: nat, st: ScanState)
    requires ScanMembers(key, depth, st).Some?
    ensures ScanMembers(key, depth, st).value.nodes >= st.nodes
    decreases |st.rest|
  {
    hide ScanPayload, ScanName, ChildPath;
    var (kind, st1) := ScanByte(st).value;
    if kind != 0 {
      var (name, st2) := ScanName(st1).value;
      NameKeepsNodes(st1);
      PayloadBounded(kind, ChildPath(key, name), depth, st2);
      MembersGrow(key, depth, ScanPayload(kind, ChildPath(key, name), depth, st2).value);
    }
  }

  /** The scan takes only files that begin with a compound, and of those only such that count at most a
      million tags, nested no deeper than 64. */
  lemma ScanIsBounded(data: seq<byte>)
    requires ScanRoot(data).Some?
    ensures data != [] && data[0] == 10
    ensures exists st: ScanState :: st.nodes == 0 && |st.rest| < |data|
              && ScanPayload(10, [], 0, st).Some? && ScanPayload(10, [], 0, st).value.nodes <= 1000000
              && ScanRoot(data) == Some(ScanPayload(10, [], 0, st).value.result)
  {
    hide ScanPayload, ScanName;
    var (kind, st1) := ScanByte(ScanState(data, 0, NOTHING)).value;
    var (name, st2) := ScanName(st1).value;
    NameKeepsNodes(st1);
    PayloadBounded(10, [], 0, st2);
  }
}
