/**
  The skip-scan agrees with the full reader: on every file the reader accepts with a compound root,
  the scan succeeds and its three facts are facts about the tree, byte for byte as the file spells it.
 */
module WorldScanRefines {
  import opened Options
  import opened Bytes
  import opened ModifiedUtf8
  import opened Nbt
  import opened NbtRaw
  import opened NbtSound
  import opened WorldScan

  /** A tag and its slash-joined path of names. */
  datatype Visit = Visit(path: GoString, tag: Tag)

  /** Every tag of a tree in document order, a parent before its children. */
  function Visits(path: GoString, t: Tag): seq<Visit>
    decreases t, 0
  {
    [Visit(path, t)]
    + (if t.kind == LIST then VisitsOfList(path, t.children)
       else if t.kind == COMPOUND then VisitsOfMembers(path, t.children)
       else [])
  }

  function VisitsOfList(path: GoString, ts: seq<Tag>): seq<Visit>
    decreases ts, 1
  {
    if ts == [] then [] else Visits(path + LIST_STEP, ts[0]) + VisitsOfList(path, ts[1..])
  }

  function VisitsOfMembers(path: GoString, ts: seq<Tag>): seq<Visit>
    decreases ts, 1
  {
    if ts == [] then [] else Visits(ChildPath(path, ts[0].name), ts[0]) + VisitsOfMembers(path, ts[1..])
  }

  /** The value of the last tag of a kind whose path is one of `paths`. */
  ghost function LastAt(vs: seq<Visit>, kind: byte, paths: iset<GoString>): Option<GoString> {
    if vs == [] then None
    else
      var last := vs[|vs| - 1];
      if last.tag.kind == kind && last.path in paths then Some(last.tag.value)
      else LastAt(vs[..|vs| - 1], kind, paths)
  }

  ghost const SEED_PATHS: iset<GoString> := iset p | IsSeedPath(p)

  /** What the three facts mean on the raw tree: the scan keeps strings as bytes. */
  ghost predicate Agrees(found: Metadata, vs: seq<Visit>) {
    && (found.worldData <==> LastAt(vs, COMPOUND, iset{DATA}).Some?)
    && found.seed == LastAt(vs, 4, SEED_PATHS)
    && found.version == (var last := LastAt(vs, TEXT, iset{VERSION_NAME}); if last.None? then [] else last.value)
  }

  /** And on the decoded tree. */
  ghost predicate AgreesAsText(found: Metadata, vs: seq<Visit>) {
    && (found.worldData <==> LastAt(vs, COMPOUND, iset{DATA}).Some?)
    && found.seed == LastAt(vs, 4, SEED_PATHS)
    && TextOf(found.version)
       == (var last := LastAt(vs, TEXT, iset{VERSION_NAME}); if last.None? then Some([]) else last)
  }

  lemma LastOfOne(vs: seq<Visit>, v: Visit, kind: byte, paths: iset<GoString>)
    ensures LastAt(vs + [v], kind, paths)
         == if v.tag.kind == kind && v.path in paths then Some(v.tag.value) else LastAt(vs, kind, paths)
  {
    assert (vs + [v])[..|vs|] == vs;
  }

  /** One more visit, and what the scan must have done to its result on it. */
  lemma AgreesStep(found: Metadata, vs: seq<Visit>, v: Visit, found': Metadata)
    requires Agrees(found, vs)
    requires found'.worldData == (found.worldData || (v.tag.kind == COMPOUND && v.path == DATA))
    requires found'.seed == if v.tag.kind == 4 && IsSeedPath(v.path) then Some(v.tag.value) else found.seed
    requires found'.version == if v.tag.kind == TEXT && v.path == VERSION_NAME then v.tag.value else found.version
    ensures Agrees(found', vs + [v])
  {
    hide Ascii;
    LastOfOne(vs, v, COMPOUND, iset{DATA});
    LastOfOne(vs, v, 4, SEED_PATHS);
    LastOfOne(vs, v, TEXT, iset{VERSION_NAME});
  }

  // ---- paths ------------------------------------------------------------------------------------------

  /** A raw path and the decoded path it stands for. */
  ghost predicate Decodes(raw: GoString, path: GoString) {
    TextOf(raw) == Some(path)
  }

  lemma DecodesList(raw: GoString, path: GoString)
    requires Decodes(raw, path)
    ensures Decodes(raw + LIST_STEP, path + LIST_STEP)
  {
    hide TextOf, Ascii;
    TextOfAscii(LIST_STEP);
    TextOfConcat(raw, LIST_STEP);
  }

  lemma DecodesChild(raw: GoString, path: GoString, rawName: GoString, name: GoString)
    requires Decodes(raw, path) && TextOf(rawName) == Some(name)
    ensures Decodes(ChildPath(raw, rawName), ChildPath(path, name))
  {
    hide TextOf;
    TextOfAscii([SLASH]);
    TextOfConcat(raw, [SLASH]);
    TextOfConcat(raw + [SLASH], rawName);
    var r, p := raw + [SLASH] + rawName, path + [SLASH] + name;
    if r[0] == SLASH || p[0] == SLASH {
      AsciiHead(r, p);
    }
  }

  lemma SameTests(raw: GoString, path: GoString)
    requires Decodes(raw, path)
    ensures raw == DATA <==> path == DATA
    ensures raw == VERSION_NAME <==> path == VERSION_NAME
    ensures IsSeedPath(raw) <==> IsSeedPath(path)
  {
    hide TextOf, Ascii;
    SameAsConstant(raw, path, DATA);
    SameAsConstant(raw, path, VERSION_NAME);
    SameAsConstant(raw, path, Ascii("Data/RandomSeed"));
    SameAsConstant(raw, path, Ascii("Data/WorldGenSettings/seed"));
    SameAsConstant(raw, path, Ascii("data/seed"));
    SameAsConstant(raw, path, Ascii("seed"));
  }

  // ---- the walk -----------------------------------------------------------------------------------------

  /** The two readers are at the same place, and have counted the same tags. */
  ghost predicate Together(st: ReadState, scan: ScanState) {
    scan.rest == st.rest && scan.nodes == st.nodes
  }

  /** What one scanning call promises after the reader read the visits `more`. */
  ghost predicate Scanned(after: ReadState, scan': Option<ScanState>, vs: seq<Visit>, more: seq<Visit>) {
    scan'.Some? && Together(after, scan'.value) && Agrees(scan'.value.result, vs + more)
  }

  lemma {:induction false} ValuesSkipped(width: nat, n: nat, st: ReadState)
    requires width > 0 && ReadValues(width, n, st).Some?
    ensures n * width <= |st.rest| && ReadValues(width, n, st).value.1.rest == st.rest[n * width..]
    ensures ReadValues(width, n, st).value.1.nodes == st.nodes
    decreases n
  {
    hide FromBigEndian, IntegerText, Pow256;
    if n > 0 {
      var st1 := ReadNumber(width, st).value.1;
      ValuesSkipped(width, n - 1, st1);
      assert n * width == width + (n - 1) * width;
      assert st.rest[width..][(n - 1) * width..] == st.rest[n * width..];
    }
  }

  lemma ScalarScanned(floats: FloatText, kind: byte, name: GoString, path: GoString, depth: nat,
                      st: ReadState, scan: ScanState, vs: seq<Visit>)
    requires IsInteger(kind) || IsFloat(kind)
    requires ReadTag(floats, true, kind, name, depth, st).Some?
    requires Together(st, scan) && Agrees(scan.result, vs)
    ensures var (t, after) := ReadTag(floats, true, kind, name, depth, st).value;
            Scanned(after, ScanPayload(kind, path, depth, scan), vs, Visits(path, t))
  {
    hide FromBigEndian, Pow256, Agrees, IsSeedPath, ReadList, ReadMembers, ScanList, ScanMembers, FormatInt;
    var (t, after) := ReadTag(floats, true, kind, name, depth, st).value;
    AgreesStep(scan.result, vs, Visit(path, t), ScanPayload(kind, path, depth, scan).value.result);
    assert Visits(path, t) == [Visit(path, t)];
  }

  lemma ArrayScanned(floats: FloatText, kind: byte, name: GoString, path: GoString, depth: nat,
                     st: ReadState, scan: ScanState, vs: seq<Visit>)
    requires IsArray(kind)
    requires ReadTag(floats, true, kind, name, depth, st).Some?
    requires Together(st, scan) && Agrees(scan.result, vs)
    ensures var (t, after) := ReadTag(floats, true, kind, name, depth, st).value;
            Scanned(after, ScanPayload(kind, path, depth, scan), vs, Visits(path, t))
  {
    hide FromBigEndian, Pow256, Agrees, IsSeedPath, ReadList, ReadMembers, ReadValues, ScanList, ScanMembers;
    var (n, st1) := ReadCount(Width(kind), st.(nodes := st.nodes + 1)).value;
    ValuesSkipped(Width(kind), n, st1);
    var (t, after) := ReadTag(floats, true, kind, name, depth, st).value;
    AgreesStep(scan.result, vs, Visit(path, t), scan.result);
    assert Visits(path, t) == [Visit(path, t)];
  }

  lemma TextScanned(floats: FloatText, name: GoString, path: GoString, depth: nat,
                    st: ReadState, scan: ScanState, vs: seq<Visit>)
    requires ReadTag(floats, true, TEXT, name, depth, st).Some?
    requires Together(st, scan) && Agrees(scan.result, vs)
    ensures var (t, after) := ReadTag(floats, true, TEXT, name, depth, st).value;
            Scanned(after, ScanPayload(TEXT, path, depth, scan), vs, Visits(path, t))
  {
    hide FromBigEndian, Pow256, Agrees, IsSeedPath, TextOf, ReadList, ReadMembers, ScanList, ScanMembers, Ascii;
    var (t, after) := ReadTag(floats, true, TEXT, name, depth, st).value;
    AgreesStep(scan.result, vs, Visit(path, t), ScanPayload(TEXT, path, depth, scan).value.result);
    assert Visits(path, t) == [Visit(path, t)];
  }

  lemma {:induction false} TagScanned(floats: FloatText, kind: byte, name: GoString, path: GoString,
                                      depth: nat, st: ReadState, scan: ScanState, vs: seq<Visit>)
    requires ReadTag(floats, true, kind, name, depth, st).Some?
    requires Together(st, scan) && Agrees(scan.result, vs)
    ensures var (t, after) := ReadTag(floats, true, kind, name, depth, st).value;
            Scanned(after, ScanPayload(kind, path, depth, scan), vs, Visits(path, t))
    decreases 66 - depth, 0
  {
    hide FromBigEndian, Pow256, Agrees, IsSeedPath, ReadList, ReadMembers, ScanList, ScanMembers,
         ReadScalar, ReadArray, ReadText, ScanArray, ScanLong, ScanString, Scanned, Visits;
    if IsInteger(kind) || IsFloat(kind) {
      ScalarScanned(floats, kind, name, path, depth, st, scan, vs);
    } else if IsArray(kind) {
      ArrayScanned(floats, kind, name, path, depth, st, scan, vs);
    } else if kind == TEXT {
      TextScanned(floats, name, path, depth, st, scan, vs);
    } else if kind == LIST {
      ListTagScanned(floats, name, path, depth, st, scan, vs);
    } else {
      CompoundScanned(floats, name, path, depth, st, scan, vs);
    }
  }

  lemma {:induction false} ListTagScanned(floats: FloatText, name: GoString, path: GoString,
                                          depth: nat, st: ReadState, scan: ScanState, vs: seq<Visit>)
    requires ReadTag(floats, true, LIST, name, depth, st).Some?
    requires Together(st, scan) && Agrees(scan.result, vs)
    ensures var (t, after) := ReadTag(floats, true, LIST, name, depth, st).value;
            Scanned(after, ScanPayload(LIST, path, depth, scan), vs, Visits(path, t))
    decreases 65 - depth, 3
  {
    hide FromBigEndian, Pow256, Agrees, IsSeedPath, ReadList, ReadMembers, ScanList, ScanMembers, VisitsOfList;
    var st1 := st.(nodes := st.nodes + 1);
    var (listType, st2) := ReadByte(st1).value;
    var (n, st3) := ReadCount(1, st2).value;
    var (t, after) := ReadTag(floats, true, LIST, name, depth, st).value;
    AgreesStep(scan.result, vs, Visit(path, t), scan.result);
    var scan3 := ScanState(st3.rest, st3.nodes, scan.result);
    ListScanned(floats, listType, n, path, depth + 1, st3, scan3, vs + [Visit(path, t)]);
    Assoc(vs, [Visit(path, t)], VisitsOfList(path, t.children));
  }

  lemma {:induction false} CompoundScanned(floats: FloatText, name: GoString, path: GoString,
                                           depth: nat, st: ReadState, scan: ScanState, vs: seq<Visit>)
    requires ReadTag(floats, true, COMPOUND, name, depth, st).Some?
    requires Together(st, scan) && Agrees(scan.result, vs)
    ensures var (t, after) := ReadTag(floats, true, COMPOUND, name, depth, st).value;
            Scanned(after, ScanPayload(COMPOUND, path, depth, scan), vs, Visits(path, t))
    decreases 65 - depth, 3
  {
    hide FromBigEndian, Pow256, Agrees, IsSeedPath, ReadList, ReadMembers, ScanList, ScanMembers,
         VisitsOfMembers, Ascii;
    var st1 := st.(nodes := st.nodes + 1);
    var (t, after) := ReadTag(floats, true, COMPOUND, name, depth, st).value;
    var found := if path == DATA then scan.result.(worldData := true) else scan.result;
    AgreesStep(scan.result, vs, Visit(path, t), found);
    var scan1 := ScanState(st.rest, st.nodes + 1, found);
    MembersScanned(floats, {}, path, depth + 1, st1, scan1, vs + [Visit(path, t)]);
    Assoc(vs, [Visit(path, t)], VisitsOfMembers(path, t.children));
  }

  lemma {:induction false} ListScanned(floats: FloatText, listType: byte, n: nat, path: GoString,
                                       depth: nat, st: ReadState, scan: ScanState, vs: seq<Visit>)
    requires ReadList(floats, true, listType, n, depth, st).Some?
    requires Together(st, scan) && Agrees(scan.result, vs)
    ensures var (ts, after) := ReadList(floats, true, listType, n, depth, st).value;
            Scanned(after, ScanList(listType, path, n, depth, scan), vs, VisitsOfList(path, ts))
    decreases 66 - depth, 1, n
  {
    hide ReadTag, ScanPayload, Agrees, Visits, Ascii;
    if n == 0 {
      assert vs + [] == vs;
    } else {
      TagScanned(floats, listType, [], path + LIST_STEP, depth, st, scan, vs);
      var (t, st1) := ReadTag(floats, true, listType, [], depth, st).value;
      var scan1 := ScanPayload(listType, path + LIST_STEP, depth, scan).value;
      var first := Visits(path + LIST_STEP, t);
      ListScanned(floats, listType, n - 1, path, depth, st1, scan1, vs + first);
      var (ts, after) := ReadList(floats, true, listType, n - 1, depth, st1).value;
      assert ([t] + ts)[1..] == ts;
      Assoc(vs, first, VisitsOfList(path, ts));
    }
  }

  lemma {:induction false} MembersScanned(floats: FloatText, names: set<GoString>, path: GoString,
                                          depth: nat, st: ReadState, scan: ScanState, vs: seq<Visit>)
    requires ReadMembers(floats, true, names, depth, st).Some?
    requires Together(st, scan) && Agrees(scan.result, vs)
    ensures var (ts, after) := ReadMembers(floats, true, names, depth, st).value;
            Scanned(after, ScanMembers(path, depth, scan), vs, VisitsOfMembers(path, ts))
    decreases 66 - depth, 1, |st.rest|
  {
    hide ReadTag, ScanPayload, Agrees, Visits, ChildPath, ReadText, ScanName;
    var (kind, st1) := ReadByte(st).value;
    if kind == 0 {
      assert vs + [] == vs;
    } else {
      var scan1 := scan.(rest := st1.rest);
      var (name, st2) := ReadText(true, st1).value;
      NameScanned(st1, scan1);
      var scan2 := ScanName(scan1).value.1;
      var child := ChildPath(path, name);
      var (t, st3) := ReadTag(floats, true, kind, name, depth, st2).value;
      TagScanned(floats, kind, name, child, depth, st2, scan2, vs);
      TagNamed(floats, kind, name, depth, st2);
      var scan3 := ScanPayload(kind, child, depth, scan2).value;
      var first := Visits(child, t);
      MembersScanned(floats, names + {name}, path, depth, st3, scan3, vs + first);
      var (ts, after) := ReadMembers(floats, true, names + {name}, depth, st3).value;
      assert ([t] + ts)[1..] == ts;
      Assoc(vs, first, VisitsOfMembers(path, ts));
    }
  }

  lemma NameScanned(st: ReadState, scan: ScanState)
    requires ReadText(true, st).Some? && Together(st, scan)
    ensures var (name, st1) := ReadText(true, st).value;
            var r := ScanName(scan);
            r.Some? && r.value.0 == name && Together(st1, r.value.1) && r.value.1.result == scan.result
  {
    hide TextOf, FromBigEndian, Pow256;
  }

  lemma TagNamed(floats: FloatText, kind: byte, name: GoString, depth: nat, st: ReadState)
    requires ReadTag(floats, true, kind, name, depth, st).Some?
    ensures ReadTag(floats, true, kind, name, depth, st).value.0.name == name
  {
    hide ReadTag, Shaped, Within, CountTags, Elements;
    TagSound(floats, true, kind, name, depth, st);
  }

  lemma RootScanned(floats: FloatText, data: seq<byte>)
    requires ReadRoot(floats, true, data).Some? && ReadRoot(floats, true, data).value.kind == COMPOUND
    ensures ScanRoot(data).Some?
    ensures Agrees(ScanRoot(data).value, Visits([], ReadRoot(floats, true, data).value))
  {
    hide ReadTag, ScanPayload, ReadText, ScanName, Agrees, Visits, TextOf, Shaped, Within, CountTags, Elements;
    var (kind, st1) := ReadByte(ReadState(data, 0, 0)).value;
    var (name, st2) := ReadText(true, st1).value;
    var scan1 := ScanState(st1.rest, 0, NOTHING);
    NameScanned(st1, scan1);
    NameKeepsCount(st1);
    var scan2 := ScanName(scan1).value.1;
    AgreesAtStart();
    TagSound(floats, true, kind, name, 0, st2);
    TagScanned(floats, kind, name, [], 0, st2, scan2, []);
    var t := ReadTag(floats, true, kind, name, 0, st2).value.0;
    assert [] + Visits([], t) == Visits([], t);
  }

  lemma NameKeepsCount(st: ReadState)
    requires ReadText(true, st).Some?
    ensures ReadText(true, st).value.1.nodes == st.nodes
  {
  }

  lemma AgreesAtStart()
    ensures Agrees(NOTHING, [])
  {
  }

  // ---- from bytes to text ---------------------------------------------------------------------------------

  /** The same tag at the same place, as bytes and as text. */
  ghost predicate SameVisit(v: Visit, u: Visit) {
    Decodes(v.path, u.path) && v.tag.kind == u.tag.kind
    && (if v.tag.kind == TEXT then TextOf(v.tag.value) == Some(u.tag.value) else v.tag.value == u.tag.value)
  }

  ghost predicate SameVisits(vs: seq<Visit>, us: seq<Visit>) {
    |vs| == |us| && forall i :: 0 <= i < |vs| ==> SameVisit(vs[i], us[i])
  }

  lemma {:induction false} VisitsSpelled(rawPath: GoString, path: GoString, raw: Tag, t: Tag)
    requires Decodes(rawPath, path) && Spells(raw, t)
    ensures SameVisits(Visits(rawPath, raw), Visits(path, t))
    decreases raw, 0
  {
    hide TextOf, Decodes;
    if raw.kind == LIST {
      ListVisitsSpelled(rawPath, path, raw.children, t.children);
    } else if raw.kind == COMPOUND {
      MemberVisitsSpelled(rawPath, path, raw.children, t.children);
    }
  }

  lemma {:induction false} ListVisitsSpelled(rawPath: GoString, path: GoString, raws: seq<Tag>, ts: seq<Tag>)
    requires Decodes(rawPath, path) && SpellsAll(raws, ts)
    ensures SameVisits(VisitsOfList(rawPath, raws), VisitsOfList(path, ts))
    decreases raws, 1
  {
    hide TextOf, Decodes, Spells, Ascii, SameVisit, Visits;
    if raws != [] {
      DecodesList(rawPath, path);
      VisitsSpelled(rawPath + LIST_STEP, path + LIST_STEP, raws[0], ts[0]);
      ListVisitsSpelled(rawPath, path, raws[1..], ts[1..]);
    }
  }

  lemma {:induction false} MemberVisitsSpelled(rawPath: GoString, path: GoString, raws: seq<Tag>, ts: seq<Tag>)
    requires Decodes(rawPath, path) && SpellsAll(raws, ts)
    ensures SameVisits(VisitsOfMembers(rawPath, raws), VisitsOfMembers(path, ts))
    decreases raws, 1
  {
    hide TextOf, Decodes, ChildPath, SameVisit, Visits;
    if raws != [] {
      DecodesChild(rawPath, path, raws[0].name, ts[0].name);
      VisitsSpelled(ChildPath(rawPath, raws[0].name), ChildPath(path, ts[0].name), raws[0], ts[0]);
      MemberVisitsSpelled(rawPath, path, raws[1..], ts[1..]);
    }
  }

  lemma {:induction false} LastSpelled(vs: seq<Visit>, us: seq<Visit>, kind: byte, paths: iset<GoString>)
    requires SameVisits(vs, us)
    requires forall i :: 0 <= i < |vs| ==> (vs[i].path in paths <==> us[i].path in paths)
    ensures var v, u := LastAt(vs, kind, paths), LastAt(us, kind, paths);
      if v.None? then u.None? else u.Some? && (if kind == TEXT then TextOf(v.value) == u else v == u)
  {
    hide TextOf, Decodes;
    if vs != [] {
      assert SameVisit(vs[|vs| - 1], us[|us| - 1]);
      LastSpelled(vs[..|vs| - 1], us[..|us| - 1], kind, paths);
    }
  }

  lemma AgreesTransfer(found: Metadata, vs: seq<Visit>, us: seq<Visit>)
    requires Agrees(found, vs) && SameVisits(vs, us)
    ensures AgreesAsText(found, us)
  {
    hide TextOf, LastAt, IsSeedPath, Ascii;
    TextOfAscii([]);
    forall i | 0 <= i < |vs|
      ensures vs[i].path == DATA <==> us[i].path == DATA
      ensures vs[i].path == VERSION_NAME <==> us[i].path == VERSION_NAME
      ensures IsSeedPath(vs[i].path) <==> IsSeedPath(us[i].path)
    {
      SameTests(vs[i].path, us[i].path);
    }
    LastSpelled(vs, us, COMPOUND, iset{DATA});
    LastSpelled(vs, us, 4, SEED_PATHS);
    LastSpelled(vs, us, TEXT, iset{VERSION_NAME});
  }

  /** On every file the tree reader accepts with a compound root, the scan succeeds. Its seed is the last
      Long in document order at one of the four seed paths, it reports world data exactly when a compound
      sits at path Data, and its version is the bytes of the last string at Data/Version/Name: on the tree
      as the file spells it, and so, with the version decoded, on the tree that Decode returns. */
  lemma ScanRefinesDecode(floats: FloatText, data: seq<byte>)
    requires ReadRoot(floats, false, data).Some? && ReadRoot(floats, false, data).value.kind == COMPOUND
    ensures ScanRoot(data).Some? && ReadRoot(floats, true, data).Some?
    ensures Agrees(ScanRoot(data).value, Visits([], ReadRoot(floats, true, data).value))
    ensures AgreesAsText(ScanRoot(data).value, Visits([], ReadRoot(floats, false, data).value))
  {
    hide ReadRoot, ScanRoot, Agrees, AgreesAsText, Visits, TextOf, SpellsAll;
    RootSpelled(floats, data);
    var raw, t := ReadRoot(floats, true, data).value, ReadRoot(floats, false, data).value;
    RootScanned(floats, data);
    TextOfAscii([]);
    VisitsSpelled([], [], raw, t);
    AgreesTransfer(ScanRoot(data).value, Visits([], raw), Visits([], t));
  }
}
