/**
  A document as its bytes spell it: the reader with strings left as raw bytes, and how that tree spells
  the decoded one. What a raw zero byte costs when the document is written again is counted on it.
 */
module NbtRaw {
  import opened Options
  import opened Bytes
  import opened ModifiedUtf8
  import opened Nbt

  /** The same tree, with every name and text value as bytes that spell it. */
  predicate Spells(raw: Tag, t: Tag)
    decreases raw, 0
  {
    && raw.kind == t.kind && raw.listType == t.listType && raw.values == t.values
    && TextOf(raw.name) == Some(t.name)
    && (if raw.kind == TEXT then TextOf(raw.value) == Some(t.value) else raw.value == t.value)
    && SpellsAll(raw.children, t.children)
  }

  predicate SpellsAll(raws: seq<Tag>, ts: seq<Tag>)
    decreases raws, 1
  {
    |raws| == |ts| && (raws != [] ==> Spells(raws[0], ts[0]) && SpellsAll(raws[1..], ts[1..]))
  }

  /** Raw zero bytes in the strings below a tag, its own value included and its own name not. */
  function Growth(raw: Tag): nat
    decreases raw, 0
  {
    (if raw.kind == TEXT then Zeros(raw.value) else 0) + GrowthAll(raw.children)
  }

  function GrowthAll(raws: seq<Tag>): nat
    decreases raws, 1
  {
    if raws == [] then 0 else Zeros(raws[0].name) + Growth(raws[0]) + GrowthAll(raws[1..])
  }

  /** With two bytes for each raw zero byte a string still has a length of 16 bits. */
  predicate Fits16(text: seq<byte>) {
    |text| + Zeros(text) <= MAX_TEXT
  }

  /** So has every string below a tag, its own value included and its own name not. */
  predicate StringsFit(raw: Tag)
    decreases raw, 0
  {
    (raw.kind == TEXT ==> Fits16(raw.value)) && AllStringsFit(raw.children)
  }

  predicate AllStringsFit(raws: seq<Tag>)
    decreases raws, 1
  {
    if raws == [] then true else Fits16(raws[0].name) && StringsFit(raws[0]) && AllStringsFit(raws[1..])
  }

  // ---- the raw reader follows the reader -----------------------------------------------------------------

  /** What the raw reader returns beside the reader. */
  ghost predicate Beside(raw: Option<(Tag, ReadState)>, t: Tag, after: ReadState) {
    raw.Some? && raw.value.1 == after && Spells(raw.value.0, t)
  }

  ghost predicate AllBeside(raw: Option<(seq<Tag>, ReadState)>, ts: seq<Tag>, after: ReadState) {
    raw.Some? && raw.value.1 == after && SpellsAll(raw.value.0, ts)
  }

  lemma {:induction false} TagSpelled(floats: FloatText, kind: byte, rawName: GoString, name: GoString, depth: nat,
                                      st: ReadState)
    requires ReadTag(floats, false, kind, name, depth, st).Some? && TextOf(rawName) == Some(name)
    ensures var (t, after) := ReadTag(floats, false, kind, name, depth, st).value;
            Beside(ReadTag(floats, true, kind, rawName, depth, st), t, after)
    decreases 66 - depth, 0
  {
    hide ReadList, ReadMembers, ReadNumber, ReadValues, TextOf;
    var st1 := st.(nodes := st.nodes + 1);
    if kind == LIST {
      var (listType, st2) := ReadByte(st1).value;
      var (n, st3) := ReadCount(1, st2).value;
      ListSpelled(floats, listType, n, depth + 1, st3);
    } else if kind == COMPOUND {
      MembersSpelled(floats, {}, {}, depth + 1, st1);
    } else if kind == TEXT {
      var (text, after) := ReadText(true, st1).value;
      assert TextOf(text) == Some(ReadText(false, st1).value.0);
      LeafSpelled(Leaf(TEXT, rawName, text), Leaf(TEXT, name, ReadText(false, st1).value.0));
    } else if IsArray(kind) {
      var t := ReadArray(kind, name, st1).value.0;
      LeafSpelled(t.(name := rawName), t);
    } else {
      var t := ReadScalar(floats, kind, name, st1).value.0;
      LeafSpelled(t.(name := rawName), t);
    }
  }

  lemma LeafSpelled(raw: Tag, t: Tag)
    requires raw == t.(name := raw.name, value := raw.value) && t.children == []
    requires TextOf(raw.name) == Some(t.name)
    requires if raw.kind == TEXT then TextOf(raw.value) == Some(t.value) else raw.value == t.value
    ensures Spells(raw, t)
  {
  }

  lemma {:induction false} ListSpelled(floats: FloatText, listType: byte, n: nat, depth: nat, st: ReadState)
    requires ReadList(floats, false, listType, n, depth, st).Some?
    ensures var (ts, after) := ReadList(floats, false, listType, n, depth, st).value;
            AllBeside(ReadList(floats, true, listType, n, depth, st), ts, after)
    decreases 66 - depth, 1, n
  {
    hide ReadTag, Spells, TextOf;
    if n > 0 {
      TextOfAscii([]);
      TagSpelled(floats, listType, [], [], depth, st);
      var st1 := ReadTag(floats, false, listType, [], depth, st).value.1;
      ListSpelled(floats, listType, n - 1, depth, st1);
    }
  }

  /** Names that differ as text differ as bytes, so the raw reader finds no duplicate the reader did not. */
  lemma {:induction false} MembersSpelled(floats: FloatText, rawNames: set<GoString>, names: set<GoString>, depth: nat,
                                          st: ReadState)
    requires ReadMembers(floats, false, names, depth, st).Some?
    requires forall r :: r in rawNames ==> TextOf(r).Some? && TextOf(r).value in names
    ensures var (ts, after) := ReadMembers(floats, false, names, depth, st).value;
            AllBeside(ReadMembers(floats, true, rawNames, depth, st), ts, after)
    decreases 66 - depth, 1, |st.rest|
  {
    hide ReadTag, Spells, TextOf, FromBigEndian;
    var (kind, st1) := ReadByte(st).value;
    if kind != 0 {
      var (name, st2) := ReadText(false, st1).value;
      var rawName := ReadText(true, st1).value.0;
      TagSpelled(floats, kind, rawName, name, depth, st2);
      var st3 := ReadTag(floats, false, kind, name, depth, st2).value.1;
      MembersSpelled(floats, rawNames + {rawName}, names + {name}, depth, st3);
    }
  }

  lemma RootSpelled(floats: FloatText, data: seq<byte>)
    requires ReadRoot(floats, false, data).Some?
    ensures ReadRoot(floats, true, data).Some?
    ensures Spells(ReadRoot(floats, true, data).value, ReadRoot(floats, false, data).value)
  {
    hide ReadTag, Spells, TextOf, FromBigEndian;
    var (kind, st1) := ReadByte(ReadState(data, 0, 0)).value;
    var (name, st2) := ReadText(false, st1).value;
    var rawName := ReadText(true, st1).value.0;
    TagSpelled(floats, kind, rawName, name, 0, st2);
  }
}
