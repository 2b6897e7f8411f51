/**
  What the reader may return (internal/nbt/nbt.go): every limit it documents, read off the tree it
  built rather than off its counters. Termination is the `decreases` clause of `Nbt.ReadTag`:
  nesting depth first, then the remaining children or the remaining bytes.
 */
module NbtSound {
  import opened Bytes
  import opened Nbt

  /** Tags in the tree, this one included. */
  function CountTags(t: Tag): nat
    decreases t, 0
  {
    1 + CountAll(t.children)
  }

  function CountAll(ts: seq<Tag>): nat
    decreases ts, 1
  {
    if ts == [] then 0 else CountTags(ts[0]) + CountAll(ts[1..])
  }

  /** Array elements and list children, summed over the tree. */
  function Elements(t: Tag): nat
    decreases t, 0
  {
    |t.values| + (if t.kind == LIST then |t.children| else 0) + ElementsAll(t.children)
  }

  function ElementsAll(ts: seq<Tag>): nat
    decreases ts, 1
  {
    if ts == [] then 0 else Elements(ts[0]) + ElementsAll(ts[1..])
  }

  /** No branch is longer than `limit` edges. */
  predicate Within(t: Tag, limit: int)
    decreases t, 0
  {
    limit >= 0 && AllWithin(t.children, limit - 1)
  }

  predicate AllWithin(ts: seq<Tag>, limit: int)
    decreases ts, 1
  {
    if ts == [] then true else Within(ts[0], limit) && AllWithin(ts[1..], limit)
  }

  predicate DistinctNames(ts: seq<Tag>) {
    forall i, j :: 0 <= i < j < |ts| ==> ts[i].name != ts[j].name
  }

  /** Unused fields are empty, list children are unnamed and of the list's type, and the names in a
      compound are distinct; everywhere in the tree. */
  predicate Shaped(t: Tag)
    decreases t, 0
  {
    && Structured(t)
    && t.listType <= 12
    && (t.kind == LIST ==> forall i :: 0 <= i < |t.children| ==>
          t.children[i].kind == t.listType && t.children[i].name == [])
    && (t.kind == COMPOUND ==> DistinctNames(t.children))
    && AllShaped(t.children)
  }

  predicate AllShaped(ts: seq<Tag>)
    decreases ts, 1
  {
    if ts == [] then true else Shaped(ts[0]) && AllShaped(ts[1..])
  }

  /** The counters are exactly the tree's own counts, and the limits held when they were checked. */
  ghost predicate Spent(st: ReadState, after: ReadState, tags: nat, elements: nat) {
    && after.nodes == st.nodes + tags
    && after.elements == st.elements + elements
    && (st.nodes <= MAX_NODES ==> after.nodes <= MAX_NODES)
    && (st.elements <= MAX_ELEMENTS ==> after.elements <= MAX_ELEMENTS)
  }

  lemma {:induction false} ValuesSound(width: nat, n: nat, st: ReadState)
    requires width > 0 && ReadValues(width, n, st).Some?
    ensures |ReadValues(width, n, st).value.0| == n
    ensures st.(rest := []) == ReadValues(width, n, st).value.1.(rest := [])
    decreases n
  {
    if n > 0 {
      ValuesSound(width, n - 1, ReadNumber(width, st).value.1);
    }
  }

  lemma {:induction false} TagSound(floats: FloatText, raw: bool, kind: byte, name: GoString, depth: nat,
                                    st: ReadState)
    requires ReadTag(floats, raw, kind, name, depth, st).Some?
    ensures var (t, after) := ReadTag(floats, raw, kind, name, depth, st).value;
            && t.kind == kind && t.name == name && Shaped(t) && Within(t, MAX_DEPTH - depth)
            && Spent(st, after, CountTags(t), Elements(t))
    decreases 66 - depth, 0
  {
    hide ReadList, ReadMembers, ReadArray, ReadText, ScalarText, FromBigEndian;
    var st1 := st.(nodes := st.nodes + 1);
    if IsArray(kind) {
      ArraySound(kind, name, st1);
    } else if kind == TEXT {
      TextSound(raw, st1);
    } else if kind == LIST {
      ListTagSound(floats, raw, name, depth, st);
    } else if kind == COMPOUND {
      MembersSound(floats, raw, {}, depth + 1, st1);
    }
  }

  lemma ArraySound(kind: byte, name: GoString, st: ReadState)
    requires IsArray(kind) && ReadArray(kind, name, st).Some?
    ensures var (t, after) := ReadArray(kind, name, st).value;
            t == Tag(kind, name, [], [], 0, t.values) && Spent(st, after, 0, |t.values|)
  {
    hide ReadValues, FromBigEndian;
    var (n, st1) := ReadCount(Width(kind), st).value;
    ValuesSound(Width(kind), n, st1);
  }

  lemma TextSound(raw: bool, st: ReadState)
    requires ReadText(raw, st).Some?
    ensures Spent(st, ReadText(raw, st).value.1, 0, 0)
  {
  }

  lemma {:induction false} ListTagSound(floats: FloatText, raw: bool, name: GoString, depth: nat, st: ReadState)
    requires ReadTag(floats, raw, LIST, name, depth, st).Some?
    ensures var (t, after) := ReadTag(floats, raw, LIST, name, depth, st).value;
            && t.kind == LIST && t.name == name && Shaped(t) && Within(t, MAX_DEPTH - depth)
            && Spent(st, after, CountTags(t), Elements(t))
    decreases 65 - depth, 3
  {
    hide ReadList, ReadMembers, FromBigEndian;
    var st1 := st.(nodes := st.nodes + 1);
    var (listType, st2) := ReadByte(st1).value;
    var (n, st3) := ReadCount(1, st2).value;
    ListSound(floats, raw, listType, n, depth + 1, st3);
  }

  lemma {:induction false} ListSound(floats: FloatText, raw: bool, listType: byte, n: nat, depth: nat, st: ReadState)
    requires ReadList(floats, raw, listType, n, depth, st).Some?
    ensures var (ts, after) := ReadList(floats, raw, listType, n, depth, st).value;
            && |ts| == n && AllShaped(ts) && AllWithin(ts, MAX_DEPTH - depth)
            && Spent(st, after, CountAll(ts), ElementsAll(ts))
            && forall i :: 0 <= i < n ==> ts[i].kind == listType && ts[i].name == []
    decreases 66 - depth, 1, n
  {
    hide ReadTag, Shaped, Within, CountTags, Elements;
    if n > 0 {
      var (t, st1) := ReadTag(floats, raw, listType, [], depth, st).value;
      var (ts, after) := ReadList(floats, raw, listType, n - 1, depth, st1).value;
      TagSound(floats, raw, listType, [], depth, st);
      ListSound(floats, raw, listType, n - 1, depth, st1);
      assert ([t] + ts)[1..] == ts;
    }
  }

  lemma {:induction false} MembersSound(floats: FloatText, raw: bool, names: set<GoString>, depth: nat,
                                        st: ReadState)
    requires ReadMembers(floats, raw, names, depth, st).Some?
    ensures var (ts, after) := ReadMembers(floats, raw, names, depth, st).value;
            && AllShaped(ts) && AllWithin(ts, MAX_DEPTH - depth)
            && Spent(st, after, CountAll(ts), ElementsAll(ts))
            && DistinctNames(ts) && forall i :: 0 <= i < |ts| ==> ts[i].name !in names
    decreases 66 - depth, 1, |st.rest|
  {
    hide ReadTag, Shaped, Within, CountTags, Elements, FromBigEndian;
    var (kind, st1) := ReadByte(st).value;
    if kind != 0 {
      var (name, st2) := ReadText(raw, st1).value;
      var (t, st3) := ReadTag(floats, raw, kind, name, depth, st2).value;
      var (ts, after) := ReadMembers(floats, raw, names + {name}, depth, st3).value;
      TagSound(floats, raw, kind, name, depth, st2);
      MembersSound(floats, raw, names + {name}, depth, st3);
      assert ([t] + ts)[1..] == ts;
    }
  }

  /** Every document Decode returns, whatever the input, is within the documented limits, and so are the
      file it came from and, if that was compressed, what it unpacks to. */
  lemma DecodeIsBounded(floats: FloatText, packer: Compressor, data: seq<byte>)
    requires DecodeSpec(floats, packer, data).Some?
    ensures var root := DecodeSpec(floats, packer, data).value.root;
            && CountTags(root) <= 100000
            && Elements(root) <= 1000000
            && Within(root, 64)
            && Shaped(root)
    ensures |data| <= 16777216
    ensures Sniff(data) != Plain ==>
              packer.inflate(Sniff(data), data).Some? && |packer.inflate(Sniff(data), data).value| <= 16777216
  {
    hide ReadTag, FromBigEndian, Shaped, Within, CountTags, Elements, Sniff;
    var plain := if Sniff(data) == Plain then data else packer.inflate(Sniff(data), data).value;
    var (kind, st1) := ReadByte(ReadState(plain, 0, 0)).value;
    var (name, st2) := ReadText(false, st1).value;
    TagSound(floats, false, kind, name, 0, st2);
  }
}
