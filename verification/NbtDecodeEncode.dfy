/**
  Decode, then Encode (internal/nbt/nbt.go): what becomes of every file the reader accepts. A payload is
  written back byte for byte exactly when no string in it contains a raw zero byte; it is written back at
  all exactly when it still fits with each of those taking two bytes, so every other length, limit and
  structure check of the writer is implied by the reader's; and a file comes back through both exactly
  when it also fits after compression, or does not turn into something that looks compressed.
 */
module NbtDecodeEncode {
  import opened Options
  import opened Bytes
  import opened ModifiedUtf8
  import opened Nbt
  import opened NbtEncodeDecode
  import opened NbtRaw
  import opened NbtSound

  // ---- literals -------------------------------------------------------------------------------------

  /** Every NaN keeps its payload bits: its text parses back to exactly those bits. */
  lemma NaNKeepsBits(floats: FloatText, bits: nat, width: nat)
    requires IsNaN(bits, width) && bits < Pow256(width)
    ensures FloatBits(floats, FormatFloat(floats, bits, width), width) == Some(bits)
  {
    var s := FormatFloat(floats, bits, width);
    assert s[..6] == NAN_PREFIX && s[6..] == FormatHex(bits);
    HexDigitsOfFormat(bits);
  }

  lemma ScalarForward(floats: FloatText, kind: byte, bits: nat)
    requires Faithful(floats)
    requires (IsInteger(kind) || IsFloat(kind)) && bits < Pow256(Width(kind))
    ensures ScalarBits(floats, kind, ScalarText(floats, kind, bits)) == Some(bits)
  {
    var width := Width(kind);
    if IsFloat(kind) {
      if IsNaN(bits, width) {
        NaNKeepsBits(floats, bits, width);
      }
    } else {
      ParseFormat(FromBits(bits, width), width);
    }
  }

  lemma NumberForward(width: nat, st: ReadState)
    requires ReadNumber(width, st).Some?
    ensures st.rest == BigEndian(ReadNumber(width, st).value.0, width) + ReadNumber(width, st).value.1.rest
  {
    FromBigEndianInverse(st.rest[..width]);
    assert st.rest == st.rest[..width] + st.rest[width..];
  }

  // ---- strings --------------------------------------------------------------------------------------

  /** What the writer makes of something read: it is `growth` bytes longer, and the same bytes if that is
      none; it is written if its strings fit and there is room, and only if they fit; and the writer
      spends exactly what the reader spent. */
  ghost predicate Rewritten(fit: bool, growth: nat, st: ReadState, after: ReadState, w: WriteState,
                            w': Option<WriteState>, b: seq<byte>) {
    && |b| == |st.rest| - |after.rest| + growth
    && (growth == 0 ==> fit && st.rest == b + after.rest)
    && (fit && |w.out| + |b| <= MAX_BYTES ==> w'.Some?)
    && (w'.Some? ==> fit && w'.value == WriteState(w.out + b, after.nodes, after.elements))
  }

  lemma TextForward(st: ReadState, w: WriteState) returns (b: seq<byte>)
    requires ReadText(true, st).Some? && w.nodes == st.nodes && w.elements == st.elements
    ensures var (text, after) := ReadText(true, st).value;
            TextOf(text).Some?
            && Rewritten(Fits16(text), Zeros(text), st, after, w, WriteText(TextOf(text).value, w), b)
  {
    hide UnitsOfBytes, UnitsOf, RunesOf, Utf8, FromUtf8, BigEndian, FromBigEndian, BytesOf, Escaped;
    var (size, st1) := ReadNumber(2, st).value;
    var text := st1.rest[..size];
    var s := TextOf(text).value;
    NumberForward(2, st);
    EncodeAfterDecode(text);
    EscapedSame(text);
    EarlyLengthTestIsRedundant(s);
    assert Pow256(2) == 65536;
    b := BigEndian(|Escaped(text)|, 2) + Escaped(text);
    assert st1.rest == text + st1.rest[size..];
    Assoc(BigEndian(size, 2), text, st1.rest[size..]);
    Assoc(w.out, BigEndian(|Escaped(text)|, 2), Escaped(text));
    assert ValidString(s) && BytesOf(s) == Escaped(text) && |s| <= |Escaped(text)|;
    assert WriteText(s, w) == if Fits16(text) then Some(Append(w, b)) else None;
    assert |b| == 2 + size + Zeros(text) && |st.rest| == 2 + size + |st1.rest[size..]|;
  }

  lemma {:induction false} ValuesForward(width: nat, n: nat, st: ReadState, w: WriteState) returns (b: seq<byte>)
    requires width > 0 && ReadValues(width, n, st).Some?
    ensures |ReadValues(width, n, st).value.0| == n
    ensures st.rest == b + ReadValues(width, n, st).value.1.rest
    ensures st.(rest := []) == ReadValues(width, n, st).value.1.(rest := [])
    ensures WriteValues(width, ReadValues(width, n, st).value.0, w) == Some(Append(w, b))
    decreases n
  {
    hide BigEndian, FromBigEndian, FormatInt, ParseInt;
    if n == 0 {
      b := [];
      assert w.out + b == w.out && st.rest == b + st.rest;
    } else {
      var (bits, st1) := ReadNumber(width, st).value;
      var first := BigEndian(bits, width);
      NumberForward(width, st);
      ParseFormat(FromBits(bits, width), width);
      var rest := ValuesForward(width, n - 1, st1, Append(w, first));
      b := first + rest;
      var (vs, st2) := ReadValues(width, n - 1, st1).value;
      assert ([IntegerText(bits, width)] + vs)[1..] == vs;
      Assoc(first, rest, st2.rest);
      Assoc(w.out, first, rest);
    }
  }

  lemma CountForward(width: nat, st: ReadState)
    requires ReadCount(width, st).Some?
    ensures var (n, st1) := ReadCount(width, st).value;
            st.rest == BigEndian(n, 4) + st1.rest && n + st.elements <= MAX_ELEMENTS
            && st1 == ReadState(st1.rest, st.nodes, st.elements + n)
  {
    NumberForward(4, st);
  }

  // ---- the tree -------------------------------------------------------------------------------------

  lemma {:induction false} TagForward(floats: FloatText, kind: byte, rawName: GoString, depth: nat, st: ReadState,
                                      t: Tag, w: WriteState) returns (b: seq<byte>)
    requires Faithful(floats)
    requires ReadTag(floats, true, kind, rawName, depth, st).Some?
    requires Spells(ReadTag(floats, true, kind, rawName, depth, st).value.0, t) && Shaped(t)
    requires w.nodes == st.nodes && w.elements == st.elements
    ensures var (raw, after) := ReadTag(floats, true, kind, rawName, depth, st).value;
            raw.kind == kind && raw.name == rawName && 1 <= kind <= 12
            && Rewritten(StringsFit(raw), Growth(raw), st, after, w, WriteTag(floats, t, depth, w), b)
    decreases 66 - depth, 0
  {
    hide ReadList, ReadMembers, ReadText, ReadValues, WriteList, WriteMembers, WriteValues, WriteText, BigEndian,
         ScalarText, ScalarBits, Faithful, ReadCount, TextOf, SpellsAll, AllShaped;
    var st1, w1 := st.(nodes := st.nodes + 1), w.(nodes := w.nodes + 1);
    if IsInteger(kind) || IsFloat(kind) {
      b := ScalarTagForward(floats, kind, rawName, depth, st, t, w);
    } else if IsArray(kind) {
      b := ArrayTagForward(floats, kind, rawName, depth, st, t, w);
    } else if kind == TEXT {
      b := TextForward(st1, w1);
      TextKeepsBudget(st1);
    } else if kind == LIST {
      b := ListTagForward(floats, rawName, depth, st, t, w);
    } else {
      b := CompoundTagForward(floats, rawName, depth, st, t, w);
    }
  }

  lemma ScalarTagForward(floats: FloatText, kind: byte, rawName: GoString, depth: nat, st: ReadState, t: Tag,
                         w: WriteState) returns (b: seq<byte>)
    requires Faithful(floats) && (IsInteger(kind) || IsFloat(kind))
    requires ReadTag(floats, true, kind, rawName, depth, st).Some?
    requires Spells(ReadTag(floats, true, kind, rawName, depth, st).value.0, t) && Shaped(t)
    requires w.nodes == st.nodes && w.elements == st.elements
    ensures var (raw, after) := ReadTag(floats, true, kind, rawName, depth, st).value;
            raw.kind == kind && raw.name == rawName
            && Rewritten(StringsFit(raw), Growth(raw), st, after, w, WriteTag(floats, t, depth, w), b)
  {
    hide BigEndian, ScalarText, ScalarBits, Faithful, ReadList, ReadMembers, WriteList, WriteMembers, TextOf;
    var st1 := st.(nodes := st.nodes + 1);
    var (bits, after) := ReadNumber(Width(kind), st1).value;
    b := BigEndian(bits, Width(kind));
    NumberForward(Width(kind), st1);
    ScalarForward(floats, kind, bits);
  }

  lemma ArrayTagForward(floats: FloatText, kind: byte, rawName: GoString, depth: nat, st: ReadState, t: Tag,
                        w: WriteState) returns (b: seq<byte>)
    requires IsArray(kind)
    requires ReadTag(floats, true, kind, rawName, depth, st).Some?
    requires Spells(ReadTag(floats, true, kind, rawName, depth, st).value.0, t) && Shaped(t)
    requires w.nodes == st.nodes && w.elements == st.elements
    ensures var (raw, after) := ReadTag(floats, true, kind, rawName, depth, st).value;
            raw.kind == kind && raw.name == rawName
            && Rewritten(StringsFit(raw), Growth(raw), st, after, w, WriteTag(floats, t, depth, w), b)
  {
    hide BigEndian, ReadCount, ReadValues, WriteValues, ReadList, ReadMembers, WriteList, WriteMembers, TextOf;
    var st1, w1 := st.(nodes := st.nodes + 1), w.(nodes := w.nodes + 1);
    b := ArrayForward(kind, rawName, t, st1, w1);
  }

  lemma ArrayForward(kind: byte, rawName: GoString, t: Tag, st: ReadState, w: WriteState) returns (b: seq<byte>)
    requires IsArray(kind) && ReadArray(kind, rawName, st).Some?
    requires t.kind == kind && t.values == ReadArray(kind, rawName, st).value.0.values
    requires w.nodes == st.nodes && w.elements == st.elements
    ensures var after := ReadArray(kind, rawName, st).value.1;
            st.rest == b + after.rest
            && WriteArray(t, w) == Some(WriteState(w.out + b, after.nodes, after.elements))
  {
    hide ReadCount, ReadValues, WriteValues, BigEndian;
    var (n, st1) := ReadCount(Width(kind), st).value;
    CountForward(Width(kind), st);
    var w1 := Append(w.(elements := w.elements + n), BigEndian(n, 4));
    var rest := ValuesForward(Width(kind), n, st1, w1);
    b := BigEndian(n, 4) + rest;
    var (vs, st2) := ReadValues(Width(kind), n, st1).value;
    Assoc(BigEndian(n, 4), rest, st2.rest);
    Assoc(w.out, BigEndian(n, 4), rest);
  }

  lemma {:induction false} ListTagForward(floats: FloatText, rawName: GoString, depth: nat, st: ReadState, t: Tag,
                                          w: WriteState) returns (b: seq<byte>)
    requires Faithful(floats)
    requires ReadTag(floats, true, LIST, rawName, depth, st).Some?
    requires Spells(ReadTag(floats, true, LIST, rawName, depth, st).value.0, t) && Shaped(t)
    requires w.nodes == st.nodes && w.elements == st.elements
    ensures var (raw, after) := ReadTag(floats, true, LIST, rawName, depth, st).value;
            raw.kind == LIST && raw.name == rawName
            && Rewritten(StringsFit(raw), Growth(raw), st, after, w, WriteTag(floats, t, depth, w), b)
    decreases 65 - depth, 3
  {
    hide ReadList, ReadMembers, ReadCount, WriteList, WriteMembers, BigEndian, Faithful, TextOf, AllShaped, GrowthAll,
         AllStringsFit;
    var st1 := st.(nodes := st.nodes + 1);
    var (listType, st2) := ReadByte(st1).value;
    var (n, st3) := ReadCount(1, st2).value;
    CountForward(1, st2);
    var head := [listType] + BigEndian(n, 4);
    var w1 := Append(WriteState(w.out, w.nodes + 1, w.elements + n), head);
    var (raws, after) := ReadList(floats, true, listType, n, depth + 1, st3).value;
    assert st.rest == [listType] + st2.rest;
    Assoc([listType], BigEndian(n, 4), st3.rest);
    var rest := ListForward(floats, listType, n, depth + 1, st3, t.children, w1);
    b := head + rest;
    assert |t.children| == n;
    Assoc(head, rest, after.rest);
    Assoc(w.out, head, rest);
  }

  lemma {:induction false} CompoundTagForward(floats: FloatText, rawName: GoString, depth: nat, st: ReadState, t: Tag,
                                              w: WriteState) returns (b: seq<byte>)
    requires Faithful(floats)
    requires ReadTag(floats, true, COMPOUND, rawName, depth, st).Some?
    requires Spells(ReadTag(floats, true, COMPOUND, rawName, depth, st).value.0, t) && Shaped(t)
    requires w.nodes == st.nodes && w.elements == st.elements
    ensures var (raw, after) := ReadTag(floats, true, COMPOUND, rawName, depth, st).value;
            raw.kind == COMPOUND && raw.name == rawName
            && Rewritten(StringsFit(raw), Growth(raw), st, after, w, WriteTag(floats, t, depth, w), b)
    decreases 65 - depth, 3
  {
    hide ReadList, ReadMembers, WriteList, WriteMembers, Faithful, TextOf, SpellsAll, AllShaped, GrowthAll,
         AllStringsFit;
    var st1, w1 := st.(nodes := st.nodes + 1), w.(nodes := w.nodes + 1);
    var rest := MembersForward(floats, {}, {}, depth + 1, st1, t.children, w1);
    var (raws, after) := ReadMembers(floats, true, {}, depth + 1, st1).value;
    var raw := Tag(COMPOUND, rawName, [], raws, 0, []);
    assert StringsFit(raw) == AllStringsFit(raws) && Growth(raw) == GrowthAll(raws);
    b := rest + [0];
    Assoc(rest, [0], after.rest);
    Assoc(w.out, rest, [0]);
    var w' := WriteMembers(floats, {}, t.children, depth + 1, w1);
    assert |w.out| <= MAX_BYTES ==>
        WriteTag(floats, t, depth, w) == if w'.None? then None else Some(Append(w'.value, [0]));
  }

  lemma {:induction false} ListForward(floats: FloatText, listType: byte, n: nat, depth: nat, st: ReadState,
                                       ts: seq<Tag>, w: WriteState) returns (b: seq<byte>)
    requires Faithful(floats)
    requires ReadList(floats, true, listType, n, depth, st).Some?
    requires SpellsAll(ReadList(floats, true, listType, n, depth, st).value.0, ts) && AllShaped(ts)
    requires w.nodes == st.nodes && w.elements == st.elements
    ensures var (raws, after) := ReadList(floats, true, listType, n, depth, st).value;
            |raws| == n
            && Rewritten(AllStringsFit(raws), GrowthAll(raws), st, after, w,
                         WriteList(floats, listType, ts, depth, w), b)
    decreases 66 - depth, 1, n
  {
    hide ReadTag, WriteTag, Faithful, Spells, Shaped, StringsFit, Growth, TextOf;
    if n == 0 {
      b := [];
      assert w.out + b == w.out && st.rest == b + st.rest;
    } else {
      var (raw, st1) := ReadTag(floats, true, listType, [], depth, st).value;
      var (raws, after) := ReadList(floats, true, listType, n - 1, depth, st1).value;
      assert ([raw] + raws)[1..] == raws;
      var first := TagForward(floats, listType, [], depth, st, ts[0], w);
      SpelledHead(raw, ts[0]);
      var w1 := WriteState(w.out + first, st1.nodes, st1.elements);
      var rest := ListForward(floats, listType, n - 1, depth, st1, ts[1..], w1);
      b := first + rest;
      Assoc(first, rest, after.rest);
      Assoc(w.out, first, rest);
    }
  }

  lemma SpelledHead(raw: Tag, t: Tag)
    requires Spells(raw, t)
    ensures raw.kind == t.kind && TextOf(raw.name) == Some(t.name) && (raw.name == [] ==> t.name == [])
  {
    hide SpellsAll;
    TextOfAscii([]);
  }

  lemma MembersConsumed(kind: seq<byte>, text: seq<byte>, first: seq<byte>, rest: seq<byte>, tail: seq<byte>)
    ensures kind + (text + (first + (rest + tail))) == (kind + (text + (first + rest))) + tail
  {
  }

  /** The end marker is the enclosing compound's to write. */
  lemma {:induction false} MembersForward(floats: FloatText, rawNames: set<GoString>, names: set<GoString>, depth: nat,
                                          st: ReadState, ts: seq<Tag>, w: WriteState) returns (b: seq<byte>)
    requires Faithful(floats)
    requires ReadMembers(floats, true, rawNames, depth, st).Some?
    requires SpellsAll(ReadMembers(floats, true, rawNames, depth, st).value.0, ts) && AllShaped(ts)
    requires DistinctNames(ts) && forall i :: 0 <= i < |ts| ==> ts[i].name !in names
    requires w.nodes == st.nodes && w.elements == st.elements
    ensures var (raws, after) := ReadMembers(floats, true, rawNames, depth, st).value;
            Rewritten(AllStringsFit(raws), GrowthAll(raws), st, after.(rest := [0] + after.rest), w,
                      WriteMembers(floats, names, ts, depth, w), b)
    decreases 66 - depth, 1, |st.rest|
  {
    hide ReadTag, WriteTag, ReadText, WriteText, Faithful, Spells, Shaped, StringsFit, Growth, TextOf;
    var (kind, st1) := ReadByte(st).value;
    assert st.rest == [kind] + st1.rest;
    if kind == 0 {
      b := [];
      assert w.out + b == w.out && st.rest == b + st.rest;
    } else {
      var (rawName, st2) := ReadText(true, st1).value;
      var (raw, st3) := ReadTag(floats, true, kind, rawName, depth, st2).value;
      var (raws, after) := ReadMembers(floats, true, rawNames + {rawName}, depth, st3).value;
      assert ([raw] + raws)[1..] == raws;
      var w1 := Append(w, [kind]);
      var text := TextForward(st1, w1);
      TextKeepsBudget(st1);
      var w2 := WriteState(w1.out + text, st2.nodes, st2.elements);
      var first := TagForward(floats, kind, rawName, depth, st2, ts[0], w2);
      SpelledHead(raw, ts[0]);
      var w3 := WriteState(w2.out + first, st3.nodes, st3.elements);
      var rest := MembersForward(floats, rawNames + {rawName}, names + {ts[0].name}, depth, st3, ts[1..], w3);
      b := [kind] + (text + (first + rest));
      MembersBytes(w.out, [kind], text, first, rest);
      MembersConsumed([kind], text, first, rest, [0] + after.rest);
    }
  }

  lemma TextKeepsBudget(st: ReadState)
    requires ReadText(true, st).Some?
    ensures var after := ReadText(true, st).value.1; after.nodes == st.nodes && after.elements == st.elements
  {
  }

  // ---- what is read is canonical -------------------------------------------------------------------------

  lemma {:induction false} ValuesCanonical(width: nat, n: nat, st: ReadState)
    requires width > 0 && ReadValues(width, n, st).Some?
    ensures CanonValues(width, ReadValues(width, n, st).value.0) == ReadValues(width, n, st).value.0
    decreases n
  {
    hide FromBigEndian, FormatInt, ParseInt;
    if n > 0 {
      var (bits, st1) := ReadNumber(width, st).value;
      ParseFormat(FromBits(bits, width), width);
      ValuesCanonical(width, n - 1, st1);
      var vs := ReadValues(width, n - 1, st1).value.0;
      assert ([IntegerText(bits, width)] + vs)[1..] == vs;
    }
  }

  /** The reader prints each number one way, and that way is read back as it is. */
  lemma {:induction false} TagCanonical(floats: FloatText, kind: byte, name: GoString, depth: nat, st: ReadState)
    requires Faithful(floats) && ReadTag(floats, false, kind, name, depth, st).Some?
    ensures var t := ReadTag(floats, false, kind, name, depth, st).value.0; Canon(floats, t) == t
    decreases 66 - depth, 0
  {
    hide ReadList, ReadMembers, ReadText, ReadValues, FromBigEndian, CanonValues, ScalarText, ScalarBits, Faithful;
    var st1 := st.(nodes := st.nodes + 1);
    if IsInteger(kind) || IsFloat(kind) {
      ScalarForward(floats, kind, ReadNumber(Width(kind), st1).value.0);
    } else if IsArray(kind) {
      var (n, st2) := ReadCount(Width(kind), st1).value;
      ValuesCanonical(Width(kind), n, st2);
    } else if kind == LIST {
      var (listType, st2) := ReadByte(st1).value;
      var (n, st3) := ReadCount(1, st2).value;
      ListCanonical(floats, listType, n, depth + 1, st3);
    } else if kind == COMPOUND {
      MembersCanonical(floats, {}, depth + 1, st1);
    }
  }

  lemma {:induction false} ListCanonical(floats: FloatText, listType: byte, n: nat, depth: nat, st: ReadState)
    requires Faithful(floats) && ReadList(floats, false, listType, n, depth, st).Some?
    ensures var ts := ReadList(floats, false, listType, n, depth, st).value.0; CanonAll(floats, ts) == ts
    decreases 66 - depth, 1, n
  {
    hide ReadTag, Canon, Faithful;
    if n > 0 {
      var (t, st1) := ReadTag(floats, false, listType, [], depth, st).value;
      var ts := ReadList(floats, false, listType, n - 1, depth, st1).value.0;
      TagCanonical(floats, listType, [], depth, st);
      ListCanonical(floats, listType, n - 1, depth, st1);
      assert ([t] + ts)[1..] == ts;
    }
  }

  lemma {:induction false} MembersCanonical(floats: FloatText, names: set<GoString>, depth: nat, st: ReadState)
    requires Faithful(floats) && ReadMembers(floats, false, names, depth, st).Some?
    ensures var ts := ReadMembers(floats, false, names, depth, st).value.0; CanonAll(floats, ts) == ts
    decreases 66 - depth, 1, |st.rest|
  {
    hide ReadTag, Canon, Faithful, ReadText;
    var (kind, st1) := ReadByte(st).value;
    if kind != 0 {
      var (name, st2) := ReadText(false, st1).value;
      var (t, st3) := ReadTag(floats, false, kind, name, depth, st2).value;
      var ts := ReadMembers(floats, false, names + {name}, depth, st3).value.0;
      TagCanonical(floats, kind, name, depth, st2);
      MembersCanonical(floats, names + {name}, depth, st3);
      assert ([t] + ts)[1..] == ts;
    }
  }

  lemma DecodedIsCanonical(floats: FloatText, data: seq<byte>)
    requires Faithful(floats) && ReadRoot(floats, false, data).Some?
    ensures var root := ReadRoot(floats, false, data).value; Canon(floats, root) == root
  {
    hide ReadTag, ReadText, Canon, Faithful;
    var (kind, st1) := ReadByte(ReadState(data, 0, 0)).value;
    var (name, st2) := ReadText(false, st1).value;
    TagCanonical(floats, kind, name, 0, st2);
  }

  // ---- payloads -----------------------------------------------------------------------------------------

  /** Raw zero bytes in the strings, names and values, of a document the reader accepts. */
  function RawZeros(floats: FloatText, data: seq<byte>): nat {
    var raw := ReadRoot(floats, true, data);
    if raw.None? then 0 else Zeros(raw.value.name) + Growth(raw.value)
  }

  predicate NoRawZero(floats: FloatText, data: seq<byte>) {
    RawZeros(floats, data) == 0
  }

  /** With a second byte for each raw zero byte, every string keeps within its 16-bit length, and the
      document within the size limit. */
  predicate Rewritable(floats: FloatText, data: seq<byte>) {
    var raw := ReadRoot(floats, true, data);
    (raw.Some? ==> Fits16(raw.value.name) && StringsFit(raw.value))
    && |data| + RawZeros(floats, data) <= MAX_BYTES
  }

  /** The writer accepts what was read exactly when it is rewritable, makes it longer by exactly its raw
      zero bytes, and without any gives back the same bytes. */
  lemma RootForward(floats: FloatText, data: seq<byte>)
    requires Faithful(floats) && ReadRoot(floats, false, data).Some?
    ensures var w := WriteRoot(floats, ReadRoot(floats, false, data).value);
      (w.Some? <==> Rewritable(floats, data))
      && (w.Some? ==> |w.value| == |data| + RawZeros(floats, data))
      && (NoRawZero(floats, data) && |data| <= MAX_BYTES ==> w == Some(data))
  {
    hide ReadTag, WriteTag, TextOf, FromBigEndian, WriteText, Faithful, Spells, Shaped, StringsFit, Growth, Within,
         CountTags, Elements;
    RootSpelled(floats, data);
    var (kind, st1) := ReadByte(ReadState(data, 0, 0)).value;
    var (name, st2) := ReadText(false, st1).value;
    TagSound(floats, false, kind, name, 0, st2);
    var root := ReadRoot(floats, false, data).value;
    var rawName := ReadText(true, st1).value.0;
    TextKeepsBudget(st1);
    var w1 := WriteState([kind], 0, 0);
    var text := TextForward(st1, w1);
    var w2 := WriteState(w1.out + text, st2.nodes, st2.elements);
    var b := TagForward(floats, kind, rawName, 0, st2, root, w2);
    assert data == [kind] + st1.rest;
    assert b + [] == b;
    Assoc([kind], text, b);
  }

  /** The writer reproduces a payload the reader accepted if and only if no string in it has a raw
      zero byte, which the reader accepts as NUL and the writer never emits. */
  lemma PayloadReproduced(floats: FloatText, data: seq<byte>)
    requires Faithful(floats) && ReadRoot(floats, false, data).Some? && |data| <= MAX_BYTES
    ensures WriteRoot(floats, ReadRoot(floats, false, data).value) == Some(data) <==> NoRawZero(floats, data)
  {
    hide ReadRoot, WriteRoot, Rewritable, RawZeros;
    RootForward(floats, data);
  }

  // ---- files --------------------------------------------------------------------------------------------

  /** What is left of a file after decompression, if any. */
  function Payload(packer: Compressor, data: seq<byte>): Option<seq<byte>> {
    if Sniff(data) == Plain then Some(data) else packer.inflate(Sniff(data), data)
  }

  /** Encode after Decode gives back an uncompressed file byte for byte, exactly when it has no raw
      zero byte in a string; from a compressed file its payload comes back, exactly then, and is
      compressed again if that fits. */
  lemma DecodeThenEncode(floats: FloatText, packer: Compressor, data: seq<byte>)
    requires Faithful(floats)
    requires DecodeSpec(floats, packer, data).Some?
    ensures var doc := DecodeSpec(floats, packer, data).value;
            var payload := Payload(packer, data);
            payload.Some?
            && (WriteRoot(floats, doc.root) == payload <==> NoRawZero(floats, payload.value))
            && (doc.compression == Plain ==>
                  (EncodeSpec(floats, packer, doc) == Some(data) <==> NoRawZero(floats, data)))
            && (doc.compression != Plain && NoRawZero(floats, payload.value) ==>
                  var packed := packer.deflate(doc.compression, payload.value);
                  EncodeSpec(floats, packer, doc) == if |packed| <= MAX_BYTES then Some(packed) else None)
  {
    hide ReadRoot, WriteRoot, NoRawZero;
    PayloadReproduced(floats, Payload(packer, data).value);
  }

  /** The payload as it is written again, or nothing where it is not. */
  function Written(floats: FloatText, payload: seq<byte>): seq<byte> {
    var root := ReadRoot(floats, false, payload);
    var out := if root.None? then None else WriteRoot(floats, root.value);
    if out.None? then [] else out.value
  }

  /** A decoded file can be encoded again: its payload is rewritable, and still fits once compressed. */
  predicate Encodable(floats: FloatText, packer: Compressor, data: seq<byte>) {
    var payload := Payload(packer, data);
    payload.Some? && Rewritable(floats, payload.value)
    && (Sniff(data) != Plain ==> |packer.deflate(Sniff(data), Written(floats, payload.value))| <= MAX_BYTES)
  }

  /** Encode accepts what Decode returned, for exactly the encodable files. */
  lemma EncodesAgain(floats: FloatText, packer: Compressor, data: seq<byte>)
    requires Faithful(floats)
    requires DecodeSpec(floats, packer, data).Some?
    ensures EncodeSpec(floats, packer, DecodeSpec(floats, packer, data).value).Some?
       <==> Encodable(floats, packer, data)
  {
    hide ReadRoot, WriteRoot, Rewritable, NoRawZero;
    RootForward(floats, Payload(packer, data).value);
  }

  /** An uncompressed file whose rewritten form starts like a zlib stream. */
  predicate TurnsIntoZlib(floats: FloatText, data: seq<byte>) {
    var raw := ReadRoot(floats, true, data);
    Sniff(data) == Plain && raw.Some? && raw.value.kind == TEXT
    && (|raw.value.name| + Zeros(raw.value.name)) / 256 % 31 == 29
  }

  /** Decoding, encoding and decoding gives the first document again, for exactly the files that are
      encodable and do not turn into a zlib stream on the way. */
  lemma DecodeEncodeDecode(floats: FloatText, packer: Compressor, data: seq<byte>)
    requires Faithful(floats) && InversePair(packer)
    requires DecodeSpec(floats, packer, data).Some?
    ensures var doc := DecodeSpec(floats, packer, data).value;
            var encoded := EncodeSpec(floats, packer, doc);
            encoded.Some? && DecodeSpec(floats, packer, encoded.value) == Some(doc)
            <==> Encodable(floats, packer, data) && !TurnsIntoZlib(floats, data)
  {
    hide ReadRoot, WriteRoot, Rewritable, Encodable, Written, Faithful, InversePair, Spells, Canon, BytesOf, TextOf;
    var doc := DecodeSpec(floats, packer, data).value;
    var payload := Payload(packer, data).value;
    EncodesAgain(floats, packer, data);
    if EncodeSpec(floats, packer, doc).Some? {
      DecodedIsCanonical(floats, payload);
      EncodeThenDecode(floats, packer, doc);
      RootSpelled(floats, payload);
      SpelledLength(ReadRoot(floats, true, payload).value, doc.root);
    }
  }

  lemma SpelledLength(raw: Tag, t: Tag)
    requires Spells(raw, t)
    ensures raw.kind == t.kind && ValidString(t.name) && |BytesOf(t.name)| == |raw.name| + Zeros(raw.name)
  {
    hide SpellsAll, TextOf, BytesOf, ValidString;
    EncodeAfterDecode(raw.name);
  }

  // ---- files that do not come back ------------------------------------------------------------------------

  lemma ReadPlainText(raw: bool, text: seq<byte>, s: GoString, tail: seq<byte>, nodes: nat, elements: nat)
    requires |text| <= MAX_TEXT && TextOf(text) == Some(s)
    ensures ReadText(raw, ReadState(BigEndian(|text|, 2) + (text + tail), nodes, elements))
         == Some((if raw then text else s, ReadState(tail, nodes, elements)))
  {
    hide TextOf;
    assert Pow256(2) == 65536;
    NumberBack(|text|, 2, text + tail, nodes, elements);
    assert (text + tail)[..|text|] == text && (text + tail)[|text|..] == tail;
  }

  /** A file with one string tag, named by some raw zero bytes and holding some more. */
  function ZerosFile(name: nat, value: nat): seq<byte> {
    [TEXT] + (BigEndian(name, 2) + (Repeat(0, name) + (BigEndian(value, 2) + Repeat(0, value))))
  }

  lemma {:induction false} ZerosOfZeros(zeros: seq<byte>)
    requires forall i :: 0 <= i < |zeros| ==> zeros[i] == 0
    ensures Zeros(zeros) == |zeros|
  {
    if zeros != [] {
      ZerosOfZeros(zeros[1..]);
    }
  }

  lemma ZerosFileReads(floats: FloatText, raw: bool, name: nat, value: nat)
    requires name <= MAX_TEXT && value <= MAX_TEXT
    ensures ReadRoot(floats, raw, ZerosFile(name, value)) == Some(Leaf(TEXT, Repeat(0, name), Repeat(0, value)))
  {
    hide Repeat, TextOf, ReadText, BigEndian;
    var named, valued := Repeat(0, name), Repeat(0, value);
    var body := BigEndian(value, 2) + valued;
    var data := ZerosFile(name, value);
    NulText(named);
    NulText(valued);
    assert data[1..] == BigEndian(name, 2) + (named + body);
    assert body == BigEndian(value, 2) + (valued + []);
    ReadPlainText(raw, named, named, body, 0, 0);
    ReadPlainText(raw, valued, valued, [], 1, 0);
    assert ReadTag(floats, raw, TEXT, named, 0, ReadState(body, 0, 0))
        == Some((Leaf(TEXT, named, valued), ReadState([], 1, 0)));
  }

  /** Such a file decodes, and what becomes of it when it is encoded again is read off the two numbers. */
  lemma ZerosFileAgain(floats: FloatText, packer: Compressor, name: nat, value: nat)
    requires name <= MAX_TEXT && value <= MAX_TEXT && (8 * 256 + name / 256) % 31 != 0
    ensures var data := ZerosFile(name, value);
      Sniff(data) == Plain && DecodeSpec(floats, packer, data).Some?
      && (Encodable(floats, packer, data) <==> 2 * name <= MAX_TEXT && 2 * value <= MAX_TEXT)
      && (TurnsIntoZlib(floats, data) <==> 2 * name / 256 % 31 == 29)
  {
    hide Repeat, ReadRoot, BigEndian;
    var data := ZerosFile(name, value);
    ZerosFileReads(floats, true, name, value);
    ZerosFileReads(floats, false, name, value);
    ZerosOfZeros(Repeat(0, name));
    ZerosOfZeros(Repeat(0, value));
    HighByte(name);
    assert data[0] == TEXT && data[1] == BigEndian(name, 2)[0];
    var raw := Leaf(TEXT, Repeat(0, name), Repeat(0, value));
    assert GrowthAll(raw.children) == 0 && AllStringsFit(raw.children);
    assert StringsFit(raw) == Fits16(raw.value) && Growth(raw) == Zeros(raw.value) == value;
    assert |data| == 5 + name + value;
  }

  /** A raw zero byte can make the file unsavable: a string of 65535 of them is accepted, but its
      encoding would take twice as many bytes as a string may have. */
  lemma RawZerosCanOverflow(floats: FloatText, packer: Compressor)
    requires Faithful(floats)
    ensures var doc := DecodeSpec(floats, packer, ZerosFile(0, 65535));
      doc.Some? && EncodeSpec(floats, packer, doc.value) == None
  {
    hide ZerosFile, DecodeSpec, EncodeSpec, Encodable;
    ZerosFileAgain(floats, packer, 0, 65535);
    EncodesAgain(floats, packer, ZerosFile(0, 65535));
  }

  /** Or it can make it look compressed: a name of 3712 of them is accepted and encoded, as 7424 bytes,
      and the file written does not decode to the document. */
  lemma RawZerosCanTurnIntoZlib(floats: FloatText, packer: Compressor)
    requires Faithful(floats) && InversePair(packer)
    ensures var doc := DecodeSpec(floats, packer, ZerosFile(3712, 0));
      doc.Some?
      && var encoded := EncodeSpec(floats, packer, doc.value);
         encoded.Some? && DecodeSpec(floats, packer, encoded.value) != doc
  {
    hide ZerosFile, DecodeSpec, EncodeSpec, Encodable, TurnsIntoZlib;
    ZerosFileAgain(floats, packer, 3712, 0);
    EncodesAgain(floats, packer, ZerosFile(3712, 0));
    DecodeEncodeDecode(floats, packer, ZerosFile(3712, 0));
  }

  /** And the compressed size limit is one that no check of the reader implies: with a library that reads
      streams shorter than it writes, a file without raw zero bytes decodes and is refused. */
  lemma CompressedCanOverflow(floats: FloatText) returns (packer: Compressor, data: seq<byte>)
    requires Faithful(floats)
    ensures InversePair(packer) && DecodeSpec(floats, packer, data).Some?
    ensures Payload(packer, data).Some? && NoRawZero(floats, Payload(packer, data).value)
    ensures EncodeSpec(floats, packer, DecodeSpec(floats, packer, data).value) == None
  {
    hide Repeat, ReadRoot, BigEndian, WriteRoot;
    var padding := Repeat(0, MAX_BYTES);
    packer := Compressor(
      (c: Compression, b: seq<byte>) => Header(c) + (padding + b),
      (c: Compression, b: seq<byte>) =>
        if |b| < 2 then None else Some(b[if |b| < 2 + MAX_BYTES then 2 else 2 + MAX_BYTES..]));
    forall c: Compression, b: seq<byte> | c == Gzip || c == Zlib
      ensures packer.inflate(c, packer.deflate(c, b)) == Some(b) && Sniff(packer.deflate(c, b)) == c
    {
      assert (Header(c) + (padding + b))[2 + MAX_BYTES..] == b;
    }
    var payload := ZerosFile(0, 0);
    data := Header(Gzip) + payload;
    assert data[2..] == payload && Sniff(data) == Gzip;
    ZerosFileReads(floats, true, 0, 0);
    ZerosFileReads(floats, false, 0, 0);
    ZerosOfZeros(Repeat(0, 0));
    DecodeThenEncode(floats, packer, data);
  }

  /** The first two bytes of a stream, as far as Decode looks at them. */
  function Header(c: Compression): seq<byte> {
    if c == Gzip then [0x1F, 0x8B] else [0x78, 0x01]
  }

  /** The hypotheses of both round trips can be met together. */
  lemma HypothesesCanBeMet() returns (floats: FloatText, packer: Compressor)
    ensures Faithful(floats) && InversePair(packer)
  {
    floats := FloatText((bits: nat, width: nat) => FormatNat(bits), (s: GoString, width: nat) => DigitsValue(s));
    forall bits: nat ensures DigitsValue(FormatNat(bits)) == Some(bits) && !NaNText(FormatNat(bits)) {
      DigitsOfFormat(bits);
      var s := FormatNat(bits);
      assert IsDigit(s[0]) && !IsDigit(NAN_PREFIX[0]) && (|s| > 6 ==> s[..6][0] == s[0]);
    }
    packer := Compressor(
      (c: Compression, b: seq<byte>) => Header(c) + b,
      (c: Compression, b: seq<byte>) => if |b| >= 2 then Some(b[2..]) else None);
    forall c: Compression, b: seq<byte> | c == Gzip || c == Zlib
      ensures packer.inflate(c, packer.deflate(c, b)) == Some(b) && Sniff(packer.deflate(c, b)) == c
    {
      assert packer.deflate(c, b) == Header(c) + b && (Header(c) + b)[2..] == b;
    }
  }
}
