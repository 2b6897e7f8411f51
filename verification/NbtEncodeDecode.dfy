/**
  Encode, then Decode (internal/nbt/nbt.go): what the writer accepts, the reader reads back, spending
  exactly the node and element budget the writer spent, and leaving whatever follows untouched.
 */
module NbtEncodeDecode {
  import opened Options
  import opened Bytes
  import opened ModifiedUtf8
  import opened Nbt

  // ---- what comes back: the same tree, its numbers in canonical text --------------------------------

  function CanonValues(width: nat, values: seq<GoString>): seq<GoString>
    requires width > 0
  {
    if values == [] then []
    else
      var bits := IntegerBits(values[0], width);
      [if bits.Some? then IntegerText(bits.value, width) else values[0]] + CanonValues(width, values[1..])
  }

  function CanonValue(floats: FloatText, t: Tag): GoString {
    if IsInteger(t.kind) || IsFloat(t.kind) then
      var bits := ScalarBits(floats, t.kind, t.value);
      if bits.Some? then ScalarText(floats, t.kind, bits.value) else t.value
    else t.value
  }

  /** The tree with every numeric literal rewritten as the reader prints it: "+5" and "007" become
      "5" and "7"; names, text, order and structure are unchanged. */
  function Canon(floats: FloatText, t: Tag): (c: Tag)
    ensures c.kind == t.kind && c.name == t.name && c.listType == t.listType
    decreases t, 0
  {
    t.(value := CanonValue(floats, t),
       values := if IsArray(t.kind) then CanonValues(Width(t.kind), t.values) else t.values,
       children := CanonAll(floats, t.children))
  }

  function CanonAll(floats: FloatText, ts: seq<Tag>): (cs: seq<Tag>)
    ensures |cs| == |ts|
    decreases ts, 1
  {
    if ts == [] then [] else [Canon(floats, ts[0])] + CanonAll(floats, ts[1..])
  }

  // ---- pieces ---------------------------------------------------------------------------------------

  lemma NumberBack(v: nat, width: nat, tail: seq<byte>, nodes: nat, elements: nat)
    requires v < Pow256(width)
    ensures ReadNumber(width, ReadState(BigEndian(v, width) + tail, nodes, elements))
         == Some((v, ReadState(tail, nodes, elements)))
  {
    var b := BigEndian(v, width) + tail;
    assert b[..width] == BigEndian(v, width) && b[width..] == tail;
    BigEndianInverse(v, width);
  }

  lemma CountBack(n: nat, width: nat, tail: seq<byte>, nodes: nat, elements: nat)
    requires n * width <= |tail| && n + elements <= MAX_ELEMENTS
    ensures ReadCount(width, ReadState(BigEndian(n, 4) + tail, nodes, elements))
         == Some((n, ReadState(tail, nodes, elements + n)))
  {
    assert Pow256(4) == 0x1_0000_0000 && Pow256(3) == 0x100_0000;
    NumberBack(n, 4, tail, nodes, elements);
  }

  function TextBytes(s: GoString): seq<byte>
    requires ValidString(s)
  {
    BigEndian(|BytesOf(s)|, 2) + BytesOf(s)
  }

  lemma TextBack(s: GoString, w: WriteState, tail: seq<byte>, nodes: nat, elements: nat)
    requires WriteText(s, w).Some?
    ensures ValidString(s) && WriteText(s, w) == Some(Append(w, TextBytes(s)))
    ensures ReadText(false, ReadState(TextBytes(s) + tail, nodes, elements))
         == Some((s, ReadState(tail, nodes, elements)))
  {
    var b := BytesOf(s);
    assert 0 !in b;
    assert Pow256(2) == 65536;
    Assoc(BigEndian(|b|, 2), b, tail);
    Assoc(w.out, BigEndian(|b|, 2), b);
    NumberBack(|b|, 2, b + tail, nodes, elements);
    assert (b + tail)[..|b|] == b && (b + tail)[|b|..] == tail;
    DecodeAfterEncode(s);
  }

  lemma {:induction false} ValuesBack(width: nat, values: seq<GoString>, w: WriteState, tail: seq<byte>,
                                      nodes: nat, elements: nat) returns (b: seq<byte>)
    requires width > 0 && WriteValues(width, values, w).Some?
    ensures WriteValues(width, values, w) == Some(Append(w, b)) && |b| == width * |values|
    ensures ReadValues(width, |values|, ReadState(b + tail, nodes, elements))
         == Some((CanonValues(width, values), ReadState(tail, nodes, elements)))
    decreases |values|
  {
    if values == [] {
      b := [];
      assert w.out + b == w.out && b + tail == tail;
    } else {
      var bits := IntegerBits(values[0], width).value;
      var first := BigEndian(bits, width);
      var rest := ValuesBack(width, values[1..], Append(w, first), tail, nodes, elements);
      b := first + rest;
      Assoc(w.out, first, rest);
      Assoc(first, rest, tail);
      NumberBack(bits, width, rest + tail, nodes, elements);
      assert width * |values| == width + width * (|values| - 1);
    }
  }

  lemma ArrayBack(t: Tag, w: WriteState, tail: seq<byte>) returns (b: seq<byte>)
    requires IsArray(t.kind) && WriteArray(t, w).Some?
    ensures WriteArray(t, w) == Some(Append(w, b).(elements := w.elements + |t.values|)) && b != []
    ensures ReadArray(t.kind, t.name, ReadState(b + tail, w.nodes, w.elements))
         == Some((Tag(t.kind, t.name, [], [], 0, CanonValues(Width(t.kind), t.values)),
                  ReadState(tail, w.nodes, w.elements + |t.values|)))
  {
    hide BigEndian, ReadCount, Pow256, ReadValues, WriteValues, CanonValues;
    var n, width := |t.values|, Width(t.kind);
    var w1 := Append(w.(elements := w.elements + n), BigEndian(n, 4));
    var rest := ValuesBack(width, t.values, w1, tail, w.nodes, w.elements + n);
    b := BigEndian(n, 4) + rest;
    Assoc(w.out, BigEndian(n, 4), rest);
    Assoc(BigEndian(n, 4), rest, tail);
    assert n * width == width * n <= |rest + tail|;
    CountBack(n, width, rest + tail, w.nodes, w.elements);
  }

  // ---- the tree -------------------------------------------------------------------------------------

  /** The writer's state in the reader's terms, in front of some bytes. */
  function Reading(b: seq<byte>, w: WriteState): ReadState {
    ReadState(b, w.nodes, w.elements)
  }

  /** What one writer call promises: it only appended `b`, and spent from the budgets. */
  ghost predicate Appended(w: WriteState, b: seq<byte>, w': WriteState, tags: nat) {
    && w'.out == w.out + b
    && |b| >= tags
    && w.nodes + tags <= w'.nodes
    && (w'.nodes <= MAX_NODES || w'.nodes == w.nodes)
    && w.elements <= w'.elements
  }

  lemma {:induction false} TagBack(floats: FloatText, t: Tag, depth: nat, w: WriteState,
                                   tail: seq<byte>) returns (b: seq<byte>)
    requires WriteTag(floats, t, depth, w).Some?
    ensures 1 <= t.kind <= 12
    ensures Appended(w, b, WriteTag(floats, t, depth, w).value, 1)
    ensures ReadTag(floats, false, t.kind, t.name, depth, Reading(b + tail, w))
         == Some((Canon(floats, t), Reading(tail, WriteTag(floats, t, depth, w).value)))
    decreases t, 0
  {
    hide ReadList, ReadMembers, ReadArray, ReadText, WriteList, WriteMembers, WriteArray, WriteText;
    hide BigEndian, Pow256, ScalarText, ScalarBits, CanonValues, CanonAll;
    var w1 := w.(nodes := w.nodes + 1);
    var w' := WriteTag(floats, t, depth, w).value;
    if IsInteger(t.kind) || IsFloat(t.kind) {
      var bits := ScalarBits(floats, t.kind, t.value).value;
      b := BigEndian(bits, Width(t.kind));
      NumberBack(bits, Width(t.kind), tail, w1.nodes, w1.elements);
    } else if IsArray(t.kind) {
      b := ArrayBack(t, w1, tail);
    } else if t.kind == TEXT {
      TextBack(t.value, w1, tail, w1.nodes, w1.elements);
      b := TextBytes(t.value);
    } else if t.kind == LIST {
      b := ListTagBack(floats, t, depth, w, tail);
    } else {
      b := CompoundTagBack(floats, t, depth, w, tail);
    }
  }

  lemma {:induction false} ListTagBack(floats: FloatText, t: Tag, depth: nat, w: WriteState,
                                       tail: seq<byte>) returns (b: seq<byte>)
    requires t.kind == LIST && WriteTag(floats, t, depth, w).Some?
    ensures Appended(w, b, WriteTag(floats, t, depth, w).value, 1)
    ensures ReadTag(floats, false, t.kind, t.name, depth, Reading(b + tail, w))
         == Some((Canon(floats, t), Reading(tail, WriteTag(floats, t, depth, w).value)))
    decreases t.children, 2
  {
    hide BigEndian, ReadTag, ReadList, ReadMembers, WriteList, WriteMembers, WriteScalar, WriteArray, WriteText;
    hide CanonAll, CanonValues;
    var n := |t.children|;
    var head := [t.listType] + BigEndian(n, 4);
    var w1 := w.(nodes := w.nodes + 1, elements := w.elements + n);
    var rest := ListBack(floats, t.listType, t.children, depth + 1, Append(w1, head), tail);
    b := head + rest;
    Assoc(w.out, head, rest);
    assert b + tail == [t.listType] + (BigEndian(n, 4) + (rest + tail));
    ListHeader(floats, t, depth, w, rest + tail);
  }

  /** Reading a list is reading its header and then its children. */
  lemma ListHeader(floats: FloatText, t: Tag, depth: nat, w: WriteState, body: seq<byte>)
    requires t.kind == LIST && depth <= MAX_DEPTH && t.listType <= 12 && (t.listType == 0 ==> t.children == [])
    requires w.nodes + 1 + |t.children| <= MAX_NODES
    requires |t.children| + w.elements <= MAX_ELEMENTS && |t.children| <= |body|
    ensures var all := ReadState([t.listType] + (BigEndian(|t.children|, 4) + body), w.nodes, w.elements);
            var st := ReadState(body, w.nodes + 1, w.elements + |t.children|);
            var inner := ReadList(floats, false, t.listType, |t.children|, depth + 1, st);
            ReadTag(floats, false, LIST, t.name, depth, all)
            == if inner.None? then None
               else Some((Tag(LIST, t.name, [], inner.value.0, t.listType, []), inner.value.1))
  {
    var n := |t.children|;
    var all := ReadState([t.listType] + (BigEndian(n, 4) + body), w.nodes + 1, w.elements);
    CountBack(n, 1, body, w.nodes + 1, w.elements);
    assert all.rest[1..] == BigEndian(n, 4) + body;
    assert ReadByte(all) == Some((t.listType, ReadState(BigEndian(n, 4) + body, w.nodes + 1, w.elements)));
  }

  lemma {:induction false} CompoundTagBack(floats: FloatText, t: Tag, depth: nat, w: WriteState,
                                           tail: seq<byte>) returns (b: seq<byte>)
    requires t.kind == COMPOUND && WriteTag(floats, t, depth, w).Some?
    ensures Appended(w, b, WriteTag(floats, t, depth, w).value, 1)
    ensures ReadTag(floats, false, t.kind, t.name, depth, Reading(b + tail, w))
         == Some((Canon(floats, t), Reading(tail, WriteTag(floats, t, depth, w).value)))
    decreases t.children, 2
  {
    hide ReadList, ReadMembers, ReadScalar, ReadArray, ReadText;
    hide WriteList, WriteMembers, WriteScalar, WriteArray, WriteText, CanonAll, CanonValues;
    var w1 := w.(nodes := w.nodes + 1);
    var rest := MembersBack(floats, {}, t.children, depth + 1, w1, tail);
    b := rest + [0];
    Assoc(w.out, rest, [0]);
    Assoc(rest, [0], tail);
  }

  lemma {:induction false} ListBack(floats: FloatText, listType: byte, ts: seq<Tag>, depth: nat,
                                    w: WriteState, tail: seq<byte>) returns (b: seq<byte>)
    requires WriteList(floats, listType, ts, depth, w).Some?
    ensures Appended(w, b, WriteList(floats, listType, ts, depth, w).value, |ts|)
    ensures ReadList(floats, false, listType, |ts|, depth, Reading(b + tail, w))
         == Some((CanonAll(floats, ts), Reading(tail, WriteList(floats, listType, ts, depth, w).value)))
    decreases ts, 1
  {
    hide ReadTag, WriteTag, Canon;
    if ts == [] {
      b := [];
      assert w.out + b == w.out && b + tail == tail;
    } else {
      var w1 := WriteTag(floats, ts[0], depth, w).value;
      var rest := ListBack(floats, listType, ts[1..], depth, w1, tail);
      var first := TagBack(floats, ts[0], depth, w, rest + tail);
      b := first + rest;
      Assoc(w.out, first, rest);
      Assoc(first, rest, tail);
    }
  }

  /** The reader needs the end marker to stop, so it is part of what is read here. */
  lemma {:induction false} MembersBack(floats: FloatText, names: set<GoString>, ts: seq<Tag>,
                                       depth: nat, w: WriteState, tail: seq<byte>) returns (b: seq<byte>)
    requires WriteMembers(floats, names, ts, depth, w).Some?
    ensures Appended(w, b, WriteMembers(floats, names, ts, depth, w).value, |ts|)
    ensures ReadMembers(floats, false, names, depth, Reading(b + ([0] + tail), w))
         == Some((CanonAll(floats, ts), Reading(tail, WriteMembers(floats, names, ts, depth, w).value)))
    decreases ts, 1
  {
    hide ReadTag, ReadList, WriteTag, WriteList, WriteText, ReadText, TextBytes, Canon;
    if ts == [] {
      b := [];
      assert w.out + b == w.out && b + ([0] + tail) == [0] + tail;
    } else {
      var t := ts[0];
      var w1 := Append(w, [t.kind]);
      var w2 := WriteText(t.name, w1).value;
      var w3 := WriteTag(floats, t, depth, w2).value;
      var rest := MembersBack(floats, names + {t.name}, ts[1..], depth, w3, tail);
      var after := rest + ([0] + tail);
      var first := TagBack(floats, t, depth, w2, after);
      TextBack(t.name, w1, first + after, w.nodes, w.elements);
      b := [t.kind] + (TextBytes(t.name) + (first + rest));
      MembersBytes(w.out, [t.kind], TextBytes(t.name), first, rest);
      assert b + ([0] + tail) == [t.kind] + (TextBytes(t.name) + (first + after));
      MembersStep(floats, names, t, depth, w, TextBytes(t.name), first, after);
    }
  }

  lemma MembersBytes(out: seq<byte>, kind: seq<byte>, name: seq<byte>, first: seq<byte>, rest: seq<byte>)
    ensures out + (kind + (name + (first + rest))) == (((out + kind) + name) + first) + rest
  {
  }

  lemma MembersStep(floats: FloatText, names: set<GoString>, t: Tag, depth: nat, w: WriteState,
                    name: seq<byte>, first: seq<byte>, after: seq<byte>)
    requires t.kind != 0 && t.name !in names
    requires ReadText(false, Reading(name + (first + after), w)) == Some((t.name, Reading(first + after, w)))
    requires ReadTag(floats, false, t.kind, t.name, depth, Reading(first + after, w)).Some?
    ensures var all := Reading([t.kind] + (name + (first + after)), w);
            var (child, st) := ReadTag(floats, false, t.kind, t.name, depth, Reading(first + after, w)).value;
            var rest := ReadMembers(floats, false, names + {t.name}, depth, st);
            ReadMembers(floats, false, names, depth, all)
            == if rest.None? then None else Some(([child] + rest.value.0, rest.value.1))
  {
    hide ReadTag, ReadText;
    var all := Reading([t.kind] + (name + (first + after)), w);
    assert all.rest[1..] == name + (first + after);
  }

  // ---- documents ------------------------------------------------------------------------------------

  lemma RootBack(floats: FloatText, root: Tag)
    requires WriteRoot(floats, root).Some?
    ensures ReadRoot(floats, false, WriteRoot(floats, root).value) == Some(Canon(floats, root))
    ensures 1 <= root.kind <= 12 && ValidString(root.name) && |BytesOf(root.name)| < 65536
    ensures TextBytes(root.name)[0] == |BytesOf(root.name)| / 256
    ensures [root.kind] + TextBytes(root.name) <= WriteRoot(floats, root).value
    ensures |WriteRoot(floats, root).value| <= MAX_BYTES
  {
    hide ReadTag, WriteTag, ReadText, BytesOf, Canon, BigEndian, FromUtf8;
    var data := WriteRoot(floats, root).value;
    var w1 := WriteState([root.kind], 0, 0);
    var w2 := WriteText(root.name, w1).value;
    var b := TagBack(floats, root, 0, w2, []);
    TextBack(root.name, w1, b, 0, 0);
    assert b + [] == b;
    assert data == [root.kind] + (TextBytes(root.name) + b);
    assert data[1..] == TextBytes(root.name) + b;
    HighByte(|BytesOf(root.name)|);
  }

  lemma HighByte(n: nat)
    requires n < 65536
    ensures BigEndian(n, 2)[0] == n / 256
  {
    assert BigEndian(n, 2) == BigEndian(n / 256, 1) + [n % 256];
    assert BigEndian(n / 256, 1) == [] + [n / 256 % 256];
  }

  /** gzip and zlib as an inverse pair whose output carries the header that Decode looks for. */
  ghost predicate InversePair(packer: Compressor) {
    forall c: Compression, b: seq<byte> :: c == Gzip || c == Zlib ==>
      packer.inflate(c, packer.deflate(c, b)) == Some(b) && Sniff(packer.deflate(c, b)) == c
  }

  /** An uncompressed file that starts like a zlib stream: a text root (byte 8) whose encoded name
      length has a high byte of 29 modulo 31, since 256 * 8 is 2 modulo 31. */
  predicate LooksLikeZlib(root: Tag)
    requires ValidString(root.name)
  {
    root.kind == TEXT && |BytesOf(root.name)| / 256 % 31 == 29
  }

  /** Decode after Encode returns the document, numbers in canonical text, for every document that
      Encode accepts, except exactly those uncompressed ones that start like a zlib stream. */
  lemma EncodeThenDecode(floats: FloatText, packer: Compressor, doc: Document)
    requires InversePair(packer)
    requires EncodeSpec(floats, packer, doc).Some?
    ensures ValidString(doc.root.name)
    ensures DecodeSpec(floats, packer, EncodeSpec(floats, packer, doc).value)
            == Some(Document(doc.compression, Canon(floats, doc.root)))
        <==> !(doc.compression == Plain && LooksLikeZlib(doc.root))
  {
    hide ReadRoot, WriteRoot, BytesOf, Canon;
    RootBack(floats, doc.root);
    if doc.compression == Plain {
      var data := EncodeSpec(floats, packer, doc).value;
      var k, h := doc.root.kind as int, |BytesOf(doc.root.name)| / 256;
      assert data[0] == k && data[1] == h;
      assert k % 16 == 8 <==> k == 8;
      assert (256 * 8 + h) % 31 == 0 <==> h % 31 == 29;
    }
  }

  function Repeat(c: byte, n: nat): (s: seq<byte>)
    ensures |s| == n && forall i :: 0 <= i < n ==> s[i] == c
  {
    seq(n, _ => c)
  }

  lemma EmptyTextIsAccepted(floats: FloatText, name: GoString)
    requires IsAscii(name) && |name| <= MAX_TEXT
    ensures WriteRoot(floats, Leaf(TEXT, name, [])).Some?
    ensures ValidString(name) && BytesOf(name) == name
  {
    hide UnitsOfBytes, UnitsOf, RunesOf, Utf8, FromUtf8;
    TextOfAscii(name);
    EncodeAfterDecode(name);
    TextOfAscii([]);
    EncodeAfterDecode([]);
    var root := Leaf(TEXT, name, []);
    var w := WriteText(name, WriteState([TEXT], 0, 0)).value;
    assert |w.out| == 3 + |name|;
    assert WriteTag(floats, root, 0, w) == WriteText([], w.(nodes := 1));
  }

  /** The exception happens: an empty string tag whose name is 7424 letters "a" is accepted, and the
      file written for it does not decode to it. */
  lemma ZlibLookalike(floats: FloatText, packer: Compressor)
    requires InversePair(packer)
    ensures var doc := Document(Plain, Leaf(TEXT, Repeat(97, 7424), []));
            EncodeSpec(floats, packer, doc).Some?
            && DecodeSpec(floats, packer, EncodeSpec(floats, packer, doc).value)
               != Some(Document(Plain, Canon(floats, doc.root)))
  {
    hide ReadRoot, WriteRoot, BytesOf, FromUtf8, Canon, Sniff, Repeat;
    EmptyTextIsAccepted(floats, Repeat(97, 7424));
    EncodeThenDecode(floats, packer, Document(Plain, Leaf(TEXT, Repeat(97, 7424), [])));
  }
}
