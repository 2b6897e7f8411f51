/**
  Bounded Java Edition NBT documents (internal/nbt/nbt.go): the tags, and the reader and writer as
  functions of an explicit state. The classes in NbtReader.dfy and NbtWriter.dfy, which keep that
  state in mutable fields as the source does, are proved against these functions.
 */
module Nbt {
  import opened Options
  import opened Bytes
  import opened ModifiedUtf8

  const MAX_BYTES: nat := 16 * 1024 * 1024
  const MAX_NODES: nat := 100000
  const MAX_ELEMENTS: nat := 1000000
  const MAX_DEPTH: nat := 64
  const MAX_TEXT: nat := 65535

  const LIST: byte := 9
  const COMPOUND: byte := 10
  const TEXT: byte := 8

  /** One tag, with every field of the source's struct whatever the kind. */
  datatype Tag = Tag(
    kind: byte,
    name: GoString,
    value: GoString,
    children: seq<Tag>,
    listType: byte,
    values: seq<GoString>)

  datatype Compression = Plain | Gzip | Zlib | Unknown(other: GoString)

  datatype Document = Document(compression: Compression, root: Tag)

  function Leaf(kind: byte, name: GoString, value: GoString): Tag {
    Tag(kind, name, value, [], 0, [])
  }

  predicate IsInteger(kind: byte) {
    1 <= kind <= 4
  }

  predicate IsFloat(kind: byte) {
    5 <= kind <= 6
  }

  predicate IsArray(kind: byte) {
    kind == 7 || kind == 11 || kind == 12
  }

  /** Bytes of a scalar, or of one element of an array. */
  function Width(kind: byte): (w: nat)
    requires IsInteger(kind) || IsFloat(kind) || IsArray(kind)
    ensures 1 <= w <= 8
  {
    if kind == 1 || kind == 7 then 1
    else if kind == 2 then 2
    else if kind == 3 || kind == 5 || kind == 11 then 4
    else 8
  }

  // ---- literals -----------------------------------------------------------------------------------

  /** strconv.FormatFloat and strconv.ParseFloat on IEEE bits of a width in bytes. */
  datatype FloatText = FloatText(
    format: (nat, nat) -> GoString,
    parse: (GoString, nat) -> Option<nat>)

  /** "NaN:0x" */
  const NAN_PREFIX: GoString := [78, 97, 78, 58, 48, 120]

  predicate IsNaN(bits: nat, width: nat) {
    if width == 4 then bits % 0x8000_0000 > 0x7F80_0000
    else bits % 0x8000_0000_0000_0000 > 0x7FF0_0000_0000_0000
  }

  function FormatFloat(floats: FloatText, bits: nat, width: nat): GoString {
    if IsNaN(bits, width) then NAN_PREFIX + FormatHex(bits) else floats.format(bits, width)
  }

  predicate NaNText(s: GoString) {
    |s| > 6 && s[..6] == NAN_PREFIX
  }

  function FloatBits(floats: FloatText, s: GoString, width: nat): (r: Option<nat>)
    ensures r.Some? ==> r.value < Pow256(width)
  {
    if NaNText(s) then
      var bits :- ParseHex(s[6..], Pow256(width));
      if FormatFloat(floats, bits, width) == s then Some(bits) else None
    else
      var bits :- floats.parse(s, width);
      if bits < Pow256(width) then Some(bits) else None
  }

  /** The shortest-form round trip that strconv documents, for numbers that are not NaN. */
  ghost predicate Faithful(floats: FloatText) {
    forall bits: nat, width: nat ::
      (width == 4 || width == 8) && bits < Pow256(width) && !IsNaN(bits, width) ==>
        floats.parse(floats.format(bits, width), width) == Some(bits)
        && !NaNText(floats.format(bits, width))
  }

  function IntegerText(bits: nat, width: nat): GoString
    requires width > 0 && bits < Pow256(width)
  {
    FormatInt(FromBits(bits, width))
  }

  function IntegerBits(s: GoString, width: nat): (r: Option<nat>)
    requires width > 0
    ensures r.Some? ==> r.value < Pow256(width)
  {
    var v :- ParseInt(s, width);
    Some(ToBits(v, width))
  }

  function ScalarText(floats: FloatText, kind: byte, bits: nat): GoString
    requires (IsInteger(kind) || IsFloat(kind)) && bits < Pow256(Width(kind))
  {
    if IsFloat(kind) then FormatFloat(floats, bits, Width(kind)) else IntegerText(bits, Width(kind))
  }

  function ScalarBits(floats: FloatText, kind: byte, s: GoString): (r: Option<nat>)
    requires IsInteger(kind) || IsFloat(kind)
    ensures r.Some? ==> r.value < Pow256(Width(kind))
  {
    if IsFloat(kind) then FloatBits(floats, s, Width(kind)) else IntegerBits(s, Width(kind))
  }

  // ---- the reader -----------------------------------------------------------------------------------

  datatype ReadState = ReadState(rest: seq<byte>, nodes: nat, elements: nat)

  function ReadByte(st: ReadState): (r: Option<(byte, ReadState)>)
    ensures r.Some? ==> |r.value.1.rest| < |st.rest|
  {
    if st.rest == [] then None else Some((st.rest[0], st.(rest := st.rest[1..])))
  }

  function ReadNumber(width: nat, st: ReadState): (r: Option<(nat, ReadState)>)
    ensures r.Some? ==> |r.value.1.rest| == |st.rest| - width && r.value.0 < Pow256(width)
  {
    if |st.rest| < width then None
    else Some((FromBigEndian(st.rest[..width]), st.(rest := st.rest[width..])))
  }

  /** The source's reader keeps the text of a string; with `raw` its bytes are kept instead, for the
      lemmas that speak of both. Either way they must spell a text. */
  function ReadText(raw: bool, st: ReadState): (r: Option<(GoString, ReadState)>)
    ensures r.Some? ==> |r.value.1.rest| < |st.rest|
  {
    var (size, st1) :- ReadNumber(2, st);
    if |st1.rest| < size then None
    else
      var s :- TextOf(st1.rest[..size]);
      Some((if raw then st1.rest[..size] else s, st1.(rest := st1.rest[size..])))
  }

  /** A collection length: not negative, payable by the remaining bytes, within the element budget. */
  function ReadCount(width: nat, st: ReadState): (r: Option<(nat, ReadState)>)
    ensures r.Some? ==> |r.value.1.rest| <= |st.rest|
  {
    var (bits, st1) :- ReadNumber(4, st);
    var n := FromBits(bits, 4);
    if n < 0 || n * width > |st1.rest| || n > MAX_ELEMENTS - st1.elements then None
    else Some((n, st1.(elements := st1.elements + n)))
  }

  function ReadValues(width: nat, n: nat, st: ReadState): (r: Option<(seq<GoString>, ReadState)>)
    requires width > 0
    ensures r.Some? ==> |r.value.1.rest| <= |st.rest|
    decreases n
  {
    if n == 0 then Some(([], st))
    else
      var (bits, st1) :- ReadNumber(width, st);
      var (vs, st2) :- ReadValues(width, n - 1, st1);
      Some(([IntegerText(bits, width)] + vs, st2))
  }

  function ReadScalar(floats: FloatText, kind: byte, name: GoString, st: ReadState): (r: Option<(Tag, ReadState)>)
    requires IsInteger(kind) || IsFloat(kind)
    ensures r.Some? ==> |r.value.1.rest| <= |st.rest|
  {
    var (bits, st1) :- ReadNumber(Width(kind), st);
    Some((Leaf(kind, name, ScalarText(floats, kind, bits)), st1))
  }

  function ReadArray(kind: byte, name: GoString, st: ReadState): (r: Option<(Tag, ReadState)>)
    requires IsArray(kind)
    ensures r.Some? ==> |r.value.1.rest| <= |st.rest|
  {
    var (n, st1) :- ReadCount(Width(kind), st);
    var (values, st2) :- ReadValues(Width(kind), n, st1);
    Some((Tag(kind, name, [], [], 0, values), st2))
  }

  /** The payload of a tag whose kind and name have been read. */
  function ReadTag(floats: FloatText, raw: bool, kind: byte, name: GoString, depth: nat, st0: ReadState):
    (r: Option<(Tag, ReadState)>)
    ensures r.Some? ==> |r.value.1.rest| <= |st0.rest|
    decreases 66 - depth, 0
  {
    var st := st0.(nodes := st0.nodes + 1);
    if depth > MAX_DEPTH || st.nodes > MAX_NODES then None
    else if IsInteger(kind) || IsFloat(kind) then ReadScalar(floats, kind, name, st)
    else if IsArray(kind) then ReadArray(kind, name, st)
    else if kind == TEXT then
      var (s, st1) :- ReadText(raw, st);
      Some((Leaf(kind, name, s), st1))
    else if kind == LIST then
      var (listType, st1) :- ReadByte(st);
      var (n, st2) :- ReadCount(1, st1);
      if listType > 12 || (listType == 0 && n != 0) || n > MAX_NODES - st2.nodes then None
      else
        var (children, st3) :- ReadList(floats, raw, listType, n, depth + 1, st2);
        Some((Tag(kind, name, [], children, listType, []), st3))
    else if kind == COMPOUND then
      var (children, st1) :- ReadMembers(floats, raw, {}, depth + 1, st);
      Some((Tag(kind, name, [], children, 0, []), st1))
    else None
  }

  /** `n` unnamed tags of one kind. */
  function ReadList(floats: FloatText, raw: bool, listType: byte, n: nat, depth: nat, st: ReadState):
    (r: Option<(seq<Tag>, ReadState)>)
    ensures r.Some? ==> |r.value.1.rest| <= |st.rest|
    decreases 66 - depth, 1, n
  {
    if n == 0 then Some(([], st))
    else
      var (child, st1) :- ReadTag(floats, raw, listType, [], depth, st);
      var (rest, st2) :- ReadList(floats, raw, listType, n - 1, depth, st1);
      Some(([child] + rest, st2))
  }

  /** Named tags up to the end marker, none named like one of `names` or like each other. */
  function ReadMembers(floats: FloatText, raw: bool, names: set<GoString>, depth: nat, st: ReadState):
    (r: Option<(seq<Tag>, ReadState)>)
    ensures r.Some? ==> |r.value.1.rest| <= |st.rest|
    decreases 66 - depth, 1, |st.rest|
  {
    var (kind, st1) :- ReadByte(st);
    if kind == 0 then Some(([], st1))
    else
      var (name, st2) :- ReadText(raw, st1);
      if name in names then None
      else
        var (child, st3) :- ReadTag(floats, raw, kind, name, depth, st2);
        var (rest, st4) :- ReadMembers(floats, raw, names + {name}, depth, st3);
        Some(([child] + rest, st4))
  }

  /** A whole uncompressed document. */
  function ReadRoot(floats: FloatText, raw: bool, data: seq<byte>): Option<Tag> {
    var (kind, st1) :- ReadByte(ReadState(data, 0, 0));
    if kind < 1 || kind > 12 then None
    else
      var (name, st2) :- ReadText(raw, st1);
      var (root, st3) :- ReadTag(floats, raw, kind, name, 0, st2);
      if st3.rest == [] then Some(root) else None
  }

  // ---- the writer -----------------------------------------------------------------------------------

  datatype WriteState = WriteState(out: seq<byte>, nodes: nat, elements: nat)

  function Append(w: WriteState, b: seq<byte>): WriteState {
    w.(out := w.out + b)
  }

  function WriteText(s: GoString, w: WriteState): Option<WriteState> {
    if !ValidString(s) || |s| > MAX_TEXT then None
    else
      var b := BytesOf(s);
      if |b| > MAX_TEXT then None else Some(Append(Append(w, BigEndian(|b|, 2)), b))
  }

  /** The fields a kind does not use are empty. */
  predicate Structured(t: Tag) {
    && 1 <= t.kind <= 12
    && (t.kind == LIST || t.kind == COMPOUND || t.children == [])
    && (IsArray(t.kind) || t.values == [])
    && (t.kind == LIST || t.listType == 0)
    && (IsArray(t.kind) || t.kind == LIST || t.kind == COMPOUND ==> t.value == [])
  }

  function WriteValues(width: nat, values: seq<GoString>, w: WriteState): Option<WriteState>
    requires width > 0
  {
    if values == [] then Some(w)
    else
      var bits :- IntegerBits(values[0], width);
      WriteValues(width, values[1..], Append(w, BigEndian(bits, width)))
  }

  function WriteScalar(floats: FloatText, t: Tag, w: WriteState): Option<WriteState>
    requires IsInteger(t.kind) || IsFloat(t.kind)
  {
    var bits :- ScalarBits(floats, t.kind, t.value);
    Some(Append(w, BigEndian(bits, Width(t.kind))))
  }

  function WriteArray(t: Tag, w: WriteState): Option<WriteState>
    requires IsArray(t.kind)
  {
    if |t.values| > MAX_ELEMENTS - w.elements then None
    else
      WriteValues(Width(t.kind), t.values,
                  Append(w.(elements := w.elements + |t.values|), BigEndian(|t.values|, 4)))
  }

  function WriteTag(floats: FloatText, t: Tag, depth: nat, w0: WriteState): Option<WriteState>
    decreases t, 0
  {
    var w := w0.(nodes := w0.nodes + 1);
    if depth > MAX_DEPTH || w.nodes > MAX_NODES || |w.out| > MAX_BYTES || !Structured(t) then None
    else if IsInteger(t.kind) || IsFloat(t.kind) then WriteScalar(floats, t, w)
    else if IsArray(t.kind) then WriteArray(t, w)
    else if t.kind == TEXT then WriteText(t.value, w)
    else if t.kind == LIST then
      if t.listType > 12 || (t.listType == 0 && t.children != []) || |t.children| > MAX_ELEMENTS - w.elements
      then None
      else
        WriteList(floats, t.listType, t.children, depth + 1,
                  Append(w.(elements := w.elements + |t.children|),
                         [t.listType] + BigEndian(|t.children|, 4)))
    else
      var w1 :- WriteMembers(floats, {}, t.children, depth + 1, w);
      Some(Append(w1, [0]))
  }

  function WriteList(floats: FloatText, listType: byte, children: seq<Tag>, depth: nat, w: WriteState):
    Option<WriteState>
    decreases children, 1
  {
    if children == [] then Some(w)
    else if children[0].kind != listType || children[0].name != [] then None
    else
      var w1 :- WriteTag(floats, children[0], depth, w);
      WriteList(floats, listType, children[1..], depth, w1)
  }

  function WriteMembers(floats: FloatText, names: set<GoString>, children: seq<Tag>, depth: nat, w: WriteState):
    Option<WriteState>
    decreases children, 1
  {
    if children == [] then Some(w)
    else if children[0].name in names then None
    else
      var w1 :- WriteText(children[0].name, Append(w, [children[0].kind]));
      var w2 :- WriteTag(floats, children[0], depth, w1);
      WriteMembers(floats, names + {children[0].name}, children[1..], depth, w2)
  }

  function WriteRoot(floats: FloatText, root: Tag): Option<seq<byte>> {
    var w1 :- WriteText(root.name, WriteState([root.kind], 0, 0));
    var w2 :- WriteTag(floats, root, 0, w1);
    if |w2.out| > MAX_BYTES then None else Some(w2.out)
  }

  // ---- documents ------------------------------------------------------------------------------------

  /** The compression libraries: what they write, and what they accept. */
  datatype Compressor = Compressor(
    deflate: (Compression, seq<byte>) -> seq<byte>,
    inflate: (Compression, seq<byte>) -> Option<seq<byte>>)

  /** The first two bytes decide how a file is read: the gzip magic number (section 2.3.1 of RFC 1952),
      or a deflate method whose header check divides by 31 (section 2.2 of RFC 1950). */
  function Sniff(data: seq<byte>): Compression {
    if |data| >= 2 && data[0] == 0x1F && data[1] == 0x8B then Gzip
    else if |data| >= 2 && data[0] % 16 == 8 && (256 * (data[0] as int) + data[1]) % 31 == 0 then Zlib
    else Plain
  }

  /** What Decode returns. */
  function DecodeSpec(floats: FloatText, packer: Compressor, data: seq<byte>): Option<Document> {
    if |data| > MAX_BYTES then None
    else
      var plain :- if Sniff(data) == Plain then Some(data) else packer.inflate(Sniff(data), data);
      if |plain| > MAX_BYTES then None
      else
        var root :- ReadRoot(floats, false, plain);
        Some(Document(Sniff(data), root))
  }

  /** What Encode returns. */
  function EncodeSpec(floats: FloatText, packer: Compressor, doc: Document): Option<seq<byte>> {
    var plain :- WriteRoot(floats, doc.root);
    if doc.compression == Plain then Some(plain)
    else if doc.compression.Unknown? then None
    else
      var packed := packer.deflate(doc.compression, plain);
      if |packed| > MAX_BYTES then None else Some(packed)
  }
}
