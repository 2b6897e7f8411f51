/**
  What Encode accepts and what it writes (internal/nbt/nbt.go), said without the writer's state: the
  bytes of a document as a function of its tree alone, and the documents it is defined on. The
  writer's counters, its early exits and its order of checks do not show in either.
 */
module NbtWire {
  import opened Options
  import opened Bytes
  import opened ModifiedUtf8
  import opened Nbt
  import opened NbtSound
  import opened NbtEncodeDecode
  import opened NbtDecodeEncode

  // ---- numeric literals -----------------------------------------------------------------------------

  /** The texts that spell an integer: digits, or digits behind a sign. */
  predicate SpellsInteger(s: GoString, n: int) {
    DigitRun(s, n)
    || (s != [] && s[0] == 43 && DigitRun(s[1..], n))
    || (s != [] && s[0] == 45 && DigitRun(s[1..], -n))
  }

  /** One or more decimal digits, leading zeros included, of value n. */
  predicate DigitRun(d: GoString, n: int) {
    d != [] && n >= 0 && DigitsValue(d) == Some(n)
  }

  /** The range of a two's complement integer of 1, 2, 4 or 8 bytes. */
  predicate InRange(n: int, width: nat) {
    if width == 1 then -0x80 <= n < 0x80
    else if width == 2 then -0x8000 <= n < 0x8000
    else if width == 4 then -0x8000_0000 <= n < 0x8000_0000
    else -0x8000_0000_0000_0000 <= n < 0x8000_0000_0000_0000
  }

  function Modulus(width: nat): (m: nat)
    ensures m > 0
  {
    if width == 1 then 0x100
    else if width == 2 then 0x1_0000
    else if width == 4 then 0x1_0000_0000
    else 0x1_0000_0000_0000_0000
  }

  predicate IsWidth(width: nat) {
    width == 1 || width == 2 || width == 4 || width == 8
  }

  lemma Powers()
    ensures Pow256(0) == 1 && Pow256(1) == 0x100 && Pow256(2) == 0x1_0000 && Pow256(3) == 0x100_0000
    ensures Pow256(4) == 0x1_0000_0000 && Pow256(7) == 0x100_0000_0000_0000
    ensures Pow256(8) == 0x1_0000_0000_0000_0000
  {
    assert Pow256(5) == 0x100_0000_0000 && Pow256(6) == 0x1_0000_0000_0000;
  }

  /** A literal is read for the integer it spells, however it spells it: with a plus, a minus or leading
      zeros; it is refused exactly if that integer is out of range; and its canonical text is the plain
      decimal one. */
  lemma IntegerLiteral(s: GoString, n: int, width: nat)
    requires IsWidth(width) && SpellsInteger(s, n)
    ensures IntegerBits(s, width) == (if InRange(n, width) then Some(n % Modulus(width)) else None)
    ensures InRange(n, width) ==> IntegerText(IntegerBits(s, width).value, width) == FormatInt(n)
  {
    hide Pow256, DigitsValue, FormatInt;
    Powers();
    assert Fits(n, width) == InRange(n, width);
    if DigitRun(s, n) {
      ParseDigits(s, n, width);
    } else if s[0] == PLUS && DigitRun(s[1..], n) {
      assert s == [PLUS] + s[1..];
      ParseDigits(s[1..], n, width);
    } else {
      assert s == [MINUS] + s[1..];
      ParseDigits(s[1..], -n, width);
    }
    if InRange(n, width) {
      BitsModulo(n, width);
    }
  }

  /** And nothing else is read as one. */
  lemma OnlyIntegers(s: GoString, width: nat) returns (n: int)
    requires IsWidth(width) && IntegerBits(s, width).Some?
    ensures SpellsInteger(s, n) && InRange(n, width)
  {
    n := ParseInt(s, width).value;
    Powers();
  }

  /** NaN is a biased exponent of all ones with a fraction other than zero: 8 and 23 bits of the four-byte
      format, 11 and 52 of the eight-byte one. */
  lemma NaNIsExact(bits: nat)
    ensures IsNaN(bits, 4) <==> bits / 0x80_0000 % 0x100 == 0xFF && bits % 0x80_0000 != 0
    ensures IsNaN(bits, 8) <==>
      bits / 0x10_0000_0000_0000 % 0x800 == 0x7FF && bits % 0x10_0000_0000_0000 != 0
  {
  }

  /** The quiet NaN of four bytes is printed as "NaN:0x7fc00000", whatever library prints the numbers. */
  lemma QuietNaNText(floats: FloatText)
    ensures FormatFloat(floats, 0x7FC0_0000, 4)
         == [78, 97, 78, 58, 48, 120, 55, 102, 99, 48, 48, 48, 48, 48]
  {
    assert FormatHex(0x7FC) == [55, 102, 99];
    assert FormatHex(0x7FC0) == FormatHex(0x7FC) + [48];
    assert FormatHex(0x7FC00) == FormatHex(0x7FC0) + [48];
    assert FormatHex(0x7FC000) == FormatHex(0x7FC00) + [48];
    assert FormatHex(0x7FC0000) == FormatHex(0x7FC000) + [48];
  }

  /** "NaN:0x" and something behind it. */
  predicate LooksLikeNaN(s: GoString) {
    |s| > 6 && s[..6] == [78, 97, 78, 58, 48, 120]
  }

  /** A float literal that looks like a NaN is read exactly if it is the text of one, digit for digit, and
      then as its bits; any other is what the library reads in it. */
  lemma FloatLiteral(floats: FloatText, s: GoString, width: nat, bits: nat)
    requires Faithful(floats) && (width == 4 || width == 8)
    ensures LooksLikeNaN(s) ==>
              (FloatBits(floats, s, width) == Some(bits) <==>
                 IsNaN(bits, width) && bits < Modulus(width)
                 && s == [78, 97, 78, 58, 48, 120] + FormatHex(bits))
    ensures !LooksLikeNaN(s) ==>
              (FloatBits(floats, s, width) == Some(bits) <==>
                 floats.parse(s, width) == Some(bits) && bits < Modulus(width))
  {
    hide FormatHex, HexDigitsValue, Pow256;
    Powers();
    if IsNaN(bits, width) && bits < Modulus(width) && s == NAN_PREFIX + FormatHex(bits) {
      NaNKeepsBits(floats, bits, width);
    }
  }

  // ---- the bytes of a tree ----------------------------------------------------------------------------

  function Scalar(floats: FloatText, kind: byte, s: GoString, width: nat): seq<byte>
    requires width > 0
  {
    var bits := if kind == 5 || kind == 6 then FloatBits(floats, s, width) else IntegerBits(s, width);
    if bits.Some? then BigEndian(bits.value, width) else []
  }

  function Scalars(values: seq<GoString>, width: nat): seq<byte>
    requires width > 0
  {
    if values == [] then []
    else
      var bits := IntegerBits(values[0], width);
      (if bits.Some? then BigEndian(bits.value, width) else []) + Scalars(values[1..], width)
  }

  /** A string behind its length in two bytes. */
  function Text(s: GoString): seq<byte> {
    if ValidString(s) then BigEndian(|BytesOf(s)|, 2) + BytesOf(s) else []
  }

  /** What a tag's kind and name are followed by: numbers most significant byte first, counts in four
      bytes, a list's kind before its count, the members of a compound with their own kind and name, and
      a zero byte after them. */
  function Body(floats: FloatText, t: Tag): seq<byte>
    decreases t, 0
  {
    match t.kind
    case 1 => Scalar(floats, 1, t.value, 1)
    case 2 => Scalar(floats, 2, t.value, 2)
    case 3 => Scalar(floats, 3, t.value, 4)
    case 4 => Scalar(floats, 4, t.value, 8)
    case 5 => Scalar(floats, 5, t.value, 4)
    case 6 => Scalar(floats, 6, t.value, 8)
    case 7 => BigEndian(|t.values|, 4) + Scalars(t.values, 1)
    case 8 => Text(t.value)
    case 9 => ([t.listType] + BigEndian(|t.children|, 4)) + Bodies(floats, t.children)
    case 10 => Members(floats, t.children) + [0]
    case 11 => BigEndian(|t.values|, 4) + Scalars(t.values, 4)
    case 12 => BigEndian(|t.values|, 4) + Scalars(t.values, 8)
    case _ => []
  }

  function Bodies(floats: FloatText, ts: seq<Tag>): seq<byte>
    decreases ts, 1
  {
    if ts == [] then [] else Body(floats, ts[0]) + Bodies(floats, ts[1..])
  }

  function Members(floats: FloatText, ts: seq<Tag>): seq<byte>
    decreases ts, 1
  {
    if ts == [] then []
    else (([ts[0].kind] + Text(ts[0].name)) + Body(floats, ts[0])) + Members(floats, ts[1..])
  }

  /** The bytes of an uncompressed document. */
  function Wire(floats: FloatText, root: Tag): seq<byte> {
    ([root.kind] + Text(root.name)) + Body(floats, root)
  }

  // ---- the trees that have bytes ----------------------------------------------------------------------

  /** A valid string of at most 65535 bytes, plain and in modified UTF-8. */
  predicate TextFits(s: GoString) {
    ValidString(s) && |s| <= 65535 && |BytesOf(s)| <= 65535
  }

  predicate ValuesLegal(values: seq<GoString>, width: nat)
    requires width > 0
  {
    forall i :: 0 <= i < |values| ==> IntegerBits(values[i], width).Some?
  }

  /** The fields a kind does not use are empty; every literal is read and every string fits; a list holds
      unnamed tags of its one kind, a compound tags whose names fit and are distinct. */
  predicate Legal(floats: FloatText, t: Tag)
    decreases t, 0
  {
    && 1 <= t.kind <= 12
    && (t.kind != 9 && t.kind != 10 ==> t.children == [])
    && (t.kind != 7 && t.kind != 11 && t.kind != 12 ==> t.values == [])
    && (t.kind != 9 ==> t.listType == 0)
    && (t.kind == 7 || 9 <= t.kind ==> t.value == [])
    && LiteralsLegal(floats, t)
    && (t.kind == 9 ==> t.listType <= 12 && ListLegal(t.listType, t.children))
    && (t.kind == 10 ==> NamesLegal({}, t.children))
    && AllLegal(floats, t.children)
  }

  predicate LiteralsLegal(floats: FloatText, t: Tag) {
    match t.kind
    case 1 => IntegerBits(t.value, 1).Some?
    case 2 => IntegerBits(t.value, 2).Some?
    case 3 => IntegerBits(t.value, 4).Some?
    case 4 => IntegerBits(t.value, 8).Some?
    case 5 => FloatBits(floats, t.value, 4).Some?
    case 6 => FloatBits(floats, t.value, 8).Some?
    case 7 => ValuesLegal(t.values, 1)
    case 8 => TextFits(t.value)
    case 11 => ValuesLegal(t.values, 4)
    case 12 => ValuesLegal(t.values, 8)
    case _ => true
  }

  predicate ListLegal(listType: byte, ts: seq<Tag>) {
    ts == [] || (ts[0].kind == listType && ts[0].name == [] && ListLegal(listType, ts[1..]))
  }

  predicate NamesLegal(names: set<GoString>, ts: seq<Tag>)
    decreases ts
  {
    ts == [] || (TextFits(ts[0].name) && ts[0].name !in names && NamesLegal(names + {ts[0].name}, ts[1..]))
  }

  predicate AllLegal(floats: FloatText, ts: seq<Tag>)
    decreases ts, 1
  {
    if ts == [] then true else Legal(floats, ts[0]) && AllLegal(floats, ts[1..])
  }

  // ---- the writer ---------------------------------------------------------------------------------------

  lemma {:induction false} ValuesWritten(width: nat, values: seq<GoString>, w: WriteState)
    requires width > 0
    ensures WriteValues(width, values, w)
         == if ValuesLegal(values, width) then Some(Append(w, Scalars(values, width))) else None
    decreases |values|
  {
    hide IntegerBits, BigEndian;
    if values == [] {
      assert w.out + [] == w.out;
    } else if IntegerBits(values[0], width).Some? {
      var first := BigEndian(IntegerBits(values[0], width).value, width);
      ValuesWritten(width, values[1..], Append(w, first));
      Assoc(w.out, first, Scalars(values[1..], width));
      assert ValuesLegal(values, width) <==> ValuesLegal(values[1..], width) by {
        assert forall i :: 1 <= i < |values| ==> values[i] == values[1..][i - 1];
      }
    }
  }

  lemma TextWritten(s: GoString, w: WriteState)
    ensures WriteText(s, w) == if TextFits(s) then Some(Append(w, Text(s))) else None
  {
    hide BytesOf, FromUtf8, BigEndian;
    if TextFits(s) {
      Assoc(w.out, BigEndian(|BytesOf(s)|, 2), BytesOf(s));
    }
  }

  /** The writer after a tree of so many tags and elements, if it went well. */
  function After(w: WriteState, b: seq<byte>, tags: nat, elements: nat): WriteState {
    WriteState(w.out + b, w.nodes + tags, w.elements + elements)
  }

  /** The budgets are not overspent. */
  predicate Budget(w: WriteState) {
    w.nodes <= 100000 && w.elements <= 1000000
  }

  /** What one call of the writer does: if it succeeds then the tree was fine, its bytes and counts are
      added and the budgets still hold; and it succeeds if the tree is fine and there is room for it. */
  ghost predicate Written(fine: bool, b: seq<byte>, tags: nat, elements: nat, w: WriteState, r: Option<WriteState>) {
    && (r.Some? ==> fine && r.value == After(w, b, tags, elements) && Budget(r.value))
    && (fine && Budget(After(w, b, tags, elements)) && |w.out| + |b| <= 16777216 ==> r.Some?)
  }

  lemma {:induction false} TagWritten(floats: FloatText, t: Tag, depth: nat, w: WriteState)
    requires Budget(w)
    ensures Written(Legal(floats, t) && Within(t, 64 - depth), Body(floats, t), CountTags(t), Elements(t), w,
                    WriteTag(floats, t, depth, w))
    decreases t, 0
  {
    hide WriteList, WriteMembers, WriteValues, WriteText, IntegerBits, FloatBits, BigEndian, BytesOf, FromUtf8;
    hide AllLegal, ListLegal, NamesLegal, Bodies, Members, AllWithin, ValuesLegal, Scalars, TextFits, Text;
    hide CountAll, ElementsAll;
    var w1 := w.(nodes := w.nodes + 1);
    if depth > 64 || w1.nodes > 100000 || |w.out| > 16777216 || !Structured(t) {
    } else if IsInteger(t.kind) || IsFloat(t.kind) {
      LeafCounts(floats, t, 64 - depth);
    } else if IsArray(t.kind) {
      LeafCounts(floats, t, 64 - depth);
      ArrayWritten(floats, t, w1);
    } else if t.kind == TEXT {
      LeafCounts(floats, t, 64 - depth);
      TextWritten(t.value, w1);
    } else if t.kind == LIST {
      ListTagWritten(floats, t, depth, w);
    } else {
      MembersWritten(floats, {}, t.children, depth + 1, w1);
    }
  }

  lemma LeafCounts(floats: FloatText, t: Tag, limit: int)
    requires t.children == []
    ensures CountTags(t) == 1 && Elements(t) == |t.values| && (Within(t, limit) <==> limit >= 0)
    ensures AllLegal(floats, t.children)
  {
  }

  lemma ArrayWritten(floats: FloatText, t: Tag, w: WriteState)
    requires IsArray(t.kind) && Budget(w)
    ensures Written(LiteralsLegal(floats, t), Body(floats, t), 0, |t.values|, w, WriteArray(t, w))
  {
    hide BigEndian, IntegerBits, Scalars, ValuesLegal, WriteValues;
    var head := BigEndian(|t.values|, 4);
    if |t.values| <= 1000000 - w.elements {
      var width := Width(t.kind);
      ValuesWritten(width, t.values, Append(w.(elements := w.elements + |t.values|), head));
      Assoc(w.out, head, Scalars(t.values, width));
    }
  }

  lemma {:induction false} ListTagWritten(floats: FloatText, t: Tag, depth: nat, w: WriteState)
    requires Budget(w) && t.kind == LIST
    ensures Written(Legal(floats, t) && Within(t, 64 - depth), Body(floats, t), CountTags(t), Elements(t), w,
                    WriteTag(floats, t, depth, w))
    decreases t.children, 2
  {
    hide WriteList, WriteMembers, WriteScalar, WriteArray, WriteText, IntegerBits, FloatBits, BigEndian;
    hide AllLegal, ListLegal, NamesLegal, Bodies, Members, AllWithin, CountAll, ElementsAll;
    var w1 := w.(nodes := w.nodes + 1);
    var n := |t.children|;
    var head := [t.listType] + BigEndian(n, 4);
    if depth > 64 || w1.nodes > 100000 || |w.out| > 16777216 || !Structured(t) {
    } else if t.listType > 12 || n > 1000000 - w.elements {
    } else if t.listType == 0 && t.children != [] {
      NoListOfEnds(floats, t.children);
    } else {
      ListWritten(floats, t.listType, t.children, depth + 1, Append(w1.(elements := w.elements + n), head));
      Assoc(w.out, head, Bodies(floats, t.children));
    }
  }

  lemma NoListOfEnds(floats: FloatText, ts: seq<Tag>)
    requires ts != []
    ensures !(ListLegal(0, ts) && AllLegal(floats, ts))
  {
  }

  lemma {:induction false} ListWritten(floats: FloatText, listType: byte, ts: seq<Tag>, depth: nat, w: WriteState)
    requires Budget(w)
    ensures Written(ListLegal(listType, ts) && AllLegal(floats, ts) && AllWithin(ts, 64 - depth),
                    Bodies(floats, ts), CountAll(ts), ElementsAll(ts), w, WriteList(floats, listType, ts, depth, w))
    decreases ts, 1
  {
    hide WriteTag, Legal, Within, CountTags, Elements, Body;
    if ts == [] {
      assert w.out + [] == w.out;
    } else {
      TagWritten(floats, ts[0], depth, w);
      var w1 := WriteTag(floats, ts[0], depth, w);
      if w1.Some? {
        ListWritten(floats, listType, ts[1..], depth, w1.value);
        Assoc(w.out, Body(floats, ts[0]), Bodies(floats, ts[1..]));
      }
    }
  }

  lemma {:induction false} MembersWritten(floats: FloatText, names: set<GoString>, ts: seq<Tag>, depth: nat,
                                          w: WriteState)
    requires Budget(w)
    ensures Written(NamesLegal(names, ts) && AllLegal(floats, ts) && AllWithin(ts, 64 - depth),
                    Members(floats, ts), CountAll(ts), ElementsAll(ts), w, WriteMembers(floats, names, ts, depth, w))
    decreases ts, 1
  {
    hide WriteTag, WriteText, Legal, Within, CountTags, Elements, Body, Text, TextFits;
    if ts == [] {
      assert w.out + [] == w.out;
    } else {
      var t, named := ts[0], Append(w, [ts[0].kind]);
      TextWritten(t.name, named);
      if t.name !in names && TextFits(t.name) {
        var w1 := WriteText(t.name, named).value;
        TagWritten(floats, t, depth, w1);
        var w2 := WriteTag(floats, t, depth, w1);
        if w2.Some? {
          MembersWritten(floats, names + {t.name}, ts[1..], depth, w2.value);
          MembersBytes(w.out, [t.kind], Text(t.name), Body(floats, t), Members(floats, ts[1..]));
        }
      }
    }
  }

  // ---- documents ----------------------------------------------------------------------------------------

  /** The documents that can be written at all: a legal tree whose own name fits, within every limit. */
  predicate Writable(floats: FloatText, root: Tag) {
    && TextFits(root.name) && Legal(floats, root)
    && Within(root, 64) && CountTags(root) <= 100000 && Elements(root) <= 1000000
    && |Wire(floats, root)| <= 16777216
  }

  /** The writer writes the bytes of exactly the writable trees. */
  lemma RootWritten(floats: FloatText, root: Tag)
    ensures WriteRoot(floats, root) == if Writable(floats, root) then Some(Wire(floats, root)) else None
  {
    hide WriteTag, WriteText, Legal, Within, CountTags, Elements, Body, Text, TextFits;
    var w := WriteState([root.kind], 0, 0);
    TextWritten(root.name, w);
    if TextFits(root.name) {
      TagWritten(floats, root, 0, WriteText(root.name, w).value);
    }
  }

  /** Encode succeeds for exactly the writable trees under a compression that is known, unless the
      compressed file is too long; and what it compresses, or leaves plain, is the bytes of the tree. */
  lemma EncodeAccepts(floats: FloatText, packer: Compressor, doc: Document)
    ensures EncodeSpec(floats, packer, doc)
         == if !Writable(floats, doc.root) then None
            else match doc.compression {
                   case Plain => Some(Wire(floats, doc.root))
                   case Unknown(_) => None
                   case _ =>
                     var packed := packer.deflate(doc.compression, Wire(floats, doc.root));
                     if |packed| <= 16777216 then Some(packed) else None
                 }
  {
    hide WriteRoot, Writable, Wire;
    RootWritten(floats, doc.root);
  }

  // ---- how a number is spelled does not matter ------------------------------------------------------------

  /** The canonical text of an integer literal is the plain decimal text of what it spells. */
  lemma CanonicalInteger(floats: FloatText, t: Tag, n: int)
    requires 1 <= t.kind <= 4 && SpellsInteger(t.value, n) && InRange(n, Width(t.kind))
    ensures Canon(floats, t).value == FormatInt(n)
  {
    hide SpellsInteger, InRange, IntegerBits, IntegerText, FormatInt;
    IntegerLiteral(t.value, n, Width(t.kind));
  }

  /** So is that of every value of an array. */
  lemma {:induction false} CanonicalElement(width: nat, values: seq<GoString>, i: nat, n: int)
    requires IsWidth(width) && i < |values| && SpellsInteger(values[i], n) && InRange(n, width)
    ensures |CanonValues(width, values)| == |values| && CanonValues(width, values)[i] == FormatInt(n)
  {
    hide SpellsInteger, InRange, IntegerBits, IntegerText, FormatInt;
    CanonCount(width, values);
    if i == 0 {
      IntegerLiteral(values[0], n, width);
    } else {
      CanonicalElement(width, values[1..], i - 1, n);
    }
  }

  lemma {:induction false} CanonCount(width: nat, values: seq<GoString>)
    requires width > 0
    ensures |CanonValues(width, values)| == |values|
  {
    if values != [] {
      CanonCount(width, values[1..]);
    }
  }

  lemma {:induction false} CanonValuesWritten(width: nat, values: seq<GoString>, w: WriteState)
    requires width > 0
    ensures WriteValues(width, CanonValues(width, values), w) == WriteValues(width, values, w)
    decreases |values|
  {
    hide BigEndian, IntegerText, IntegerBits;
    if values != [] {
      var bits := IntegerBits(values[0], width);
      if bits.Some? {
        IntegerTextBits(bits.value, width);
        CanonValuesWritten(width, values[1..], Append(w, BigEndian(bits.value, width)));
      }
    }
  }

  lemma IntegerTextBits(bits: nat, width: nat)
    requires width > 0 && bits < Pow256(width)
    ensures IntegerBits(IntegerText(bits, width), width) == Some(bits)
  {
    ParseFormat(FromBits(bits, width), width);
  }

  lemma {:induction false} CanonWritten(floats: FloatText, t: Tag, depth: nat, w: WriteState)
    requires Faithful(floats)
    ensures WriteTag(floats, Canon(floats, t), depth, w) == WriteTag(floats, t, depth, w)
    decreases t, 0
  {
    hide WriteList, WriteMembers, WriteValues, WriteText, ScalarBits, ScalarText, BigEndian, Faithful, CanonValues;
    hide CanonAll;
    var c, w1 := Canon(floats, t), w.(nodes := w.nodes + 1);
    if IsInteger(t.kind) || IsFloat(t.kind) {
      var bits := ScalarBits(floats, t.kind, t.value);
      if bits.Some? {
        ScalarForward(floats, t.kind, bits.value);
      }
      assert c.children == [] <==> t.children == [];
    } else if IsArray(t.kind) {
      var width, n := Width(t.kind), |t.values|;
      CanonCount(width, t.values);
      CanonValuesWritten(width, t.values, Append(w1.(elements := w1.elements + n), BigEndian(n, 4)));
    } else if t.kind == LIST {
      var n := |t.children|;
      var head := [t.listType] + BigEndian(n, 4);
      CanonListWritten(floats, t.listType, t.children, depth + 1, Append(w1.(elements := w1.elements + n), head));
    } else if t.kind == COMPOUND {
      CanonMembersWritten(floats, {}, t.children, depth + 1, w1);
    }
  }

  lemma {:induction false} CanonListWritten(floats: FloatText, listType: byte, ts: seq<Tag>, depth: nat, w: WriteState)
    requires Faithful(floats)
    ensures WriteList(floats, listType, CanonAll(floats, ts), depth, w) == WriteList(floats, listType, ts, depth, w)
    decreases ts, 1
  {
    hide WriteTag, Canon, Faithful;
    if ts != [] {
      CanonWritten(floats, ts[0], depth, w);
      var w1 := WriteTag(floats, ts[0], depth, w);
      if w1.Some? {
        CanonListWritten(floats, listType, ts[1..], depth, w1.value);
      }
    }
  }

  lemma {:induction false} CanonMembersWritten(floats: FloatText, names: set<GoString>, ts: seq<Tag>, depth: nat,
                                               w: WriteState)
    requires Faithful(floats)
    ensures WriteMembers(floats, names, CanonAll(floats, ts), depth, w) == WriteMembers(floats, names, ts, depth, w)
    decreases ts, 1
  {
    hide WriteTag, WriteText, Canon, Faithful;
    if ts != [] {
      var named := WriteText(ts[0].name, Append(w, [ts[0].kind]));
      if named.Some? {
        CanonWritten(floats, ts[0], depth, named.value);
        var w1 := WriteTag(floats, ts[0], depth, named.value);
        if w1.Some? {
          CanonMembersWritten(floats, names + {ts[0].name}, ts[1..], depth, w1.value);
        }
      }
    }
  }

  /** A document encodes to the same file as the one with every number in its canonical text. */
  lemma EncodesAsCanonical(floats: FloatText, packer: Compressor, doc: Document)
    requires Faithful(floats)
    ensures EncodeSpec(floats, packer, doc)
         == EncodeSpec(floats, packer, Document(doc.compression, Canon(floats, doc.root)))
  {
    hide WriteTag, WriteText, Canon, Faithful;
    var w := WriteText(doc.root.name, WriteState([doc.root.kind], 0, 0));
    if w.Some? {
      CanonWritten(floats, doc.root, 0, w.value);
    }
  }

  /** An integer tag whose literal has a sign or leading zeros: out of range it is refused; otherwise it
      encodes to the file of the plain decimal text, and that text is what is decoded. */
  lemma IntegerTagComesBack(floats: FloatText, packer: Compressor, c: Compression, kind: byte, name: GoString,
                            s: GoString, n: int)
    requires Faithful(floats) && InversePair(packer)
    requires 1 <= kind <= 4 && SpellsInteger(s, n)
    ensures var file := EncodeSpec(floats, packer, Document(c, Leaf(kind, name, s)));
            var plain := Document(c, Leaf(kind, name, FormatInt(n)));
            && (!InRange(n, Width(kind)) ==> file == None)
            && (InRange(n, Width(kind)) ==> file == EncodeSpec(floats, packer, plain))
            && (file.Some? ==> DecodeSpec(floats, packer, file.value) == Some(plain))
  {
    hide SpellsInteger, InRange, Faithful, InversePair, DecodeSpec, IntegerBits, FormatInt, BytesOf, WriteText;
    var t := Leaf(kind, name, s);
    IntegerLiteral(s, n, Width(kind));
    if InRange(n, Width(kind)) {
      EncodesAsCanonical(floats, packer, Document(c, t));
      assert CanonAll(floats, []) == [];
      assert Canon(floats, t) == Leaf(kind, name, FormatInt(n)) by {
        CanonicalInteger(floats, t, n);
      }
      if EncodeSpec(floats, packer, Document(c, t)).Some? {
        EncodeThenDecode(floats, packer, Document(c, t));
      }
    }
  }
}
