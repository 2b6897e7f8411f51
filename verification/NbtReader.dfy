/**
  The reader as the source keeps it: a cursor and two running budgets in mutable fields
  (internal/nbt/nbt.go, reader and Decode). Each method is proved to compute the function of the same
  purpose in module Nbt from the state it starts in.
 */
module NbtReader {
  import opened Options
  import opened Bytes
  import opened ModifiedUtf8
  import opened Nbt

  /** A result and the state after it, against what a reading function says. After an error nothing
      reads the state again, so nothing is said about it. */
  ghost predicate Follows<T>(r: Option<T>, after: ReadState, spec: Option<(T, ReadState)>) {
    if spec.None? then r.None? else r == Some(spec.value.0) && after == spec.value.1
  }

  /** Items already read, in front of what the rest of a loop reads. */
  ghost function Before<T>(done: seq<T>, spec: Option<(seq<T>, ReadState)>): Option<(seq<T>, ReadState)> {
    if spec.None? then None else Some((done + spec.value.0, spec.value.1))
  }

  lemma BeforeNothing<T>(spec: Option<(seq<T>, ReadState)>)
    ensures Before([], spec) == spec
  {
    if spec.Some? {
      assert [] + spec.value.0 == spec.value.0;
    }
  }

  lemma BeforeOne<T>(done: seq<T>, x: T, spec: Option<(seq<T>, ReadState)>)
    ensures Before(done, if spec.None? then None else Some(([x] + spec.value.0, spec.value.1)))
         == Before(done + [x], spec)
  {
    if spec.Some? {
      Assoc(done, [x], spec.value.0);
    }
  }

  class Reader {
    const floats: FloatText
    const data: seq<byte>
    var pos: nat
    var nodes: nat
    var elements: nat

    ghost predicate Valid()
      reads this
    {
      pos <= |data|
    }

    ghost function State(): ReadState
      requires Valid()
      reads this
    {
      ReadState(data[pos..], nodes, elements)
    }

    constructor (floats: FloatText, data: seq<byte>)
      ensures Valid() && this.floats == floats && this.data == data && State() == ReadState(data, 0, 0)
    {
      this.floats := floats;
      this.data := data;
      pos, nodes, elements := 0, 0, 0;
      new;
      assert data[0..] == data;
    }

    method Byte() returns (r: Option<byte>)
      requires Valid()
      modifies this`pos
      ensures Valid() && Follows(r, State(), ReadByte(old(State())))
    {
      if pos == |data| {
        return None;
      }
      r := Some(data[pos]);
      assert data[pos..][1..] == data[pos + 1..];
      pos := pos + 1;
    }

    method Number(width: nat) returns (r: Option<nat>)
      requires Valid()
      modifies this`pos
      ensures Valid() && Follows(r, State(), ReadNumber(width, old(State())))
    {
      if |data| - pos < width {
        return None;
      }
      r := Some(FromBigEndian(data[pos..pos + width]));
      assert data[pos..][..width] == data[pos..pos + width];
      assert data[pos..][width..] == data[pos + width..];
      pos := pos + width;
    }

    method Text() returns (r: Option<GoString>)
      requires Valid()
      modifies this`pos
      ensures Valid() && Follows(r, State(), ReadText(false, old(State())))
    {
      hide TextOf, FromBigEndian;
      var size := Number(2);
      if size.None? || |data| - pos < size.value {
        return None;
      }
      assert data[pos..][..size.value] == data[pos..pos + size.value];
      assert data[pos..][size.value..] == data[pos + size.value..];
      r := DecodeText(data[pos..pos + size.value]);
      pos := pos + size.value;
    }

    method Count(width: nat) returns (r: Option<nat>)
      requires Valid()
      modifies this`pos, this`elements
      ensures Valid() && Follows(r, State(), ReadCount(width, old(State())))
    {
      var bits := Number(4);
      if bits.None? {
        return None;
      }
      var n := FromBits(bits.value, 4);
      if n < 0 || n * width > |data| - pos || n > MAX_ELEMENTS - elements {
        return None;
      }
      elements := elements + n;
      return Some(n);
    }

    method Values(width: nat, n: nat) returns (r: Option<seq<GoString>>)
      requires Valid() && width > 0
      modifies this`pos
      ensures Valid() && Follows(r, State(), ReadValues(width, n, old(State())))
    {
      hide FromBigEndian, IntegerText;
      ghost var start := State();
      var values: seq<GoString> := [];
      var i := 0;
      BeforeNothing(ReadValues(width, n, start));
      while i < n
        invariant 0 <= i <= n && Valid()
        invariant ReadValues(width, n, start) == Before(values, ReadValues(width, n - i, State()))
      {
        var bits := Number(width);
        if bits.None? {
          return None;
        }
        BeforeOne(values, IntegerText(bits.value, width), ReadValues(width, n - i - 1, State()));
        values := values + [IntegerText(bits.value, width)];
        i := i + 1;
      }
      assert values + [] == values;
      return Some(values);
    }

    method Tag(kind: byte, name: GoString, depth: nat) returns (r: Option<Tag>)
      requires Valid()
      modifies this
      ensures Valid() && Follows(r, State(), ReadTag(floats, false, kind, name, depth, old(State())))
      decreases 66 - depth, 0
    {
      hide ReadList, ReadMembers, ReadValues, ReadCount, ReadText, ScalarText, FromBigEndian;
      nodes := nodes + 1;
      if depth > MAX_DEPTH || nodes > MAX_NODES {
        return None;
      }
      if IsInteger(kind) || IsFloat(kind) {
        var bits := Number(Width(kind));
        r := if bits.None? then None else Some(Leaf(kind, name, ScalarText(floats, kind, bits.value)));
      } else if IsArray(kind) {
        var n := Count(Width(kind));
        if n.None? {
          return None;
        }
        var values := Values(Width(kind), n.value);
        r := if values.None? then None else Some(Nbt.Tag(kind, name, [], [], 0, values.value));
      } else if kind == TEXT {
        var s := Text();
        r := if s.None? then None else Some(Leaf(kind, name, s.value));
      } else if kind == LIST {
        var listType := Byte();
        if listType.None? {
          return None;
        }
        var n := Count(1);
        if n.None? || listType.value > 12 || (listType.value == 0 && n.value != 0) || n.value > MAX_NODES - nodes {
          return None;
        }
        var children := List(listType.value, n.value, depth + 1);
        r := if children.None? then None else Some(Nbt.Tag(kind, name, [], children.value, listType.value, []));
      } else if kind == COMPOUND {
        var children := Members(depth + 1);
        r := if children.None? then None else Some(Nbt.Tag(kind, name, [], children.value, 0, []));
      } else {
        r := None;
      }
    }

    /** The child loop of a list. */
    method List(listType: byte, n: nat, depth: nat) returns (r: Option<seq<Tag>>)
      requires Valid()
      modifies this
      ensures Valid() && Follows(r, State(), ReadList(floats, false, listType, n, depth, old(State())))
      decreases 66 - depth, 1
    {
      hide ReadTag;
      ghost var start := State();
      var children: seq<Tag> := [];
      var i := 0;
      BeforeNothing(ReadList(floats, false, listType, n, depth, start));
      while i < n
        invariant 0 <= i <= n && Valid()
        invariant ReadList(floats, false, listType, n, depth, start)
               == Before(children, ReadList(floats, false, listType, n - i, depth, State()))
      {
        var child := Tag(listType, [], depth);
        if child.None? {
          return None;
        }
        BeforeOne(children, child.value, ReadList(floats, false, listType, n - i - 1, depth, State()));
        children := children + [child.value];
        i := i + 1;
      }
      assert children + [] == children;
      return Some(children);
    }

    /** The child loop of a compound, which ends at a zero kind. */
    method Members(depth: nat) returns (r: Option<seq<Tag>>)
      requires Valid()
      modifies this
      ensures Valid() && Follows(r, State(), ReadMembers(floats, false, {}, depth, old(State())))
      decreases 66 - depth, 1
    {
      hide ReadTag, ReadText;
      ghost var start := State();
      var names: set<GoString> := {};
      var children: seq<Tag> := [];
      BeforeNothing(ReadMembers(floats, false, {}, depth, start));
      while true
        invariant Valid()
        invariant ReadMembers(floats, false, {}, depth, start)
               == Before(children, ReadMembers(floats, false, names, depth, State()))
        decreases |State().rest|
      {
        ghost var was := State();
        var kind := Byte();
        if kind.None? {
          return None;
        }
        if kind.value == 0 {
          assert children + [] == children;
          return Some(children);
        }
        var name := Text();
        if name.None? || name.value in names {
          return None;
        }
        var child := Tag(kind.value, name.value, depth);
        if child.None? {
          return None;
        }
        ghost var rest := ReadMembers(floats, false, names + {name.value}, depth, State());
        assert ReadMembers(floats, false, names, depth, was)
            == if rest.None? then None else Some(([child.value] + rest.value.0, rest.value.1));
        BeforeOne(children, child.value, rest);
        names := names + {name.value};
        children := children + [child.value];
      }
    }

    /** The root: one named tag, and nothing after it. */
    method Root() returns (r: Option<Tag>)
      requires Valid() && State() == ReadState(data, 0, 0)
      modifies this
      ensures Valid() && r == ReadRoot(floats, false, data)
    {
      hide ReadTag, ReadText, ReadByte;
      var kind := Byte();
      if kind.None? || kind.value < 1 || kind.value > 12 {
        return None;
      }
      var name := Text();
      if name.None? {
        return None;
      }
      r := Tag(kind.value, name.value, 0);
      if r.None? || pos != |data| {
        return None;
      }
    }
  }

  method Decode(floats: FloatText, packer: Compressor, data: seq<byte>) returns (r: Option<Document>)
    ensures r == DecodeSpec(floats, packer, data)
  {
    hide ReadRoot, Sniff;
    if |data| > MAX_BYTES {
      return None;
    }
    var compression := Sniff(data);
    var plain := data;
    if compression != Plain {
      var stream := packer.inflate(compression, data);
      if stream.None? || |stream.value| > MAX_BYTES {
        return None;
      }
      plain := stream.value;
    }
    var reader := new Reader(floats, plain);
    var root := reader.Root();
    if root.None? {
      return None;
    }
    return Some(Document(compression, root.value));
  }
}
