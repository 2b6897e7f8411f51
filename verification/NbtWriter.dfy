/**
  The writer as the source keeps it: a buffer and two running budgets in mutable fields
  (internal/nbt/nbt.go, writer and Encode), proved against the functions of module Nbt.
 */
module NbtWriter {
  import opened Options
  import opened Bytes
  import opened ModifiedUtf8
  import opened Nbt

  class Writer {
    const floats: FloatText
    var buffer: seq<byte>
    var nodes: nat
    var elements: nat

    ghost function State(): WriteState
      reads this
    {
      WriteState(buffer, nodes, elements)
    }

    /** Success means the state is the one the writing function computes; the buffer of a failed
        writer is dropped by Encode. */
    ghost predicate Follows(ok: bool, spec: Option<WriteState>)
      reads this
    {
      ok == spec.Some? && (ok ==> State() == spec.value)
    }

    constructor (floats: FloatText)
      ensures this.floats == floats && State() == WriteState([], 0, 0)
    {
      this.floats := floats;
      buffer, nodes, elements := [], 0, 0;
    }

    method Put(b: seq<byte>)
      modifies this`buffer
      ensures State() == Append(old(State()), b)
    {
      buffer := buffer + b;
    }

    method Text(s: GoString) returns (ok: bool)
      modifies this`buffer
      ensures Follows(ok, WriteText(s, old(State())))
    {
      hide FromUtf8, BytesOf;
      if !ValidString(s) || |s| > MAX_TEXT {
        return false;
      }
      var b := EncodeText(s);
      if |b| > MAX_TEXT {
        return false;
      }
      Put(BigEndian(|b|, 2));
      Put(b);
      return true;
    }

    method Values(width: nat, values: seq<GoString>) returns (ok: bool)
      requires width > 0
      modifies this`buffer
      ensures Follows(ok, WriteValues(width, values, old(State())))
    {
      hide IntegerBits, BigEndian;
      ghost var start := State();
      var i := 0;
      assert values[0..] == values;
      while i < |values|
        invariant 0 <= i <= |values|
        invariant nodes == start.nodes && elements == start.elements
        invariant WriteValues(width, values, start) == WriteValues(width, values[i..], State())
      {
        var bits := IntegerBits(values[i], width);
        if bits.None? {
          return false;
        }
        assert values[i..][1..] == values[i + 1..];
        Put(BigEndian(bits.value, width));
        i := i + 1;
      }
      return true;
    }

    method Tag(t: Tag, depth: nat) returns (ok: bool)
      modifies this
      ensures Follows(ok, WriteTag(floats, t, depth, old(State())))
      decreases t, 0
    {
      hide WriteList, WriteMembers, WriteValues, WriteText, ScalarBits, BigEndian;
      nodes := nodes + 1;
      if depth > MAX_DEPTH || nodes > MAX_NODES || |buffer| > MAX_BYTES || !Structured(t) {
        return false;
      }
      if IsInteger(t.kind) || IsFloat(t.kind) {
        var bits := ScalarBits(floats, t.kind, t.value);
        if bits.None? {
          return false;
        }
        Put(BigEndian(bits.value, Width(t.kind)));
        return true;
      } else if IsArray(t.kind) {
        if |t.values| > MAX_ELEMENTS - elements {
          return false;
        }
        elements := elements + |t.values|;
        Put(BigEndian(|t.values|, 4));
        ok := Values(Width(t.kind), t.values);
      } else if t.kind == TEXT {
        ok := Text(t.value);
      } else if t.kind == LIST {
        if t.listType > 12 || (t.listType == 0 && t.children != []) || |t.children| > MAX_ELEMENTS - elements {
          return false;
        }
        elements := elements + |t.children|;
        Put([t.listType]);
        Put(BigEndian(|t.children|, 4));
        Assoc(old(buffer), [t.listType], BigEndian(|t.children|, 4));
        ok := List(t.listType, t.children, depth + 1);
      } else {
        ok := Members(t.children, depth + 1);
        if ok {
          Put([0]);
        }
      }
    }

    /** The child loop of a list. */
    method List(listType: byte, children: seq<Tag>, depth: nat) returns (ok: bool)
      modifies this
      ensures Follows(ok, WriteList(floats, listType, children, depth, old(State())))
      decreases children, 1
    {
      hide WriteTag;
      ghost var start := State();
      var i := 0;
      assert children[0..] == children;
      while i < |children|
        invariant 0 <= i <= |children|
        invariant WriteList(floats, listType, children, depth, start)
               == WriteList(floats, listType, children[i..], depth, State())
      {
        assert children[i..][1..] == children[i + 1..];
        if children[i].kind != listType || children[i].name != [] {
          return false;
        }
        var done := Tag(children[i], depth);
        if !done {
          return false;
        }
        i := i + 1;
      }
      return true;
    }

    /** The child loop of a compound. */
    method Members(children: seq<Tag>, depth: nat) returns (ok: bool)
      modifies this
      ensures Follows(ok, WriteMembers(floats, {}, children, depth, old(State())))
      decreases children, 1
    {
      hide WriteTag, WriteText;
      ghost var start := State();
      var names: set<GoString> := {};
      var i := 0;
      assert children[0..] == children;
      while i < |children|
        invariant 0 <= i <= |children|
        invariant WriteMembers(floats, {}, children, depth, start)
               == WriteMembers(floats, names, children[i..], depth, State())
      {
        var child := children[i];
        assert children[i..][1..] == children[i + 1..];
        if child.name in names {
          return false;
        }
        names := names + {child.name};
        Put([child.kind]);
        var named := Text(child.name);
        if !named {
          return false;
        }
        var done := Tag(child, depth);
        if !done {
          return false;
        }
        i := i + 1;
      }
      return true;
    }
  }

  method Encode(floats: FloatText, packer: Compressor, doc: Document) returns (r: Option<seq<byte>>)
    ensures r == EncodeSpec(floats, packer, doc)
  {
    hide WriteTag, WriteText;
    var writer := new Writer(floats);
    writer.Put([doc.root.kind]);
    assert [] + [doc.root.kind] == [doc.root.kind];
    var named := writer.Text(doc.root.name);
    if !named {
      return None;
    }
    var done := writer.Tag(doc.root, 0);
    if !done || |writer.buffer| > MAX_BYTES {
      return None;
    }
    if doc.compression == Plain {
      return Some(writer.buffer);
    }
    if doc.compression.Unknown? {
      return None;
    }
    var packed := packer.deflate(doc.compression, writer.buffer);
    return if |packed| > MAX_BYTES then None else Some(packed);
  }
}
