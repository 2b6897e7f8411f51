/**
  The skip-scan of a world file (internal/servers/world_nbt.go), after decompression: it walks the
  same format as the full reader without building a tree, remembering three facts on the way.
 */
module WorldScan {
  import opened Options
  import opened Bytes
  import opened ModifiedUtf8
  import opened Nbt

  const SCAN_NODES: nat := 1000000

  datatype Metadata = Metadata(worldData: bool, seed: Option<GoString>, version: GoString)

  datatype ScanState = ScanState(rest: seq<byte>, nodes: nat, result: Metadata)

  function Ascii(s: string): (b: GoString)
    requires forall i :: 0 <= i < |s| ==> '\0' < s[i] < 128 as char
    ensures IsAscii(b)
  {
    seq(|s|, i requires 0 <= i < |s| => s[i] as int)
  }

  const DATA: GoString := Ascii("Data")
  const VERSION_NAME: GoString := Ascii("Data/Version/Name")
  const SLASH: byte := 47
  const LIST_STEP: GoString := Ascii("/[]")

  predicate IsSeedPath(path: GoString) {
    path == Ascii("Data/RandomSeed") || path == Ascii("Data/WorldGenSettings/seed")
    || path == Ascii("data/seed") || path == Ascii("seed")
  }

  /** strings.TrimPrefix(s, "/") */
  function TrimSlash(s: GoString): GoString {
    if s != [] && s[0] == SLASH then s[1..] else s
  }

  function ChildPath(path: GoString, name: GoString): GoString {
    TrimSlash(path + [SLASH] + name)
  }

  // ---- the scan as a function ------------------------------------------------------------------------

  function ScanByte(st: ScanState): (r: Option<(byte, ScanState)>)
    ensures r.Some? ==> |r.value.1.rest| < |st.rest|
  {
    if st.rest == [] then None else Some((st.rest[0], st.(rest := st.rest[1..])))
  }

  function ScanNumber(width: nat, st: ScanState): (r: Option<(nat, ScanState)>)
    ensures r.Some? ==> |r.value.1.rest| == |st.rest| - width && r.value.0 < Pow256(width)
  {
    if |st.rest| < width then None
    else Some((FromBigEndian(st.rest[..width]), st.(rest := st.rest[width..])))
  }

  /** A name or string, as raw bytes. */
  function ScanName(st: ScanState): (r: Option<(seq<byte>, ScanState)>)
    ensures r.Some? ==> |r.value.1.rest| < |st.rest|
  {
    var (size, st1) :- ScanNumber(2, st);
    if |st1.rest| < size then None else Some((st1.rest[..size], st1.(rest := st1.rest[size..])))
  }

  function Skip(n: int, st: ScanState): (r: Option<ScanState>)
    ensures r.Some? ==> |r.value.rest| <= |st.rest|
  {
    if n < 0 || n > |st.rest| then None else Some(st.(rest := st.rest[n..]))
  }

  /** The value of a Long, and the seed it may be. */
  function ScanLong(key: GoString, st: ScanState): (r: Option<ScanState>)
    ensures r.Some? ==> |r.value.rest| <= |st.rest|
  {
    var (bits, st1) :- ScanNumber(8, st);
    Some(if IsSeedPath(key) then st1.(result := st1.result.(seed := Some(FormatInt(FromBits(bits, 8))))) else st1)
  }

  function ScanString(key: GoString, st: ScanState): (r: Option<ScanState>)
    ensures r.Some? ==> |r.value.rest| <= |st.rest|
  {
    var (raw, st1) :- ScanName(st);
    Some(if key == VERSION_NAME then st1.(result := st1.result.(version := raw)) else st1)
  }

  function ScanArray(kind: byte, st: ScanState): (r: Option<ScanState>)
    ensures r.Some? ==> |r.value.rest| <= |st.rest|
  {
    var (bits, st1) :- ScanNumber(4, st);
    var n := FromBits(bits, 4);
    if n < 0 then None else Skip(n * (if kind == 12 then 8 else if kind == 11 then 4 else 1), st1)
  }

  function ScanPayload(kind: byte, key: GoString, depth: nat, st0: ScanState): (r: Option<ScanState>)
    ensures r.Some? ==> |r.value.rest| <= |st0.rest|
    decreases 66 - depth, 0
  {
    var st := st0.(nodes := st0.nodes + 1);
    if depth > MAX_DEPTH || st.nodes > SCAN_NODES then None
    else if kind == 1 then Skip(1, st)
    else if kind == 2 then Skip(2, st)
    else if kind == 3 || kind == 5 then Skip(4, st)
    else if kind == 4 then ScanLong(key, st)
    else if kind == 6 then Skip(8, st)
    else if IsArray(kind) then ScanArray(kind, st)
    else if kind == TEXT then ScanString(key, st)
    else if kind == LIST then
      var (listType, st1) :- ScanByte(st);
      var (bits, st2) :- ScanNumber(4, st1);
      var n := FromBits(bits, 4);
      if n < 0 || n > 1000000 || (listType == 0 && n != 0) then None
      else ScanList(listType, key, n, depth + 1, st2)
    else if kind == COMPOUND then
      ScanMembers(key, depth + 1,
                  if key == DATA then st.(result := st.result.(worldData := true)) else st)
    else None
  }

  function ScanList(listType: byte, key: GoString, n: nat, depth: nat, st: ScanState): (r: Option<ScanState>)
    ensures r.Some? ==> |r.value.rest| <= |st.rest|
    decreases 66 - depth, 1, n
  {
    if n == 0 then Some(st)
    else
      var st1 :- ScanPayload(listType, key + LIST_STEP, depth, st);
      ScanList(listType, key, n - 1, depth, st1)
  }

  function ScanMembers(key: GoString, depth: nat, st: ScanState): (r: Option<ScanState>)
    ensures r.Some? ==> |r.value.rest| <= |st.rest|
    decreases 66 - depth, 1, |st.rest|
  {
    var (kind, st1) :- ScanByte(st);
    if kind == 0 then Some(st1)
    else
      var (name, st2) :- ScanName(st1);
      var st3 :- ScanPayload(kind, ChildPath(key, name), depth, st2);
      ScanMembers(key, depth, st3)
  }

  const NOTHING: Metadata := Metadata(false, None, [])

  /** The scan of a decompressed file; bytes after the root are not looked at. */
  function ScanRoot(data: seq<byte>): Option<Metadata> {
    var (kind, st1) :- ScanByte(ScanState(data, 0, NOTHING));
    if kind != COMPOUND then None
    else
      var (_, st2) :- ScanName(st1);
      var st3 :- ScanPayload(kind, [], 0, st2);
      Some(st3.result)
  }

  // ---- the scan as the source writes it: one shared cursor and one result, changed in place --------------

  class Scanner {
    const data: seq<byte>
    var pos: nat
    var nodes: nat
    var result: Metadata

    ghost predicate Valid()
      reads this
    {
      pos <= |data|
    }

    ghost function State(): ScanState
      requires Valid()
      reads this
    {
      ScanState(data[pos..], nodes, result)
    }

    ghost predicate Follows(ok: bool, spec: Option<ScanState>)
      requires Valid()
      reads this
    {
      ok == spec.Some? && (ok ==> State() == spec.value)
    }

    ghost predicate Gives<T>(r: Option<T>, spec: Option<(T, ScanState)>)
      requires Valid()
      reads this
    {
      if spec.None? then r.None? else r == Some(spec.value.0) && State() == spec.value.1
    }

    constructor (data: seq<byte>)
      ensures Valid() && this.data == data && State() == ScanState(data, 0, NOTHING)
    {
      this.data := data;
      pos, nodes, result := 0, 0, NOTHING;
      new;
      assert data[0..] == data;
    }

    method Byte() returns (r: Option<byte>)
      requires Valid()
      modifies this`pos
      ensures Valid() && Gives(r, ScanByte(old(State())))
    {
      if pos == |data| {
        return None;
      }
      r := Some(data[pos]);
      assert data[pos..][1..] == data[pos + 1..];
      pos := pos + 1;
    }

    method Number(width: nat) returns (r: Option<nat>)
      requires Valid()
      modifies this`pos
      ensures Valid() && Gives(r, ScanNumber(width, old(State())))
    {
      if |data| - pos < width {
        return None;
      }
      r := Some(FromBigEndian(data[pos..pos + width]));
      assert data[pos..][..width] == data[pos..pos + width];
      assert data[pos..][width..] == data[pos + width..];
      pos := pos + width;
    }

    method Name() returns (r: Option<seq<byte>>)
      requires Valid()
      modifies this`pos
      ensures Valid() && Gives(r, ScanName(old(State())))
    {
      hide FromBigEndian;
      var size := Number(2);
      if size.None? || |data| - pos < size.value {
        return None;
      }
      assert data[pos..][..size.value] == data[pos..pos + size.value];
      assert data[pos..][size.value..] == data[pos + size.value..];
      r := Some(data[pos..pos + size.value]);
      pos := pos + size.value;
    }

    method Seek(n: int) returns (ok: bool)
      requires Valid()
      modifies this`pos
      ensures Valid() && Follows(ok, Skip(n, old(State())))
    {
      if n < 0 || n > |data| - pos {
        return false;
      }
      assert data[pos..][n..] == data[pos + n..];
      pos := pos + n;
      return true;
    }

    method Long(key: GoString) returns (ok: bool)
      requires Valid()
      modifies this`pos, this`result
      ensures Valid() && Follows(ok, ScanLong(key, old(State())))
    {
      hide FromBigEndian, Pow256, IsSeedPath, ScanNumber;
      var bits := Number(8);
      if bits.None? {
        return false;
      }
      if IsSeedPath(key) {
        result := result.(seed := Some(FormatInt(FromBits(bits.value, 8))));
      }
      return true;
    }

    method String(key: GoString) returns (ok: bool)
      requires Valid()
      modifies this`pos, this`result
      ensures Valid() && Follows(ok, ScanString(key, old(State())))
    {
      hide ScanName;
      var value := Name();
      if value.Some? && key == VERSION_NAME {
        result := result.(version := value.value);
      }
      return value.Some?;
    }

    method Array(kind: byte) returns (ok: bool)
      requires Valid()
      modifies this`pos
      ensures Valid() && Follows(ok, ScanArray(kind, old(State())))
    {
      hide FromBigEndian, Pow256, ScanNumber;
      var bits := Number(4);
      if bits.None? || FromBits(bits.value, 4) < 0 {
        return false;
      }
      var size := if kind == 12 then 8 else if kind == 11 then 4 else 1;
      ok := Seek(FromBits(bits.value, 4) * size);
    }

    /** The switch. */
    method Payload(kind: byte, key: GoString, depth: nat) returns (ok: bool)
      requires Valid()
      modifies this
      ensures Valid() && Follows(ok, ScanPayload(kind, key, depth, old(State())))
      decreases 66 - depth, 0
    {
      hide ScanList, ScanMembers, ScanLong, ScanString, ScanArray, FromBigEndian, Pow256;
      nodes := nodes + 1;
      if depth > MAX_DEPTH || nodes > SCAN_NODES {
        return false;
      }
      match kind
      case 1 => ok := Seek(1);
      case 2 => ok := Seek(2);
      case 3 => ok := Seek(4);
      case 5 => ok := Seek(4);
      case 4 => ok := Long(key);
      case 6 => ok := Seek(8);
      case 8 => ok := String(key);
      case 9 =>
        var listType := Byte();
        if listType.None? {
          return false;
        }
        var bits := Number(4);
        if bits.None? {
          return false;
        }
        var n := FromBits(bits.value, 4);
        if n < 0 || n > 1000000 || (listType.value == 0 && n != 0) {
          return false;
        }
        ok := List(listType.value, key, n, depth + 1);
      case 10 =>
        if key == DATA {
          result := result.(worldData := true);
        }
        ok := Members(key, depth + 1);
      case _ =>
        if !IsArray(kind) {
          return false;
        }
        ok := Array(kind);
    }

    method List(listType: byte, key: GoString, n: nat, depth: nat) returns (ok: bool)
      requires Valid()
      modifies this
      ensures Valid() && Follows(ok, ScanList(listType, key, n, depth, old(State())))
      decreases 66 - depth, 1
    {
      hide ScanPayload;
      ghost var start := State();
      var i := 0;
      while i < n
        invariant 0 <= i <= n && Valid()
        invariant ScanList(listType, key, n, depth, start) == ScanList(listType, key, n - i, depth, State())
      {
        var done := Payload(listType, key + LIST_STEP, depth);
        if !done {
          return false;
        }
        i := i + 1;
      }
      return true;
    }

    method Members(key: GoString, depth: nat) returns (ok: bool)
      requires Valid()
      modifies this
      ensures Valid() && Follows(ok, ScanMembers(key, depth, old(State())))
      decreases 66 - depth, 1
    {
      hide ScanPayload, ScanName, ChildPath;
      ghost var start := State();
      while true
        invariant Valid()
        invariant ScanMembers(key, depth, start) == ScanMembers(key, depth, State())
        decreases |State().rest|
      {
        var kind := Byte();
        if kind.None? {
          return false;
        }
        if kind.value == 0 {
          return true;
        }
        var name := Name();
        if name.None? {
          return false;
        }
        var done := Payload(kind.value, ChildPath(key, name.value), depth);
        if !done {
          return false;
        }
      }
    }
  }

  method ReadWorldMetadata(data: seq<byte>) returns (r: Option<Metadata>)
    ensures r == ScanRoot(data)
  {
    hide ScanPayload;
    var scanner := new Scanner(data);
    var kind := scanner.Byte();
    if kind != Some(COMPOUND) {
      return None;
    }
    var name := scanner.Name();
    if name.None? {
      return None;
    }
    var done := scanner.Payload(COMPOUND, [], 0);
    return if done then Some(scanner.result) else None;
  }
}
