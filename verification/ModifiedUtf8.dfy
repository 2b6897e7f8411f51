/**
  Java's modified UTF-8 against Go strings (internal/nbt/nbt.go, decodeText and encodeText).

  Go's standard library is modelled by functions: UTF-8 (`Utf8`, `FromUtf8`) and UTF-16 (`UnitsOf`,
  `RunesOf`). The two loops of the source are the methods `DecodeText` and `EncodeText`, proved
  against the functions `TextOf` and `BytesOf`; the laws are proved about those functions.
  Bit masks are written as the ranges and quotients they select.
 */
module ModifiedUtf8 {
  import opened Options
  import opened Bytes

  type Unit = x: int | 0 <= x < 0x10000

  /** A Unicode scalar value. */
  type Rune = x: int | 0 <= x < 0xD800 || 0xE000 <= x < 0x110000

  // ---- UTF-8 (Go's string(runes), []rune(s), utf8.ValidString) ----------------------------------

  function Utf8Rune(r: Rune): (s: seq<byte>)
    ensures 1 <= |s| <= 4
  {
    if r < 0x80 then [r]
    else if r < 0x800 then [0xC0 + r / 64, 0x80 + r % 64]
    else if r < 0x10000 then [0xE0 + r / 64 / 64, 0x80 + r / 64 % 64, 0x80 + r % 64]
    else [0xF0 + r / 64 / 64 / 64, 0x80 + r / 64 / 64 % 64, 0x80 + r / 64 % 64, 0x80 + r % 64]
  }

  predicate IsTail(c: byte) {
    0x80 <= c < 0xC0
  }

  /** `high` followed by the six payload bits of a continuation byte. */
  function Shift6(high: nat, c: byte): (v: nat)
    requires IsTail(c)
    ensures v / 64 == high && 0x80 + v % 64 == c
  {
    64 * high + (c as int - 0x80)
  }

  function RuneIfScalar(v: int, low: nat): (r: Option<Rune>)
    ensures r.Some? ==> low <= v && r.value == v
  {
    if v < low || 0xD800 <= v < 0xE000 || v >= 0x110000 then None else Some(v as Rune)
  }

  /** The first scalar value of a string; overlong forms, surrogates and stray bytes are errors. */
  function FirstRune(s: seq<byte>): (r: Option<Rune>)
    requires s != []
    ensures r.Some? ==> Utf8Rune(r.value) <= s
  {
    var c := s[0] as int;
    if c < 0x80 then Some(c)
    else if 0xC0 <= c < 0xE0 && |s| >= 2 && IsTail(s[1]) then
      RuneIfScalar(Shift6(c - 0xC0, s[1]), 0x80)
    else if 0xE0 <= c < 0xF0 && |s| >= 3 && IsTail(s[1]) && IsTail(s[2]) then
      RuneIfScalar(Shift6(Shift6(c - 0xE0, s[1]), s[2]), 0x800)
    else if 0xF0 <= c < 0xF8 && |s| >= 4 && IsTail(s[1]) && IsTail(s[2]) && IsTail(s[3]) then
      RuneIfScalar(Shift6(Shift6(Shift6(c - 0xF0, s[1]), s[2]), s[3]), 0x10000)
    else None
  }

  function Utf8(runes: seq<Rune>): GoString {
    if runes == [] then [] else Utf8Rune(runes[0]) + Utf8(runes[1..])
  }

  function FromUtf8(s: GoString): (r: Option<seq<Rune>>)
    ensures r.Some? ==> Utf8(r.value) == s
    decreases |s|
  {
    if s == [] then Some([])
    else
      var first :- FirstRune(s);
      var rest :- FromUtf8(s[|Utf8Rune(first)|..]);
      Some([first] + rest)
  }

  predicate ValidString(s: GoString) {
    FromUtf8(s).Some?
  }

  lemma FirstRuneOfEncoding(r: Rune, rest: seq<byte>)
    ensures FirstRune(Utf8Rune(r) + rest) == Some(r)
  {
    var s := Utf8Rune(r) + rest;
    assert forall i :: 0 <= i < |Utf8Rune(r)| ==> s[i] == Utf8Rune(r)[i];
  }

  lemma {:induction false} FromUtf8Inverse(runes: seq<Rune>)
    ensures FromUtf8(Utf8(runes)) == Some(runes)
  {
    if runes != [] {
      FirstRuneOfEncoding(runes[0], Utf8(runes[1..]));
      FromUtf8Inverse(runes[1..]);
      var s := Utf8(runes);
      assert s[|Utf8Rune(runes[0])|..] == Utf8(runes[1..]);
      assert [runes[0]] + runes[1..] == runes;
    }
  }

  lemma {:induction false} Utf8Concat(a: seq<Rune>, b: seq<Rune>)
    ensures Utf8(a + b) == Utf8(a) + Utf8(b)
  {
    hide Utf8Rune;
    if a == [] {
      assert a + b == b;
    } else {
      calc {
        Utf8(a + b);
        { assert (a + b)[1..] == a[1..] + b; }
        Utf8Rune(a[0]) + Utf8(a[1..] + b);
        { Utf8Concat(a[1..], b); }
        Utf8Rune(a[0]) + (Utf8(a[1..]) + Utf8(b));
        { Assoc(Utf8Rune(a[0]), Utf8(a[1..]), Utf8(b)); }
        Utf8(a) + Utf8(b);
      }
    }
  }

  // ---- UTF-16 (utf16.Encode, utf16.Decode) ------------------------------------------------------

  predicate IsHigh(u: Unit) {
    0xD800 <= u < 0xDC00
  }

  predicate IsLow(u: Unit) {
    0xDC00 <= u < 0xE000
  }

  function UnitsOfRune(r: Rune): (us: seq<Unit>)
    ensures us != []
  {
    if r < 0x10000 then [r]
    else [0xD800 + (r - 0x10000) / 1024, 0xDC00 + (r - 0x10000) % 1024]
  }

  function UnitsOf(runes: seq<Rune>): seq<Unit> {
    if runes == [] then [] else UnitsOfRune(runes[0]) + UnitsOf(runes[1..])
  }

  /** Every high surrogate is followed by a low one, and no low surrogate stands alone. */
  predicate Paired(us: seq<Unit>) {
    if us == [] then true
    else if IsHigh(us[0]) then |us| > 1 && IsLow(us[1]) && Paired(us[2..])
    else !IsLow(us[0]) && Paired(us[1..])
  }

  function FirstOf(us: seq<Unit>): (r: Rune)
    requires us != [] && Paired(us)
    ensures UnitsOfRune(r) == us[..if IsHigh(us[0]) then 2 else 1]
  {
    if IsHigh(us[0]) then 0x10000 + 1024 * (us[0] as int - 0xD800) + (us[1] as int - 0xDC00)
    else us[0]
  }

  function RunesOf(us: seq<Unit>): (rs: seq<Rune>)
    requires Paired(us)
    ensures UnitsOf(rs) == us
  {
    if us == [] then []
    else [FirstOf(us)] + RunesOf(us[if IsHigh(us[0]) then 2 else 1..])
  }

  lemma {:induction false} RunesOfInverse(runes: seq<Rune>)
    ensures Paired(UnitsOf(runes)) && RunesOf(UnitsOf(runes)) == runes
  {
    if runes != [] {
      RunesOfInverse(runes[1..]);
      var us := UnitsOf(runes);
      assert us[|UnitsOfRune(runes[0])|..] == UnitsOf(runes[1..]);
      assert [runes[0]] + runes[1..] == runes;
    }
  }

  lemma {:induction false} RunesOfConcat(a: seq<Unit>, b: seq<Unit>)
    requires Paired(a) && Paired(b)
    ensures Paired(a + b) && RunesOf(a + b) == RunesOf(a) + RunesOf(b)
  {
    hide UnitsOf, UnitsOfRune;
    if a == [] {
      assert a + b == b;
    } else {
      var n := if IsHigh(a[0]) then 2 else 1;
      assert (a + b)[n..] == a[n..] + b;
      RunesOfConcat(a[n..], b);
      calc {
        RunesOf(a + b);
        [FirstOf(a)] + RunesOf(a[n..] + b);
        [FirstOf(a)] + (RunesOf(a[n..]) + RunesOf(b));
        { Assoc([FirstOf(a)], RunesOf(a[n..]), RunesOf(b)); }
        RunesOf(a) + RunesOf(b);
      }
    }
  }

  // ---- modified UTF-8 ---------------------------------------------------------------------------

  /** NUL takes two bytes; a surrogate unit takes three like any other large unit. */
  function BytesOfUnit(u: Unit): (b: seq<byte>)
    ensures 1 <= |b| <= 3 && 0 !in b
  {
    if 0 < u < 0x80 then [u]
    else if u < 0x800 then [0xC0 + u / 64, 0x80 + u % 64]
    else [0xE0 + u / 64 / 64, 0x80 + u / 64 % 64, 0x80 + u % 64]
  }

  function BytesOfUnits(us: seq<Unit>): (b: seq<byte>)
    ensures 0 !in b
  {
    if us == [] then [] else BytesOfUnit(us[0]) + BytesOfUnits(us[1..])
  }

  /** One unit and the number of bytes it takes. A raw zero byte is accepted as NUL. */
  function FirstUnit(b: seq<byte>): (r: Option<(Unit, nat)>)
    requires b != []
    ensures r.Some? ==> 1 <= r.value.1 <= |b|
    ensures r.Some? && b[0] != 0 ==> BytesOfUnit(r.value.0) == b[..r.value.1]
    ensures r.Some? && b[0] == 0 ==> r.value == (0, 1)
  {
    var c := b[0] as int;
    if c < 0x80 then Some((c, 1))
    else if 0xC0 <= c < 0xE0 then
      if |b| < 2 || !IsTail(b[1]) then None
      else
        var v := Shift6(c - 0xC0, b[1]);
        if v < 128 && v != 0 then None else Some((v, 2))
    else if 0xE0 <= c < 0xF0 then
      if |b| < 3 || !IsTail(b[1]) || !IsTail(b[2]) then None
      else
        var v := Shift6(Shift6(c - 0xE0, b[1]), b[2]);
        if v < 2048 then None else Some((v, 3))
    else None
  }

  function UnitsOfBytes(b: seq<byte>): Option<seq<Unit>>
    decreases |b|
  {
    if b == [] then Some([])
    else
      var (u, n) :- FirstUnit(b);
      var rest :- UnitsOfBytes(b[n..]);
      Some([u] + rest)
  }

  /** What decodeText returns. */
  function TextOf(b: seq<byte>): Option<GoString> {
    var us :- UnitsOfBytes(b);
    if Paired(us) then Some(Utf8(RunesOf(us))) else None
  }

  /** What encodeText returns on a valid string, the only strings the writer passes to it. */
  function BytesOf(s: GoString): seq<byte>
    requires ValidString(s)
  {
    BytesOfUnits(UnitsOf(FromUtf8(s).value))
  }

  // ---- the loops of the source --------------------------------------------------------------------

  /** The units decoded so far, in front of what the remaining bytes decode to. */
  ghost function Prefixed(us: seq<Unit>, r: Option<seq<Unit>>): Option<seq<Unit>> {
    if r.None? then None else Some(us + r.value)
  }

  lemma UnitsStart(b: seq<byte>)
    ensures UnitsOfBytes(b) == Prefixed([], UnitsOfBytes(b[0..]))
  {
    assert b[0..] == b;
    if UnitsOfBytes(b).Some? {
      assert [] + UnitsOfBytes(b).value == UnitsOfBytes(b).value;
    }
  }

  lemma UnitsStep(b: seq<byte>, i: nat, us: seq<Unit>)
    requires i < |b| && FirstUnit(b[i..]).Some?
    ensures var (u, n) := FirstUnit(b[i..]).value;
            i + n <= |b| &&
            Prefixed(us, UnitsOfBytes(b[i..])) == Prefixed(us + [u], UnitsOfBytes(b[i + n..]))
  {
    hide FirstUnit;
    var (u, n) := FirstUnit(b[i..]).value;
    assert b[i..][n..] == b[i + n..];
    if UnitsOfBytes(b[i + n..]).Some? {
      Assoc(us, [u], UnitsOfBytes(b[i + n..]).value);
    }
  }

  method DecodeText(b: seq<byte>) returns (r: Option<GoString>)
    ensures r == TextOf(b)
  {
    hide Paired, RunesOf, Utf8, BytesOfUnit;
    var units: seq<Unit> := [];
    var i := 0;
    UnitsStart(b);
    while i < |b|
      invariant 0 <= i <= |b|
      invariant UnitsOfBytes(b) == Prefixed(units, UnitsOfBytes(b[i..]))
    {
      var c := b[i] as int;
      ghost var was := i;
      ghost var before := units;
      i := i + 1;
      if c < 0x80 {
        units := units + [c];
      } else if 0xC0 <= c < 0xE0 {
        if i >= |b| || !IsTail(b[i]) {
          return None;
        }
        var v := Shift6(c - 0xC0, b[i]);
        i := i + 1;
        if v < 128 && v != 0 {
          return None;
        }
        units := units + [v];
      } else if 0xE0 <= c < 0xF0 {
        if i + 1 >= |b| || !IsTail(b[i]) || !IsTail(b[i + 1]) {
          return None;
        }
        var v := Shift6(Shift6(c - 0xE0, b[i]), b[i + 1]);
        i := i + 2;
        if v < 2048 {
          return None;
        }
        units := units + [v];
      } else {
        return None;
      }
      UnitsStep(b, was, before);
    }
    assert units + [] == units;
    var paired := CheckPairs(units);
    return if paired then Some(Utf8(RunesOf(units))) else None;
  }

  method CheckPairs(units: seq<Unit>) returns (ok: bool)
    ensures ok == Paired(units)
  {
    var i := 0;
    while i < |units|
      invariant 0 <= i <= |units|
      invariant Paired(units) == Paired(units[i..])
    {
      ghost var tail := units[i..];
      if IsHigh(units[i]) {
        if i + 1 >= |units| || !IsLow(units[i + 1]) {
          return false;
        }
        i := i + 1;
        assert tail[2..] == units[i + 1..];
      } else if IsLow(units[i]) {
        return false;
      } else {
        assert tail[1..] == units[i + 1..];
      }
      i := i + 1;
    }
    return true;
  }

  method EncodeText(s: GoString) returns (b: seq<byte>)
    requires ValidString(s)
    ensures b == BytesOf(s)
  {
    hide UnitsOf, FromUtf8;
    var units := UnitsOf(FromUtf8(s).value);
    b := [];
    for i := 0 to |units|
      invariant BytesOfUnits(units) == b + BytesOfUnits(units[i..])
    {
      var u := units[i];
      ghost var before := b;
      if 0 < u < 0x80 {
        b := b + [u];
      } else if u < 0x800 {
        b := b + [0xC0 + u / 64, 0x80 + u % 64];
      } else {
        b := b + [0xE0 + u / 64 / 64, 0x80 + u / 64 % 64, 0x80 + u % 64];
      }
      assert b == before + BytesOfUnit(u);
      assert units[i..][1..] == units[i + 1..];
      Assoc(before, BytesOfUnit(u), BytesOfUnits(units[i + 1..]));
    }
  }

  // ---- laws -----------------------------------------------------------------------------------------

  lemma FirstUnitOfEncoding(u: Unit, rest: seq<byte>)
    ensures FirstUnit(BytesOfUnit(u) + rest) == Some((u, |BytesOfUnit(u)|))
  {
    var b := BytesOfUnit(u) + rest;
    assert forall i :: 0 <= i < |BytesOfUnit(u)| ==> b[i] == BytesOfUnit(u)[i];
  }

  lemma {:induction false} UnitsOfBytesInverse(us: seq<Unit>)
    ensures UnitsOfBytes(BytesOfUnits(us)) == Some(us)
  {
    hide BytesOfUnit, FirstUnit;
    if us != [] {
      FirstUnitOfEncoding(us[0], BytesOfUnits(us[1..]));
      UnitsOfBytesInverse(us[1..]);
      assert BytesOfUnits(us)[|BytesOfUnit(us[0])|..] == BytesOfUnits(us[1..]);
      assert [us[0]] + us[1..] == us;
    }
  }

  /** How many raw zero bytes there are. */
  function Zeros(b: seq<byte>): nat {
    if b == [] then 0 else (if b[0] == 0 then 1 else 0) + Zeros(b[1..])
  }

  /** Every raw zero byte in its two-byte form; other bytes as they are. */
  function Escaped(b: seq<byte>): (e: seq<byte>)
    ensures |e| == |b| + Zeros(b)
  {
    if b == [] then [] else (if b[0] == 0 then [0xC0, 0x80] else [b[0]]) + Escaped(b[1..])
  }

  lemma {:induction false} EscapedConcat(a: seq<byte>, b: seq<byte>)
    ensures Escaped(a + b) == Escaped(a) + Escaped(b)
  {
    if a == [] {
      assert a + b == b;
    } else {
      EscapedConcat(a[1..], b);
      assert (a + b)[1..] == a[1..] + b && (a + b)[0] == a[0];
      Assoc(if a[0] == 0 then [0xC0, 0x80] else [a[0]], Escaped(a[1..]), Escaped(b));
    }
  }

  /** The escape changes exactly the byte strings with a zero in them. */
  lemma {:induction false} EscapedSame(b: seq<byte>)
    ensures Escaped(b) == b <==> 0 !in b
    ensures Zeros(b) == 0 <==> 0 !in b
  {
    if b != [] {
      EscapedSame(b[1..]);
      assert b == [b[0]] + b[1..];
    }
  }

  lemma {:induction false} BytesOfUnitsInverse(b: seq<byte>)
    requires UnitsOfBytes(b).Some?
    ensures BytesOfUnits(UnitsOfBytes(b).value) == Escaped(b)
    decreases |b|
  {
    hide FirstUnit;
    if b != [] {
      var (u, n) := FirstUnit(b).value;
      BytesOfUnitsInverse(b[n..]);
      assert UnitsOfBytes(b).value[1..] == UnitsOfBytes(b[n..]).value;
      assert b == b[..n] + b[n..];
      EscapedConcat(b[..n], b[n..]);
      EscapedSame(b[..n]);
    }
  }

  /** Reading back what was written gives the same string: every valid Go string survives. */
  lemma DecodeAfterEncode(s: GoString)
    requires ValidString(s)
    ensures TextOf(BytesOf(s)) == Some(s)
  {
    var runes := FromUtf8(s).value;
    UnitsOfBytesInverse(UnitsOf(runes));
    RunesOfInverse(runes);
  }

  /** A decoded string is valid UTF-8, and its encoding is the input with raw zero bytes escaped, so the
      input itself exactly without one. */
  lemma EncodeAfterDecode(b: seq<byte>)
    requires TextOf(b).Some?
    ensures ValidString(TextOf(b).value)
    ensures BytesOf(TextOf(b).value) == Escaped(b)
    ensures BytesOf(TextOf(b).value) == b <==> 0 !in b
  {
    FromUtf8Inverse(RunesOf(UnitsOfBytes(b).value));
    BytesOfUnitsInverse(b);
    EscapedSame(b);
  }

  lemma {:induction false} Utf8NoLongerThanUnits(runes: seq<Rune>)
    ensures |Utf8(runes)| <= |BytesOfUnits(UnitsOf(runes))|
  {
    if runes != [] {
      Utf8NoLongerThanUnits(runes[1..]);
      BytesOfUnitsConcat(UnitsOfRune(runes[0]), UnitsOf(runes[1..]));
      var us := UnitsOfRune(runes[0]);
      if |us| == 2 {
        assert us[1..][1..] == [];
        assert |BytesOfUnits(us)| == 6;
      } else {
        assert BytesOfUnits(us) == BytesOfUnit(us[0]);
      }
    }
  }

  lemma {:induction false} BytesOfUnitsConcat(a: seq<Unit>, b: seq<Unit>)
    ensures BytesOfUnits(a + b) == BytesOfUnits(a) + BytesOfUnits(b)
  {
    hide BytesOfUnit;
    if a == [] {
      assert a + b == b;
    } else {
      calc {
        BytesOfUnits(a + b);
        { assert (a + b)[1..] == a[1..] + b; }
        BytesOfUnit(a[0]) + BytesOfUnits(a[1..] + b);
        { BytesOfUnitsConcat(a[1..], b); }
        BytesOfUnit(a[0]) + (BytesOfUnits(a[1..]) + BytesOfUnits(b));
        { Assoc(BytesOfUnit(a[0]), BytesOfUnits(a[1..]), BytesOfUnits(b)); }
        BytesOfUnits(a) + BytesOfUnits(b);
      }
    }
  }

  /** The UTF-8 form is never longer, so the writer's first length test (on the UTF-8 length)
      rejects no string that its second test (on the encoded length) would accept. */
  lemma EarlyLengthTestIsRedundant(s: GoString)
    requires ValidString(s)
    ensures |s| <= |BytesOf(s)|
  {
    Utf8NoLongerThanUnits(FromUtf8(s).value);
  }

  lemma FirstUnitOfConcat(a: seq<byte>, b: seq<byte>)
    requires a != [] && FirstUnit(a).Some?
    ensures FirstUnit(a + b) == FirstUnit(a)
  {
  }

  lemma {:induction false} UnitsOfBytesConcat(a: seq<byte>, b: seq<byte>)
    requires UnitsOfBytes(a).Some? && UnitsOfBytes(b).Some?
    ensures UnitsOfBytes(a + b) == Some(UnitsOfBytes(a).value + UnitsOfBytes(b).value)
    decreases |a|
  {
    hide FirstUnit;
    if a == [] {
      assert a + b == b;
      assert [] + UnitsOfBytes(b).value == UnitsOfBytes(b).value;
    } else {
      var (u, n) := FirstUnit(a).value;
      FirstUnitOfConcat(a, b);
      assert (a + b)[n..] == a[n..] + b;
      UnitsOfBytesConcat(a[n..], b);
      Assoc([u], UnitsOfBytes(a[n..]).value, UnitsOfBytes(b).value);
    }
  }

  /** Decoding is a homomorphism on accepted pieces: a path of decoded names decodes piecewise. */
  lemma TextOfConcat(a: seq<byte>, b: seq<byte>)
    requires TextOf(a).Some? && TextOf(b).Some?
    ensures TextOf(a + b) == Some(TextOf(a).value + TextOf(b).value)
  {
    var us, vs := UnitsOfBytes(a).value, UnitsOfBytes(b).value;
    UnitsOfBytesConcat(a, b);
    RunesOfConcat(us, vs);
    Utf8Concat(RunesOf(us), RunesOf(vs));
  }

  /** The strings of the code's own path constants: printable ASCII. */
  predicate IsAscii(s: seq<byte>) {
    forall i :: 0 <= i < |s| ==> 0 < s[i] < 0x80
  }

  lemma {:induction false} TextOfAscii(s: seq<byte>)
    requires IsAscii(s)
    ensures TextOf(s) == Some(s)
  {
    if s != [] {
      TextOfAscii(s[1..]);
      assert UnitsOfBytes(s) == Some([s[0]] + UnitsOfBytes(s[1..]).value);
      assert UnitsOfBytes(s).value[1..] == UnitsOfBytes(s[1..]).value;
      assert RunesOf(UnitsOfBytes(s).value)[1..] == RunesOf(UnitsOfBytes(s[1..]).value);
      assert [s[0]] + s[1..] == s;
    } else {
      assert Utf8(RunesOf([])) == [];
    }
  }

  /** A run of raw zero bytes is the string of as many NULs, and takes twice as many bytes to write. */
  lemma {:induction false} NulText(zeros: seq<byte>)
    requires forall i :: 0 <= i < |zeros| ==> zeros[i] == 0
    ensures TextOf(zeros) == Some(zeros)
    ensures ValidString(zeros) && |BytesOf(zeros)| == 2 * |zeros|
  {
    var us := NulUnits(zeros);
    var runes := RunesOf(us);
    FromUtf8Inverse(runes);
  }

  lemma {:induction false} NulUnits(zeros: seq<byte>) returns (us: seq<Unit>)
    requires forall i :: 0 <= i < |zeros| ==> zeros[i] == 0
    ensures UnitsOfBytes(zeros) == Some(us) && Paired(us) && Utf8(RunesOf(us)) == zeros
    ensures |BytesOfUnits(us)| == 2 * |zeros|
  {
    hide UnitsOf;
    if zeros == [] {
      us := [];
    } else {
      var rest := NulUnits(zeros[1..]);
      us := [0] + rest;
      assert us[1..] == rest;
      assert RunesOf(us) == [0] + RunesOf(rest) && RunesOf(us)[1..] == RunesOf(rest);
      assert [0] + zeros[1..] == zeros;
    }
  }

  /** An ASCII character other than NUL at the head of either form is at the head of the other. */
  lemma AsciiHead(raw: seq<byte>, s: GoString)
    requires TextOf(raw) == Some(s)
    requires (raw != [] && 0 < raw[0] < 0x80) || (s != [] && 0 < s[0] < 0x80)
    ensures raw != [] && s != [] && raw[0] == s[0] && TextOf(raw[1..]) == Some(s[1..])
  {
    hide UnitsOf;
    var us := UnitsOfBytes(raw).value;
    var runes := RunesOf(us);
    assert raw != [] && us != [] && runes[0] == FirstOf(us);
    var (u, n) := FirstUnit(raw).value;
    assert us[1..] == UnitsOfBytes(raw[n..]).value;
    AsciiRune(runes[0]);
    assert Utf8(runes)[0] == Utf8Rune(runes[0])[0];
    assert u < 0x80 && n == 1;
    assert runes[1..] == RunesOf(us[1..]);
    assert s == [s[0]] + Utf8(runes[1..]);
  }

  lemma AsciiRune(r: Rune)
    ensures 0 < Utf8Rune(r)[0] < 0x80 ==> r == Utf8Rune(r)[0]
  {
  }

  /** A decoded string equals an ASCII constant exactly when the raw bytes do. */
  lemma {:induction false} SameAsConstant(raw: seq<byte>, s: GoString, k: GoString)
    requires TextOf(raw) == Some(s) && IsAscii(k)
    ensures raw == k <==> s == k
    decreases |k|
  {
    hide TextOf;
    if raw == k {
      TextOfAscii(k);
    }
    if s == k {
      if k == [] {
        EmptyText(raw);
      } else {
        AsciiHead(raw, s);
        SameAsConstant(raw[1..], s[1..], k[1..]);
        assert raw == [raw[0]] + raw[1..] && k == [k[0]] + k[1..];
      }
    }
  }

  lemma EmptyText(raw: seq<byte>)
    requires TextOf(raw).Some?
    ensures raw == [] <==> TextOf(raw).value == []
  {
    var us := UnitsOfBytes(raw).value;
    if raw != [] {
      assert us != [] && RunesOf(us) != [];
    }
  }
}
