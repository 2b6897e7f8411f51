/** Optional results, used for Go's (value, error) returns: every error of the codec wraps the one
    sentinel ErrInvalid, so no error payload is kept. */
module Options {
  datatype Option<+T> = None | Some(value: T) {
    predicate IsFailure() {
      None?
    }

    function PropagateFailure<U>(): Option<U>
      requires None?
    {
      None
    }

    function Extract(): T
      requires Some?
    {
      value
    }
  }
}

/** The size of a part of a finite set. */
module Sets {
  lemma Shrinks<T>(small: set<T>, big: set<T>)
    requires small <= big
    ensures |small| <= |big| && (small != big ==> |small| < |big|)
  {
    assert big == small + (big - small);
  }
}

/** Bytes, Go strings (byte sequences), big-endian integers, and Go's decimal and hexadecimal text. */
module Bytes {
  import opened Options

  type byte = x: int | 0 <= x < 256

  /** A Go string is any sequence of bytes; whether it is valid UTF-8 is a separate question. */
  type GoString = seq<byte>

  lemma Assoc<T>(a: seq<T>, b: seq<T>, c: seq<T>)
    ensures (a + b) + c == a + (b + c)
  {
  }

  // ---- big-endian integers -------------------------------------------------------------------

  /** 256 to the power `width`. */
  function Pow256(width: nat): (p: nat)
    ensures p >= 1
  {
    if width == 0 then 1 else 256 * Pow256(width - 1)
  }

  function BigEndian(v: nat, width: nat): (b: seq<byte>)
    ensures |b| == width
  {
    if width == 0 then [] else BigEndian(v / 256, width - 1) + [v % 256]
  }

  function FromBigEndian(b: seq<byte>): (v: nat)
    ensures v < Pow256(|b|)
  {
    if b == [] then 0 else 256 * FromBigEndian(b[..|b| - 1]) + b[|b| - 1]
  }

  lemma {:induction false} BigEndianInverse(v: nat, width: nat)
    requires v < Pow256(width)
    ensures FromBigEndian(BigEndian(v, width)) == v
  {
    if width > 0 {
      BigEndianInverse(v / 256, width - 1);
      assert BigEndian(v, width)[..width - 1] == BigEndian(v / 256, width - 1);
    }
  }

  lemma {:induction false} FromBigEndianInverse(b: seq<byte>)
    ensures BigEndian(FromBigEndian(b), |b|) == b
  {
    if b != [] {
      var high, low := FromBigEndian(b[..|b| - 1]), b[|b| - 1];
      FromBigEndianInverse(b[..|b| - 1]);
      assert (256 * high + low) / 256 == high && (256 * high + low) % 256 == low;
      calc {
        BigEndian(FromBigEndian(b), |b|);
        BigEndian(high, |b| - 1) + [low];
        b[..|b| - 1] + [low];
        b;
      }
    }
  }

  // ---- two's complement ----------------------------------------------------------------------

  /** The range of a signed integer of `width` bytes. */
  predicate Fits(v: int, width: nat)
    requires width > 0
  {
    -128 * Pow256(width - 1) <= v < 128 * Pow256(width - 1)
  }

  function ToBits(v: int, width: nat): (bits: nat)
    requires width > 0 && Fits(v, width)
    ensures bits < Pow256(width)
  {
    if v < 0 then v + Pow256(width) else v
  }

  function FromBits(bits: nat, width: nat): (v: int)
    requires width > 0 && bits < Pow256(width)
    ensures Fits(v, width) && ToBits(v, width) == bits
  {
    if bits < 128 * Pow256(width - 1) then bits else bits - Pow256(width)
  }

  // ---- decimal text (strconv.FormatInt, strconv.ParseInt in base 10) ----------------------------

  const MINUS: byte := 45
  const PLUS: byte := 43
  const ZERO: byte := 48

  predicate IsDigit(c: byte) {
    48 <= c <= 57
  }

  function FormatNat(n: nat): (s: GoString)
    ensures s != []
    ensures forall i :: 0 <= i < |s| ==> IsDigit(s[i])
  {
    if n < 10 then [ZERO + n] else FormatNat(n / 10) + [ZERO + n % 10]
  }

  function FormatInt(v: int): GoString {
    if v < 0 then [MINUS] + FormatNat(-v) else FormatNat(v)
  }

  /** The value of a run of digits; None if a character is not a digit. */
  function DigitsValue(s: GoString): Option<nat> {
    if s == [] then Some(0)
    else if !IsDigit(s[|s| - 1]) then None
    else
      var high :- DigitsValue(s[..|s| - 1]);
      Some(10 * high + (s[|s| - 1] - ZERO))
  }

  function ParseNat(s: GoString): Option<nat> {
    if s == [] then None else DigitsValue(s)
  }

  /** ParseInt: an optional sign, then at least one digit; out of range is an error. */
  function ParseInt(s: GoString, width: nat): (r: Option<int>)
    requires width > 0
    ensures r.Some? ==> Fits(r.value, width)
  {
    var signed := s != [] && (s[0] == MINUS || s[0] == PLUS);
    var magnitude :- ParseNat(if signed then s[1..] else s);
    var v := if signed && s[0] == MINUS then 0 - magnitude as int else magnitude as int;
    if Fits(v, width) then Some(v) else None
  }

  lemma {:induction false} DigitsOfFormat(n: nat)
    ensures DigitsValue(FormatNat(n)) == Some(n)
  {
    if n < 10 {
      assert FormatNat(n)[..0] == [];
    } else {
      DigitsOfFormat(n / 10);
      assert FormatNat(n)[..|FormatNat(n)| - 1] == FormatNat(n / 10);
    }
  }

  lemma ParseFormat(v: int, width: nat)
    requires width > 0 && Fits(v, width)
    ensures ParseInt(FormatInt(v), width) == Some(v)
  {
    var s := FormatInt(v);
    DigitsOfFormat(if v < 0 then -v else v);
    if v < 0 {
      assert s[1..] == FormatNat(-v);
    } else {
      assert IsDigit(s[0]);
    }
  }

  /** A leading zero digit changes nothing. */
  lemma {:induction false} LeadingZero(d: GoString)
    ensures DigitsValue([ZERO] + d) == DigitsValue(d)
    decreases |d|
  {
    var s := [ZERO] + d;
    if d == [] {
      assert s[..0] == [];
    } else {
      LeadingZero(d[..|d| - 1]);
      assert s[..|d|] == [ZERO] + d[..|d| - 1];
    }
  }

  /** What ParseInt makes of a run of digits, bare or behind a zero, a plus or a minus: the number it
      spells, negated behind a minus, and an error exactly if that number does not fit the width. */
  lemma ParseDigits(d: GoString, n: int, width: nat)
    requires width > 0 && d != [] && DigitsValue(d) == Some(n)
    ensures ParseInt(d, width) == (if Fits(n, width) then Some(n) else None)
    ensures ParseInt([PLUS] + d, width) == (if Fits(n, width) then Some(n) else None)
    ensures ParseInt([ZERO] + d, width) == (if Fits(n, width) then Some(n) else None)
    ensures ParseInt([MINUS] + d, width) == (if Fits(-n, width) then Some(-n) else None)
  {
    DigitsAre(d);
    assert IsDigit(d[0]);
    LeadingZero(d);
    assert ([PLUS] + d)[1..] == d && ([MINUS] + d)[1..] == d;
  }

  /** Only digits have a value, and every run of digits has one. */
  lemma {:induction false} DigitsAre(d: GoString)
    ensures DigitsValue(d).Some? <==> forall i :: 0 <= i < |d| ==> IsDigit(d[i])
    decreases |d|
  {
    if d != [] {
      var head := d[..|d| - 1];
      DigitsAre(head);
      assert forall i :: 0 <= i < |head| ==> head[i] == d[i];
    }
  }

  /** Anything else is an error: a text that ParseInt accepts is one of those. */
  lemma ParsedText(s: GoString, width: nat)
    requires width > 0 && ParseInt(s, width).Some?
    ensures var d := if s != [] && (s[0] == MINUS || s[0] == PLUS) then s[1..] else s;
            d != [] && forall i :: 0 <= i < |d| ==> IsDigit(d[i])
  {
    DigitsAre(if s[0] == MINUS || s[0] == PLUS then s[1..] else s);
  }

  lemma Remainder(v: int, p: int)
    requires 0 <= v < p || -p <= v < 0
    ensures v % p == if v < 0 then v + p else v
  {
    assert v == p * (v / p) + v % p;
  }

  /** The bits of a number are the number modulo two to the power of eight bits a byte. */
  lemma BitsModulo(v: int, width: nat)
    requires width > 0 && Fits(v, width)
    ensures ToBits(v, width) == v % Pow256(width)
  {
    Remainder(v, Pow256(width));
  }

  // ---- lower-case hexadecimal text (fmt %x, strconv.ParseUint in base 16) -------------------------

  function HexDigit(d: nat): byte
    requires d < 16
  {
    if d < 10 then ZERO + d else 87 + d
  }

  function HexValue(c: byte): Option<nat> {
    if IsDigit(c) then Some(c - ZERO)
    else if 97 <= c <= 102 then Some(c - 87)
    else if 65 <= c <= 70 then Some(c - 55)
    else None
  }

  function FormatHex(n: nat): (s: GoString)
    ensures s != []
  {
    if n < 16 then [HexDigit(n)] else FormatHex(n / 16) + [HexDigit(n % 16)]
  }

  function HexDigitsValue(s: GoString): Option<nat> {
    if s == [] then Some(0)
    else
      var low :- HexValue(s[|s| - 1]);
      var high :- HexDigitsValue(s[..|s| - 1]);
      Some(16 * high + low)
  }

  /** ParseUint in base 16: empty, a bad digit or a value of `limit` or more is an error. */
  function ParseHex(s: GoString, limit: nat): (r: Option<nat>)
    ensures r.Some? ==> r.value < limit
  {
    if s == [] then None
    else
      var v :- HexDigitsValue(s);
      if v < limit then Some(v) else None
  }

  lemma {:induction false} HexDigitsOfFormat(n: nat)
    ensures HexDigitsValue(FormatHex(n)) == Some(n)
  {
    if n < 16 {
      assert FormatHex(n)[..0] == [];
    } else {
      HexDigitsOfFormat(n / 16);
      assert FormatHex(n)[..|FormatHex(n)| - 1] == FormatHex(n / 16);
    }
  }
}
