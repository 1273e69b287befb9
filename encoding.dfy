/**
 * Bit and byte encodings used by the checksum check.
 *
 * Two families live here side by side:
 *  - the Python built-ins the program composes (`bin(n)[2:]`, `str.zfill`,
 *    `int(s, 2)`, `int.to_bytes(len, 'big')`, `int.from_bytes(bs, 'big')`),
 *    modelled on sequences of bits instead of strings of '0' and '1';
 *  - fixed-width big-endian reference encodings (FixedBits, PackBits,
 *    UnpackBytes) in which BIP-0039 is stated.
 * The lemmas connect the two.
 */
module Encoding {
  import opened Wrappers

  /** One binary digit: the characters '0' and '1' of the program's bit strings. */
  type Bit = b: nat | b < 2

  newtype byte = b: int | 0 <= b < 256

  function Pow2(n: nat): (p: nat)
    ensures p >= 1
  {
    if n == 0 then 1 else 2 * Pow2(n - 1)
  }

  lemma {:induction false} Pow2Add(a: nat, b: nat)
    ensures Pow2(a + b) == Pow2(a) * Pow2(b)
  {
    if b > 0 {
      Pow2Add(a, b - 1);
      calc {
        Pow2(a + b);
        2 * Pow2(a + b - 1);
        2 * (Pow2(a) * Pow2(b - 1));
        Pow2(a) * (2 * Pow2(b - 1));
        Pow2(a) * Pow2(b);
      }
    }
  }

  lemma {:induction false} Pow2Monotone(a: nat, b: nat)
    requires a <= b
    ensures Pow2(a) <= Pow2(b)
  {
    if a < b {
      Pow2Monotone(a, b - 1);
    }
  }

  lemma Pow2Byte()
    ensures Pow2(8) == 256
  {
    assert Pow2(2) == 4;
    assert Pow2(4) == 16;
    assert Pow2(6) == 64;
  }

  lemma Pow2Word()
    ensures Pow2(11) == 2048
  {
    Pow2Byte();
    assert Pow2(10) == 1024;
  }

  /* ---------------------------------------------------------------------- */
  /* Python built-ins                                                        */
  /* ---------------------------------------------------------------------- */

  /** `str.zfill(width)` on a numeral: pad on the left with `zero` up to `width`; never truncate. */
  function ZFill<T>(s: seq<T>, width: nat, zero: T): (r: seq<T>)
    ensures |r| == if |s| < width then width else |s|
    ensures r[|r| - |s|..] == s
    ensures forall k :: 0 <= k < |r| - |s| ==> r[k] == zero
  {
    if |s| >= width then s else seq(width - |s|, _ => zero) + s
  }

  /** `int(s, 2)` on a non-empty string of '0' and '1': the number the bits denote, most significant first. */
  function Value(s: seq<Bit>): (v: nat)
    ensures v < Pow2(|s|)
  {
    if s == [] then 0 else 2 * Value(s[..|s| - 1]) + s[|s| - 1]
  }

  /** `int(s, 2)`, with None for the ValueError that an empty string raises. */
  function ParseBinary(s: seq<Bit>): (r: Option<nat>)
    ensures r.None? <==> s == []
    ensures r.Some? ==> r.value < Pow2(|s|)
  {
    if s == [] then None else Some(Value(s))
  }

  /** `bin(n)[2:]`: the shortest numeral of n in base 2 ("0" for zero), most significant bit first. */
  function Binary(n: nat): (r: seq<Bit>)
    ensures |r| >= 1 && Value(r) == n
    ensures n > 0 ==> r[0] == 1
    decreases n
  {
    if n < 2 then [n]
    else
      var r := Binary(n / 2) + [n % 2];
      assert r[..|r| - 1] == Binary(n / 2);
      r
  }

  /** `int.from_bytes(bs, 'big')`. */
  function FromBytes(bs: seq<byte>): (v: nat)
    ensures v < Pow2(8 * |bs|)
  {
    if bs == [] then 0
    else
      Pow2Byte();
      Pow2Add(8 * (|bs| - 1), 8);
      256 * FromBytes(bs[..|bs| - 1]) + bs[|bs| - 1] as nat
  }

  /** The `len` low-order bytes of v, most significant first. */
  function BigEndian(v: nat, len: nat): (r: seq<byte>)
    ensures |r| == len
  {
    if len == 0 then [] else BigEndian(v / 256, len - 1) + [(v % 256) as byte]
  }

  /** `v.to_bytes(len, 'big')`, with None for the OverflowError raised when v needs more than `len` bytes. */
  function ToBytes(v: nat, len: nat): (r: Option<seq<byte>>)
    ensures r.Some? <==> v < Pow2(8 * len)
    ensures r.Some? ==> |r.value| == len && FromBytes(r.value) == v
  {
    if v < Pow2(8 * len) then
      BigEndianRoundTrip(v, len);
      Some(BigEndian(v, len))
    else None
  }

  lemma {:induction false} BigEndianRoundTrip(v: nat, len: nat)
    requires v < Pow2(8 * len)
    ensures FromBytes(BigEndian(v, len)) == v
  {
    if len > 0 {
      Pow2Byte();
      Pow2Add(8 * (len - 1), 8);
      BigEndianRoundTrip(v / 256, len - 1);
      var r := BigEndian(v, len);
      assert r[..|r| - 1] == BigEndian(v / 256, len - 1);
    }
  }

  /* ---------------------------------------------------------------------- */
  /* Fixed-width big-endian reference encodings                              */
  /* ---------------------------------------------------------------------- */

  /** The `w` low-order bits of n, most significant first. */
  function FixedBits(n: nat, w: nat): (r: seq<Bit>)
    ensures |r| == w
  {
    if w == 0 then [] else FixedBits(n / 2, w - 1) + [n % 2]
  }

  /** The eight bits of a byte, most significant first. */
  function ByteBits(b: byte): (r: seq<Bit>)
    ensures |r| == 8
  {
    FixedBits(b as nat, 8)
  }

  /** A byte string read as a bit string, each byte most significant bit first. */
  function UnpackBytes(bs: seq<byte>): (r: seq<Bit>)
    ensures |r| == 8 * |bs|
  {
    if bs == [] then [] else ByteBits(bs[0]) + UnpackBytes(bs[1..])
  }

  /** A bit string whose length is a multiple of eight, packed into bytes, eight bits per byte, most significant first. */
  function PackBits(bits: seq<Bit>): (r: seq<byte>)
    requires |bits| % 8 == 0
    ensures |r| == |bits| / 8
    ensures UnpackBytes(r) == bits
  {
    if bits == [] then []
    else
      Pow2Byte();
      var b := Value(bits[..8]) as byte;
      BitsAreFixedBitsOfValue(bits[..8]);
      assert bits == bits[..8] + bits[8..];
      [b] + PackBits(bits[8..])
  }

  /* ---------------------------------------------------------------------- */
  /* Lemmas                                                                  */
  /* ---------------------------------------------------------------------- */

  /** Reading a concatenation: the left part is shifted by the width of the right part. */
  lemma {:induction false} ValueAppend(a: seq<Bit>, b: seq<Bit>)
    ensures Value(a + b) == Value(a) * Pow2(|b|) + Value(b)
  {
    if b == [] {
      assert a + b == a;
    } else {
      var b' := b[..|b| - 1];
      assert (a + b)[..|a + b| - 1] == a + b';
      ValueAppend(a, b');
      var x, p, y, l := Value(a), Pow2(|b'|), Value(b'), b[|b| - 1];
      assert Value(a + b) == 2 * Value(a + b') + l;
      assert Value(b) == 2 * y + l;
      assert Pow2(|b|) == 2 * p;
      ShiftStep(x, p, y, l);
    }
  }

  lemma ShiftStep(x: int, p: int, y: int, l: int)
    ensures 2 * (x * p + y) + l == x * (2 * p) + (2 * y + l)
  {
  }

  /** Leading zeros do not change the number a bit string denotes. */
  lemma {:induction false} ValueOfZeroPadded(k: nat, s: seq<Bit>)
    ensures Value(seq(k, _ => 0) + s) == Value(s)
  {
    var z: seq<Bit> := seq(k, _ => 0);
    ZerosValue(k);
    ValueAppend(z, s);
  }

  lemma {:induction false} ZerosValue(k: nat)
    ensures Value(seq(k, _ => 0)) == 0
  {
    if k > 0 {
      var z: seq<Bit> := seq(k, _ => 0);
      assert z[..k - 1] == seq(k - 1, _ => 0);
      ZerosValue(k - 1);
    }
  }

  /** Two bit strings of one length that denote the same number are equal. */
  lemma {:induction false} ValueInjective(a: seq<Bit>, b: seq<Bit>)
    requires |a| == |b| && Value(a) == Value(b)
    ensures a == b
  {
    if a != [] {
      var n := |a|;
      ValueInjective(a[..n - 1], b[..n - 1]);
      assert a == a[..n - 1] + [a[n - 1]];
      assert b == b[..n - 1] + [b[n - 1]];
    }
  }

  lemma {:induction false} FixedBitsValue(n: nat, w: nat)
    requires n < Pow2(w)
    ensures Value(FixedBits(n, w)) == n
  {
    if w > 0 {
      FixedBitsValue(n / 2, w - 1);
      var r := FixedBits(n, w);
      assert r[..w - 1] == FixedBits(n / 2, w - 1);
    }
  }

  /** The last w of the w + k low-order bits of n are the w low-order bits of n. */
  lemma {:induction false} FixedBitsSuffix(n: nat, w: nat, k: nat)
    ensures FixedBits(n, w + k)[k..] == FixedBits(n, w)
  {
    if w > 0 {
      FixedBitsSuffix(n / 2, w - 1, k);
      var r := FixedBits(n, w + k);
      assert r == FixedBits(n / 2, w - 1 + k) + [n % 2];
      assert r[k..] == FixedBits(n / 2, w - 1 + k)[k..] + [n % 2];
    }
  }

  /** Every bit string is the fixed-width encoding of the number it denotes. */
  lemma BitsAreFixedBitsOfValue(s: seq<Bit>)
    ensures FixedBits(Value(s), |s|) == s
  {
    FixedBitsValue(Value(s), |s|);
    ValueInjective(FixedBits(Value(s), |s|), s);
  }

  /** `bin(n)[2:]` fits in w bits exactly when n is below 2^w. */
  lemma {:induction false} BinaryFits(n: nat, w: nat)
    requires w >= 1
    ensures |Binary(n)| <= w <==> n < Pow2(w)
  {
    if n < Pow2(w) {
      if n >= 2 {
        BinaryFits(n / 2, w - 1);
      }
    } else if |Binary(n)| <= w {
      Pow2Monotone(|Binary(n)|, w);
    }
  }

  /** Zero-filling a bit string keeps the number it denotes. */
  lemma ValueOfZFill(s: seq<Bit>, w: nat)
    ensures Value(ZFill(s, w, 0)) == Value(s)
  {
    if |s| < w {
      var pad: seq<Bit> := seq(w - |s|, _ => 0);
      assert ZFill(s, w, 0) == pad + s;
      ValueOfZeroPadded(w - |s|, s);
    }
  }

  /** `bin(n)[2:].zfill(w)` is the w-bit big-endian encoding of n when n fits in w bits. */
  lemma ZFillBinary(n: nat, w: nat)
    requires w >= 1 && n < Pow2(w)
    ensures ZFill(Binary(n), w, 0) == FixedBits(n, w)
  {
    BinaryFits(n, w);
    ValueOfZFill(Binary(n), w);
    FixedBitsValue(n, w);
    ValueInjective(ZFill(Binary(n), w, 0), FixedBits(n, w));
  }

  /** `bin(n)[2:].zfill(w)` is longer than w bits when n does not fit: zfill never truncates. */
  lemma ZFillBinaryOverflows(n: nat, w: nat)
    requires w >= 1 && n >= Pow2(w)
    ensures |ZFill(Binary(n), w, 0)| > w
  {
    BinaryFits(n, w);
  }

  lemma {:induction false} UnpackAppend(a: seq<byte>, b: seq<byte>)
    ensures UnpackBytes(a + b) == UnpackBytes(a) + UnpackBytes(b)
  {
    if a == [] {
      assert a + b == b;
    } else {
      assert (a + b)[0] == a[0];
      assert (a + b)[1..] == a[1..] + b;
      UnpackAppend(a[1..], b);
    }
  }

  /** Reading bytes as one big-endian number agrees with reading their bits. */
  lemma {:induction false} ValueOfUnpack(bs: seq<byte>)
    ensures Value(UnpackBytes(bs)) == FromBytes(bs)
  {
    if bs != [] {
      var p := bs[..|bs| - 1];
      var x := bs[|bs| - 1];
      assert bs == p + [x];
      UnpackAppend(p, [x]);
      assert UnpackBytes([x]) == ByteBits(x) + UnpackBytes([]);
      assert UnpackBytes(bs) == UnpackBytes(p) + ByteBits(x);
      ValueOfUnpack(p);
      ValueAppend(UnpackBytes(p), ByteBits(x));
      Pow2Byte();
      FixedBitsValue(x as nat, 8);
      assert p == bs[..|bs| - 1];
    }
  }

  /** Packing is also a left inverse of unpacking. */
  lemma {:induction false} PackUnpack(bs: seq<byte>)
    ensures PackBits(UnpackBytes(bs)) == bs
  {
    if bs != [] {
      var u := UnpackBytes(bs);
      assert u[..8] == ByteBits(bs[0]) && u[8..] == UnpackBytes(bs[1..]);
      Pow2Byte();
      FixedBitsValue(bs[0] as nat, 8);
      PackUnpack(bs[1..]);
    }
  }

  /**
   * `int(bits, 2).to_bytes(len(bits) // 8, 'big')` never overflows on a whole number of
   * bytes, and yields exactly the bytes the bits are packed into.
   */
  lemma ToBytesOfBits(bits: seq<Bit>)
    requires |bits| % 8 == 0
    ensures ToBytes(Value(bits), |bits| / 8) == Some(PackBits(bits))
  {
    var m := |bits| / 8;
    assert 8 * m == |bits|;
    var r := BigEndian(Value(bits), m);
    BigEndianRoundTrip(Value(bits), m);
    ValueOfUnpack(r);
    ValueInjective(UnpackBytes(r), bits);
    PackUnpack(r);
  }

  /**
   * `bin(int.from_bytes(h, 'big'))[2:].zfill(8 * len(h))` is h read as bits, most
   * significant first.
   */
  lemma ZFillBinaryOfBytes(h: seq<byte>)
    requires |h| >= 1
    ensures ZFill(Binary(FromBytes(h)), 8 * |h|, 0) == UnpackBytes(h)
  {
    ValueOfUnpack(h);
    ZFillBinary(FromBytes(h), 8 * |h|);
    BitsAreFixedBitsOfValue(UnpackBytes(h));
  }
}
