/**
 common/crc16.c: the payload checksum, and the errors it is certain to catch.
 The 16-bit register is written as its bits, most significant first, so that
 `crc << 1`, `crc & 0x8000` and `crc ^ 0x1021` are what they are in the source.
 */
module Crc16 {
  import opened Bytes

  type Word = w: seq<bool> | |w| == 16
    witness [false, false, false, false, false, false, false, false,
     false, false, false, false, false, false, false, false]

  const ZERO: Word :=
    [false, false, false, false, false, false, false, false,
     false, false, false, false, false, false, false, false]
  /** 0xFFFF */
  const INIT: Word :=
    [true, true, true, true, true, true, true, true,
     true, true, true, true, true, true, true, true]

  /** 0x1021 */
  const POLY: Word := [false, false, false, true, false, false, false, false,
                       false, false, true, false, false, false, false, true]

  function Xor(a: seq<bool>, b: seq<bool>): (x: seq<bool>)
    requires |a| == |b|
    ensures |x| == |a|
    ensures forall i :: 0 <= i < |a| ==> x[i] == (a[i] != b[i])
  {
    seq(|a|, i requires 0 <= i < |a| => a[i] != b[i])
  }

  function Value(bits: seq<bool>): nat
  {
    if bits == [] then 0
    else 2 * Value(bits[..|bits| - 1]) + (if bits[|bits| - 1] then 1 else 0)
  }

  /** One turn of the inner loop. */
  function ShiftBit(c: Word): Word
  {
    if c[0] then Xor(c[1..] + [false], POLY) else c[1..] + [false]
  }

  function Shift(c: Word, n: nat): Word
  {
    if n == 0 then c else ShiftBit(Shift(c, n - 1))
  }

  /** Bit k of a byte, counted from the most significant one. */
  function BitOf(b: nat, k: nat): bool
    requires k < 8
    decreases 8 - k
  {
    if k == 7 then b % 2 == 1 else BitOf(b / 2, k + 1)
  }

  function ByteBits(b: byte): (bits: seq<bool>)
    ensures |bits| == 8
  {
    seq(8, k requires 0 <= k < 8 => BitOf(b, k))
  }

  function ZeroBits(n: nat): (z: seq<bool>)
    ensures |z| == n && forall i :: 0 <= i < n ==> !z[i]
  {
    seq(n, _ => false)
  }

  function Absorb(c: Word, b: byte): Word
  {
    Shift(Xor(c, ByteBits(b) + ZeroBits(8)), |ByteBits(b)|)
  }

  function CrcState(data: seq<byte>): Word
  {
    if data == [] then INIT else Absorb(CrcState(data[..|data| - 1]), data[|data| - 1])
  }

  function Crc(data: seq<byte>): u16
  {
    ValueBound(CrcState(data));
    Value(CrcState(data))
  }

  lemma {:induction false} ValueBound(w: Word)
    ensures Value(w) < 0x1_0000
  {
    ValueBelow(w, 16);
    assert Pow2(4) == 0x10;
    assert Pow2(8) == 0x10 * Pow2(4);
    assert Pow2(12) == 0x10 * Pow2(8);
    assert Pow2(16) == 0x10 * Pow2(12);
  }

  lemma {:induction false} ValueBelow(bits: seq<bool>, n: nat)
    requires |bits| == n
    ensures Value(bits) < Pow2(n)
  {
    if n > 0 {
      ValueBelow(bits[..n - 1], n - 1);
    }
  }

  lemma {:induction false} ValueInjective(a: seq<bool>, b: seq<bool>)
    requires |a| == |b| && Value(a) == Value(b)
    ensures a == b
  {
    if a != [] {
      var n := |a| - 1;
      assert a[n] == b[n];
      ValueInjective(a[..n], b[..n]);
      assert a == a[..n] + [a[n]];
      assert b == b[..n] + [b[n]];
    }
  }

  /** The register as numbers: the polynomial is 0x1021, the start 0xFFFF, and a byte goes in highest bit first. */
  lemma AsNumbers(b: byte)
    ensures Value(POLY) == 0x1021 && Value(INIT) == 0xFFFF && Crc([]) == 0xFFFF && Value(ByteBits(b)) == b
  {
    hide Value, ByteBits;
    Digits(POLY);
    Digits(INIT);
    ByteDigits(ByteBits(b));
    BitsOfByte(b);
  }

  lemma Digits(w: Word)
    ensures Value(w) == 256 * Eight(w[..8]) + Eight(w[8..])
  {
    hide Value, Pow2, Eight;
    assert w == w[..8] + w[8..];
    ValueJoin(w[..8], w[8..]);
    ByteDigits(w[..8]);
    ByteDigits(w[8..]);
    PowerOfByte();
  }

  lemma PowerOfByte()
    ensures Pow2(8) == 256
  {
  }

  lemma {:induction false} ValueJoin(a: seq<bool>, b: seq<bool>)
    ensures Value(a + b) == Value(a) * Pow2(|b|) + Value(b)
    decreases |b|
  {
    hide Value, Pow2;
    PowStep(|b|);
    NoBits();
    if b == [] {
      assert a + b == a;
    } else {
      var n := |b| - 1;
      assert (a + b)[..|a| + n] == a + b[..n];
      assert (a + b)[..|a| + |b|] == a + b && b[..|b|] == b;
      ValueStep(a + b, |a| + |b|);
      ValueStep(b, |b|);
      ValueJoin(a, b[..n]);
      Twice(Value(a), Pow2(n));
    }
  }

  lemma PowStep(n: nat)
    ensures Pow2(n) == if n == 0 then 1 else 2 * Pow2(n - 1)
  {
  }

  lemma NoBits()
    ensures Value([]) == 0
  {
  }

  lemma Twice(x: nat, p: nat)
    ensures 2 * (x * p) == x * (2 * p)
  {
  }

  function Eight(s: seq<bool>): nat
    requires |s| == 8
  {
    128 * One(s[0]) + 64 * One(s[1]) + 32 * One(s[2]) + 16 * One(s[3])
    + 8 * One(s[4]) + 4 * One(s[5]) + 2 * One(s[6]) + One(s[7])
  }

  lemma ByteDigits(s: seq<bool>)
    requires |s| == 8
    ensures Value(s) == Eight(s)
  {
    hide Value, One;
    ValueStep(s, 8);
    ValueStep(s, 7);
    ValueStep(s, 6);
    ValueStep(s, 5);
    ValueStep(s, 4);
    ValueStep(s, 3);
    ValueStep(s, 2);
    ValueStep(s, 1);
    NoBits();
    assert s[..8] == s && s[..0] == [];
  }

  lemma ValueStep(s: seq<bool>, n: nat)
    requires 0 < n <= |s|
    ensures Value(s[..n]) == 2 * Value(s[..n - 1]) + One(s[n - 1])
  {
    assert s[..n][..n - 1] == s[..n - 1];
  }

  lemma BitsOfByte(b: byte)
    ensures Eight(ByteBits(b)) == b
  {
    hide BitOf, Half;
    var s := ByteBits(b);
    forall i | 0 <= i < 8
      ensures s[7 - i] == (Half(b, i) % 2 == 1) && Half(b, i) == 2 * Half(b, i + 1) + One(s[7 - i])
    {
      assert s[7 - i] == BitOf(b, 7 - i);
      BitAt(b, i);
      HalfStep(b, i);
    }
    SumOfBits(b, s);
  }

  lemma SumOfBits(b: byte, s: seq<bool>)
    requires |s| == 8 && forall i :: 0 <= i < 8 ==> Half(b, i) == 2 * Half(b, i + 1) + One(s[7 - i])
    ensures Eight(s) == b
  {
    hide Half;
    AllHalves(b);
    assert Half(b, 0) == 2 * Half(b, 0 + 1) + One(s[7]);
    assert Half(b, 1) == 2 * Half(b, 1 + 1) + One(s[6]);
    assert Half(b, 2) == 2 * Half(b, 2 + 1) + One(s[5]);
    assert Half(b, 3) == 2 * Half(b, 3 + 1) + One(s[4]);
    assert Half(b, 4) == 2 * Half(b, 4 + 1) + One(s[3]);
    assert Half(b, 5) == 2 * Half(b, 5 + 1) + One(s[2]);
    assert Half(b, 6) == 2 * Half(b, 6 + 1) + One(s[1]);
    assert Half(b, 7) == 2 * Half(b, 7 + 1) + One(s[0]);
  }

  /** b halved i times. */
  function Half(b: nat, i: nat): nat {
    if i == 0 then b else Half(b / 2, i - 1)
  }

  lemma {:induction false} HalfStep(b: nat, i: nat)
    ensures Half(b, i + 1) == Half(b, i) / 2
    decreases i
  {
    if i > 0 {
      HalfStep(b / 2, i - 1);
    } else {
      assert Half(b, 1) == Half(b / 2, 0);
    }
  }

  lemma {:induction false} Vanishes(b: nat, i: nat)
    requires b < Pow2(i)
    ensures Half(b, i) == 0
    decreases i
  {
    if i > 0 {
      Vanishes(b / 2, i - 1);
    }
  }

  lemma AllHalves(b: byte)
    ensures Half(b, 0) == b && Half(b, 8) == 0
  {
    PowerOfByte();
    Vanishes(b, 8);
  }

  lemma {:induction false} BitAt(b: nat, i: nat)
    requires i < 8
    ensures BitOf(b, 7 - i) == (Half(b, i) % 2 == 1)
    decreases i
  {
    if i > 0 {
      BitAt(b / 2, i - 1);
    }
  }

  /** The nested loops of the source over buf[from..from + len). */
  method ComputeCrc(buf: array<byte>, from: nat, len: nat) returns (crc: Word)
    requires from + len <= buf.Length
    ensures crc == CrcState(buf[from..from + len])
  {
    crc := INIT;
    for i := 0 to len
      invariant crc == CrcState(buf[from..from + i])
    {
      ghost var before := crc;
      crc := Xor(crc, ByteBits(buf[from + i]) + ZeroBits(8));
      ghost var start := crc;
      for bit := 0 to 8
        invariant crc == Shift(start, bit)
      {
        if crc[0] {
          crc := Xor(crc[1..] + [false], POLY);
        } else {
          crc := crc[1..] + [false];
        }
      }
      assert buf[from..from + i + 1][..i] == buf[from..from + i];
    }
  }

  // The checksum as one shift register fed bit by bit

  /** A message bit lined up with the top of the register. */
  function Mark(b: bool): Word
  {
    [b] + ZeroBits(15)
  }

  /** The register fed with message bits, oldest first. */
  function Serial(c: Word, bits: seq<bool>): Word
  {
    if bits == [] then c else ShiftBit(Xor(Serial(c, bits[..|bits| - 1]), Mark(bits[|bits| - 1])))
  }

  /** The bits of a payload in the order the checksum takes them. */
  function Bits(data: seq<byte>): (bits: seq<bool>)
    ensures |bits| == 8 * |data|
  {
    if data == [] then [] else Bits(data[..|data| - 1]) + ByteBits(data[|data| - 1])
  }

  lemma ShiftBitLinear(a: Word, b: Word)
    ensures ShiftBit(Xor(a, b)) == Xor(ShiftBit(a), ShiftBit(b))
  {
    assert forall i :: 0 <= i < 16 ==> ShiftBit(Xor(a, b))[i] == Xor(ShiftBit(a), ShiftBit(b))[i];
  }

  /** Bits below the top one only move up; the top one decides on the polynomial. */
  lemma ShiftBitSplit(c: Word, w: Word)
    ensures ShiftBit(Xor(c, w)) == Xor(ShiftBit(Xor(c, Mark(w[0]))), w[1..] + [false])
  {
    assert forall i :: 0 <= i < 16 ==>
      ShiftBit(Xor(c, w))[i] == Xor(ShiftBit(Xor(c, Mark(w[0]))), w[1..] + [false])[i];
  }

  lemma {:induction false} ShiftFront(c: Word, n: nat)
    ensures Shift(c, n + 1) == Shift(ShiftBit(c), n)
  {
    if n > 0 {
      ShiftFront(c, n - 1);
    }
  }

  lemma {:induction false} SerialAppend(c: Word, a: seq<bool>, b: seq<bool>)
    ensures Serial(c, a + b) == Serial(Serial(c, a), b)
  {
    if b == [] {
      assert a + b == a;
    } else {
      var last := |b| - 1;
      assert (a + b)[..|a| + last] == a + b[..last];
      SerialAppend(c, a, b[..last]);
    }
  }

  /** Up to 16 bits may be added into the register at once. */
  lemma NothingShifted(c: Word)
    ensures Shift(c, 0) == c && Serial(c, []) == c
  {
  }

  lemma SerialOne(c: Word, b: bool)
    ensures Serial(c, [b]) == ShiftBit(Xor(c, Mark(b)))
  {
    assert [b][..0] == [];
  }

  lemma {:induction false} SerialIsShift(c: Word, bits: seq<bool>)
    requires |bits| <= 16
    ensures Serial(c, bits) == Shift(Xor(c, bits + ZeroBits(16 - |bits|)), |bits|)
    decreases |bits|
  {
    hide Shift, Serial;
    NothingShifted(c);
    var w: Word := bits + ZeroBits(16 - |bits|);
    if bits == [] {
      assert Xor(c, w) == c;
    } else {
      var b, rest := bits[0], bits[1..];
      var c' := ShiftBit(Xor(c, Mark(b)));
      assert bits == [b] + rest;
      SerialAppend(c, [b], rest);
      SerialOne(c, b);
      SerialIsShift(c', rest);
      ShiftBitSplit(c, w);
      assert w[1..] + [false] == rest + ZeroBits(16 - |rest|);
      ShiftFront(Xor(c, w), |rest|);
    }
  }

  /** The byte-wise loops compute the bit-serial register over the payload's bits. */
  lemma {:induction false} CrcIsSerial(data: seq<byte>)
    ensures CrcState(data) == Serial(INIT, Bits(data))
  {
    if data != [] {
      var n := |data| - 1;
      CrcIsSerial(data[..n]);
      SerialAppend(INIT, Bits(data[..n]), ByteBits(data[n]));
      SerialIsShift(CrcState(data[..n]), ByteBits(data[n]));
    }
  }

  lemma {:induction false} SerialLinear(c: Word, d: Word, a: seq<bool>, b: seq<bool>)
    requires |a| == |b|
    ensures Xor(Serial(c, a), Serial(d, b)) == Serial(Xor(c, d), Xor(a, b))
  {
    if a != [] {
      var n := |a| - 1;
      SerialLinear(c, d, a[..n], b[..n]);
      var x := Xor(a, b);
      assert x[..n] == Xor(a[..n], b[..n]);
      var p: Word, q: Word := Serial(c, a[..n]), Serial(d, b[..n]);
      ShiftBitLinear(Xor(p, Mark(a[n])), Xor(q, Mark(b[n])));
      assert Xor(Xor(p, Mark(a[n])), Xor(q, Mark(b[n]))) == Xor(Xor(p, q), Mark(x[n]));
    }
  }

  /**
   Two payloads of one length get the same checksum exactly when the register, started at
   zero, comes back to zero over the bits in which they differ.
   */
  lemma SameCrcIff(a: seq<byte>, b: seq<byte>)
    requires |a| == |b|
    ensures Crc(a) == Crc(b) <==> Serial(ZERO, Xor(Bits(a), Bits(b))) == ZERO
  {
    CrcIsSerial(a);
    CrcIsSerial(b);
    SerialLinear(INIT, INIT, Bits(a), Bits(b));
    var p: Word, q: Word := CrcState(a), CrcState(b);
    var e: Word := Serial(ZERO, Xor(Bits(a), Bits(b)));
    assert Xor(INIT, INIT) == ZERO;
    assert Xor(p, q) == e;
    if Crc(a) == Crc(b) {
      ValueInjective(p, q);
      assert e == ZERO;
    }
    if e == ZERO {
      assert forall i :: 0 <= i < 16 ==> Xor(p, q)[i] == ZERO[i];
      assert p == q;
    }
  }

  // Burst errors

  lemma ShiftBitNonzero(c: Word)
    requires c != ZERO
    ensures ShiftBit(c) != ZERO
  {
    if c[0] {
      assert ShiftBit(c)[15];
    } else {
      var i :| 0 <= i < 16 && c[i] != ZERO[i];
      assert ShiftBit(c)[i - 1];
    }
  }

  lemma {:induction false} ShiftNonzero(c: Word, n: nat)
    requires c != ZERO
    ensures Shift(c, n) != ZERO
  {
    if n > 0 {
      ShiftNonzero(c, n - 1);
      ShiftBitNonzero(Shift(c, n - 1));
    }
  }

  lemma {:induction false} SerialQuiet(bits: seq<bool>)
    requires forall i :: 0 <= i < |bits| ==> !bits[i]
    ensures Serial(ZERO, bits) == ZERO
  {
    if bits != [] {
      SerialQuiet(bits[..|bits| - 1]);
      assert Xor(ZERO, Mark(false)) == ZERO;
    }
  }

  lemma {:induction false} SerialStaysNonzero(c: Word, bits: seq<bool>)
    requires c != ZERO
    requires forall i :: 0 <= i < |bits| ==> !bits[i]
    ensures Serial(c, bits) != ZERO
  {
    if bits != [] {
      var n := |bits| - 1;
      SerialStaysNonzero(c, bits[..n]);
      assert Xor(Serial(c, bits[..n]), Mark(false)) == Serial(c, bits[..n]);
      ShiftBitNonzero(Serial(c, bits[..n]));
    }
  }

  /** An error pattern confined to 16 consecutive bits never leaves the register at zero. */
  lemma BurstLeavesTrace(e: seq<bool>, at: nat, hit: nat)
    requires hit < |e| && e[hit]
    requires forall i :: 0 <= i < |e| && e[i] ==> at <= i < at + 16
    ensures Serial(ZERO, e) != ZERO
  {
    hide Serial;
    var to := if at + 16 <= |e| then at + 16 else |e|;
    var before, burst, after := e[..at], e[at..to], e[to..];
    assert burst[hit - at];
    SerialQuiet(before);
    BurstNonzero(burst, hit - at);
    SerialStaysNonzero(Serial(ZERO, burst), after);
    assert e == before + (burst + after);
    SerialAppend(ZERO, before, burst + after);
    SerialAppend(ZERO, burst, after);
  }

  lemma BurstNonzero(burst: seq<bool>, hit: nat)
    requires hit < |burst| <= 16 && burst[hit]
    ensures Serial(ZERO, burst) != ZERO
  {
    hide Serial, Shift;
    SerialIsShift(ZERO, burst);
    var w: Word := burst + ZeroBits(16 - |burst|);
    assert Xor(ZERO, w) == w;
    assert w[hit] != ZERO[hit];
    ShiftNonzero(w, |burst|);
  }

  lemma {:induction false} SameBits(x: nat, y: nat, n: nat)
    requires n <= 8 && x < Pow2(n) && y < Pow2(n)
    requires forall k :: 8 - n <= k < 8 ==> BitOf(x, k) == BitOf(y, k)
    ensures x == y
    decreases n
  {
    if n > 0 {
      forall k | 9 - n <= k < 8
        ensures BitOf(x / 2, k) == BitOf(y / 2, k)
      {
        assert BitOf(x, k - 1) == BitOf(y, k - 1);
      }
      SameBits(x / 2, y / 2, n - 1);
      assert BitOf(x, 7) == BitOf(y, 7);
    }
  }

  lemma ByteBitsInjective(x: byte, y: byte)
    requires ByteBits(x) == ByteBits(y)
    ensures x == y
  {
    forall k | 0 <= k < 8
      ensures BitOf(x, k) == BitOf(y, k)
    {
      assert BitOf(x, k) == ByteBits(x)[k];
    }
    assert Pow2(4) == 0x10;
    assert Pow2(8) == 0x10 * Pow2(4);
    SameBits(x, y, 8);
  }

  lemma SameSplit(p: seq<bool>, q: seq<bool>, r: seq<bool>, s: seq<bool>)
    requires |p| == |r| && p + q == r + s
    ensures p == r && q == s
  {
    assert p == (p + q)[..|p|] && q == (p + q)[|p|..];
    assert r == (r + s)[..|r|] && s == (r + s)[|r|..];
  }

  lemma {:induction false} BitsInjective(a: seq<byte>, b: seq<byte>)
    requires |a| == |b| && Bits(a) == Bits(b)
    ensures a == b
  {
    if a != [] {
      var n := |a| - 1;
      SameSplit(Bits(a[..n]), ByteBits(a[n]), Bits(b[..n]), ByteBits(b[n]));
      BitsInjective(a[..n], b[..n]);
      ByteBitsInjective(a[n], b[n]);
      assert a == a[..n] + [a[n]] && b == b[..n] + [b[n]];
    }
  }

  /** Payloads of any length that differ only within 16 consecutive bits have different checksums. */
  lemma BurstDetected(a: seq<byte>, b: seq<byte>, at: nat)
    requires |a| == |b| && a != b
    requires forall i :: 0 <= i < 8 * |a| && Bits(a)[i] != Bits(b)[i] ==> at <= i < at + 16
    ensures Crc(a) != Crc(b)
  {
    if Bits(a) == Bits(b) {
      BitsInjective(a, b);
    }
    var hit :| 0 <= hit < 8 * |a| && Bits(a)[hit] != Bits(b)[hit];
    BurstLeavesTrace(Xor(Bits(a), Bits(b)), at, hit);
    SameCrcIff(a, b);
  }

  // Odd numbers of wrong bits

  function Ones(bits: seq<bool>): nat
  {
    if bits == [] then 0 else Ones(bits[..|bits| - 1]) + (if bits[|bits| - 1] then 1 else 0)
  }

  lemma {:induction false} OnesXor(a: seq<bool>, b: seq<bool>)
    requires |a| == |b|
    ensures Ones(Xor(a, b)) % 2 == (Ones(a) + Ones(b)) % 2
  {
    if a != [] {
      var n := |a| - 1;
      assert Xor(a, b)[..n] == Xor(a[..n], b[..n]);
      OnesXor(a[..n], b[..n]);
      OneMoreBit(Ones(Xor(a[..n], b[..n])), Ones(a[..n]), Ones(b[..n]), a[n], b[n]);
    }
  }

  lemma OneMoreBit(s: nat, t: nat, u: nat, x: bool, y: bool)
    requires s % 2 == (t + u) % 2
    ensures (s + One(x != y)) % 2 == (t + One(x) + (u + One(y))) % 2
  {
  }

  lemma {:induction false} OnesConcat(a: seq<bool>, b: seq<bool>)
    ensures Ones(a + b) == Ones(a) + Ones(b)
  {
    if b == [] {
      assert a + b == a;
    } else {
      var n := |b| - 1;
      assert (a + b)[..|a| + n] == a + b[..n];
      OnesConcat(a, b[..n]);
    }
  }

  lemma {:induction false} OnesQuiet(bits: seq<bool>)
    requires forall i :: 0 <= i < |bits| ==> !bits[i]
    ensures Ones(bits) == 0
  {
    if bits != [] {
      OnesQuiet(bits[..|bits| - 1]);
    }
  }

  lemma OnesMark(b: bool)
    ensures Ones(Mark(b)) == Ones([b]) == if b then 1 else 0
  {
    OnesConcat([b], ZeroBits(15));
    OnesQuiet(ZeroBits(15));
    assert [b][..0] == [] && Ones([]) == 0;
  }

  /** 0x1021 has three one bits, and with the bit shifted out that makes four. */
  lemma ShiftBitKeepsParity(c: Word)
    ensures Ones(ShiftBit(c)) % 2 == Ones(c) % 2
  {
    var up: Word := c[1..] + [false];
    assert c == [c[0]] + c[1..];
    OnesConcat([c[0]], c[1..]);
    OnesConcat(c[1..], [false]);
    OnesMark(c[0]);
    OnesMark(false);
    if c[0] {
      OnesXor(up, POLY);
      PolyOnes();
    }
  }

  lemma PolyOnes()
    ensures Ones(POLY) == 3
  {
    var a, b, d := ZeroBits(3) + [true], ZeroBits(6) + [true], ZeroBits(4) + [true];
    assert POLY == a + (b + d);
    OnesConcat(a, b + d);
    OnesConcat(b, d);
    OnesConcat(ZeroBits(3), [true]);
    OnesConcat(ZeroBits(6), [true]);
    OnesConcat(ZeroBits(4), [true]);
    OnesQuiet(ZeroBits(3));
    OnesQuiet(ZeroBits(6));
    OnesQuiet(ZeroBits(4));
    OnesMark(true);
  }

  lemma {:induction false} SerialParity(bits: seq<bool>)
    ensures Ones(Serial(ZERO, bits)) % 2 == Ones(bits) % 2
  {
    if bits == [] {
      OnesQuiet(ZERO);
    } else {
      var n := |bits| - 1;
      SerialParity(bits[..n]);
      var c: Word := Serial(ZERO, bits[..n]);
      OnesXor(c, Mark(bits[n]));
      OnesMark(bits[n]);
      ShiftBitKeepsParity(Xor(c, Mark(bits[n])));
    }
  }

  lemma OddLeavesTrace(e: seq<bool>)
    requires Ones(e) % 2 == 1
    ensures Serial(ZERO, e) != ZERO
  {
    SerialParity(e);
    OnesQuiet(ZERO);
  }

  /** Payloads of any length that differ in an odd number of bits have different checksums. */
  lemma OddErrorsDetected(a: seq<byte>, b: seq<byte>)
    requires |a| == |b|
    requires Ones(Xor(Bits(a), Bits(b))) % 2 == 1
    ensures Crc(a) != Crc(b)
  {
    OddLeavesTrace(Xor(Bits(a), Bits(b)));
    SameCrcIff(a, b);
  }
}
