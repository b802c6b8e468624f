/**
  CRC-16/CCITT-FALSE as computed by rs422_crc16_ccitt_false.

  The uint16_t register is written as its sixteen bits, most significant first, so that
  `crc << 1` drops element 0 and `^` is element-wise inequality.
 */
module Crc16 {
  import opened Bytes

  type Reg = r: seq<bool> | |r| == 16 
    witness [false, false, false, false, false, false, false, false,
             false, false, false, false, false, false, false, false]

  /** 0x1021 */
  const POLY: Reg := [false, false, false, true, false, false, false, false,
                      false, false, true, false, false, false, false, true]

  /** 0xFFFF */
  const INIT: Reg := [true, true, true, true, true, true, true, true,
                      true, true, true, true, true, true, true, true]

  function Xor(a: Reg, b: Reg): Reg {
    seq(16, i requires 0 <= i < 16 => a[i] != b[i])
  }

  /** One turn of the inner loop: shift left, and fold the polynomial in if the top bit fell out. */
  function Step(crc: Reg): Reg {
    if crc[0] then Xor(crc[1..] + [false], POLY) else crc[1..] + [false]
  }

  function Steps(crc: Reg, n: nat): Reg
    decreases n
  {
    if n == 0 then crc else Steps(Step(crc), n - 1)
  }

  /** The low `n` bits of a number, most significant first. */
  function BitsOf(v: nat, n: nat): (r: seq<bool>)
    ensures |r| == n
  {
    if n == 0 then [] else BitsOf(v / 2, n - 1) + [v % 2 == 1]
  }

  function Bits(b: byte): (r: seq<bool>)
    ensures |r| == 8
  {
    BitsOf(b, 8)
  }

  function Zeros(n: nat): (r: seq<bool>)
    ensures |r| == n && forall i :: 0 <= i < n ==> !r[i]
  {
    if n == 0 then [] else [false] + Zeros(n - 1)
  }

  /** Up to sixteen bits placed at the top of an otherwise zero register. */
  function Pad(bits: seq<bool>): Reg
    requires |bits| <= 16
  {
    bits + Zeros(16 - |bits|)
  }

  /** `crc ^= data[i] << 8` and the eight shifts that follow. */
  function AbsorbByte(crc: Reg, b: byte): Reg {
    Steps(Xor(crc, Pad(Bits(b))), 8)
  }

  function Absorb(crc: Reg, data: seq<byte>): Reg
    decreases |data|
  {
    if data == [] then crc else Absorb(AbsorbByte(crc, data[0]), data[1..])
  }

  function Crc(data: seq<byte>): Reg {
    Absorb(INIT, data)
  }

  /** The register as the uint16_t that is put on the wire. */
  function Value(r: seq<bool>): nat
    decreases |r|
  {
    if r == [] then 0 else 2 * Value(r[..|r| - 1]) + if r[|r| - 1] then 1 else 0
  }

  /** rs422_crc16_ccitt_false: the loop over the buffer. */
  method ComputeCrc16(data: array<byte>, len: nat) returns (crc: Reg)
    requires len <= data.Length
    ensures crc == Crc(data[..len])
  {
    crc := INIT;
    for i := 0 to len
      invariant crc == Crc(data[..i])
    {
      AbsorbAppend(INIT, data[..i], [data[i]]);
      assert data[..i + 1] == data[..i] + [data[i]];
      crc := ShiftEight(Xor(crc, Pad(Bits(data[i]))));
    }
  }

  /** Its inner loop over the eight bits of a byte. */
  method ShiftEight(start: Reg) returns (crc: Reg)
    ensures crc == Steps(start, 8)
  {
    crc := start;
    for j := 0 to 8
      invariant Steps(crc, 8 - j) == Steps(start, 8)
    {
      if crc[0] {
        crc := Xor(crc[1..] + [false], POLY);
      } else {
        crc := crc[1..] + [false];
      }
    }
  }

  // ---------------------------------------------------------------- composition

  /** The CRC of a concatenation is the CRC of the second part started from that of the first. */
  lemma {:induction false} AbsorbAppend(crc: Reg, a: seq<byte>, b: seq<byte>)
    ensures Absorb(crc, a + b) == Absorb(Absorb(crc, a), b)
    decreases |a|
  {
    if a == [] {
      assert a + b == b;
    } else {
      assert (a + b)[1..] == a[1..] + b;
      AbsorbAppend(AbsorbByte(crc, a[0]), a[1..], b);
    }
  }

  // ---------------------------------------------------------------- linearity

  lemma StepLinear(x: Reg, y: Reg)
    ensures Step(Xor(x, y)) == Xor(Step(x), Step(y))
  {
    assert forall i :: 0 <= i < 16 ==> Step(Xor(x, y))[i] == Xor(Step(x), Step(y))[i];
  }

  lemma {:induction false} StepsLinear(x: Reg, y: Reg, n: nat)
    ensures Steps(Xor(x, y), n) == Xor(Steps(x, n), Steps(y, n))
    decreases n
  {
    if n > 0 {
      StepLinear(x, y);
      StepsLinear(Step(x), Step(y), n - 1);
    }
  }

  /** A step loses nothing: the low bit of the polynomial records what fell out of the top. */
  lemma StepInjective(x: Reg, y: Reg)
    requires Step(x) == Step(y)
    ensures x == y
  {
    assert Step(x)[15] == x[0] && Step(y)[15] == y[0];
    forall i | 1 <= i < 16
      ensures x[i] == y[i]
    {
      assert Step(x)[i - 1] == (x[i] != (x[0] && POLY[i - 1]));
      assert Step(y)[i - 1] == (y[i] != (y[0] && POLY[i - 1]));
    }
  }

  lemma {:induction false} StepsInjective(x: Reg, y: Reg, n: nat)
    requires Steps(x, n) == Steps(y, n)
    ensures x == y
    decreases n
  {
    if n > 0 {
      StepsInjective(Step(x), Step(y), n - 1);
      StepInjective(x, y);
    }
  }

  lemma {:induction false} StepsAdd(x: Reg, m: nat, n: nat)
    ensures Steps(x, m + n) == Steps(Steps(x, m), n)
    decreases m
  {
    if m > 0 {
      StepsAdd(Step(x), m - 1, n);
    }
  }

  // ---------------------------------------------------------------- bit-serial form

  /** The textbook bit-at-a-time CRC, the reference the byte loop is compared with. */
  function Serial(crc: Reg, bits: seq<bool>): Reg
    decreases |bits|
  {
    if bits == [] then crc else Serial(Step(Xor(Pad(bits[..1]), crc)), bits[1..])
  }

  function AllBits(data: seq<byte>): (r: seq<bool>)
    ensures |r| == 8 * |data|
  {
    if data == [] then [] else Bits(data[0]) + AllBits(data[1..])
  }

  /** A register whose top bit is clear only shifts. */
  lemma StepPad(tail: seq<bool>)
    requires |tail| < 16
    ensures Step(Pad([false] + tail)) == Pad(tail)
  {
  }

  /** Feeding at most sixteen bits one at a time is xoring them in at the top and shifting. */
  lemma {:induction false} SerialIsSteps(crc: Reg, bits: seq<bool>)
    requires |bits| <= 16
    ensures Serial(crc, bits) == Steps(Xor(crc, Pad(bits)), |bits|)
    decreases |bits|
  {
    if bits == [] {
      assert Xor(crc, Pad(bits)) == crc;
    } else {
      var head, tail := Pad(bits[..1]), bits[1..];
      var rest := Pad([false] + tail);
      StepPad(tail);
      assert Xor(Xor(head, crc), rest) == Xor(crc, Pad(bits));
      StepLinear(Xor(head, crc), rest);
      SerialIsSteps(Step(Xor(head, crc)), tail);
    }
  }

  lemma {:induction false} SerialAppend(crc: Reg, a: seq<bool>, b: seq<bool>)
    ensures Serial(crc, a + b) == Serial(Serial(crc, a), b)
    decreases |a|
  {
    if a == [] {
      assert a + b == b;
    } else {
      assert (a + b)[..1] == a[..1];
      assert (a + b)[1..] == a[1..] + b;
      SerialAppend(Step(Xor(Pad(a[..1]), crc)), a[1..], b);
    }
  }

  /** The byte loop computes the bit-at-a-time CRC of the message bits. */
  lemma {:induction false} AbsorbIsSerial(crc: Reg, data: seq<byte>)
    ensures Absorb(crc, data) == Serial(crc, AllBits(data))
    decreases |data|
  {
    if data != [] {
      SerialIsSteps(crc, Bits(data[0]));
      AbsorbIsSerial(AbsorbByte(crc, data[0]), data[1..]);
      SerialAppend(crc, Bits(data[0]), AllBits(data[1..]));
    }
  }

  /** Two different registers stay different whatever is absorbed afterwards. */
  lemma {:induction false} SerialInjective(x: Reg, y: Reg, bits: seq<bool>)
    requires Serial(x, bits) == Serial(y, bits)
    ensures x == y
    decreases |bits|
  {
    if bits != [] {
      var b := Pad(bits[..1]);
      SerialInjective(Step(Xor(b, x)), Step(Xor(b, y)), bits[1..]);
      StepInjective(Xor(b, x), Xor(b, y));
      XorCancel(b, x, y);
    }
  }

  lemma XorCancel(b: Reg, x: Reg, y: Reg)
    requires Xor(b, x) == Xor(b, y)
    ensures x == y
  {
    forall i | 0 <= i < 16
      ensures x[i] == y[i]
    {
      assert Xor(b, x)[i] == Xor(b, y)[i];
    }
  }

  // ---------------------------------------------------------------- error detection

  /** Bit strings that agree outside one window of at most sixteen bits and share a CRC are equal. */
  lemma BurstUnique(crc: Reg, pre: seq<bool>, u: seq<bool>, v: seq<bool>, post: seq<bool>)
    requires |u| == |v| <= 16
    requires Serial(crc, pre + u + post) == Serial(crc, pre + v + post)
    ensures u == v
  {
    var mid := Serial(crc, pre);
    SerialSplit3(crc, pre, u, post);
    SerialSplit3(crc, pre, v, post);
    SerialInjective(Serial(mid, u), Serial(mid, v), post);
    SerialIsSteps(mid, u);
    SerialIsSteps(mid, v);
    StepsInjective(Xor(mid, Pad(u)), Xor(mid, Pad(v)), |u|);
    XorCancel(mid, Pad(u), Pad(v));
    assert u == Pad(u)[..|u|] && v == Pad(v)[..|v|];
  }

  lemma SerialSplit3(crc: Reg, a: seq<bool>, b: seq<bool>, c: seq<bool>)
    ensures Serial(crc, a + b + c) == Serial(Serial(Serial(crc, a), b), c)
  {
    SerialAppend(crc, a + b, c);
    SerialAppend(crc, a, b);
  }

  /** 2 to the n. */
  function Pow2(n: nat): nat {
    if n == 0 then 1 else 2 * Pow2(n - 1)
  }

  /** Below 2 to the n, a number is the value of its low n bits. */
  lemma {:induction false} ValueOfBits(v: nat, n: nat)
    requires v < Pow2(n)
    ensures Value(BitsOf(v, n)) == v
    decreases n
  {
    if n > 0 {
      ValueOfBits(v / 2, n - 1);
      assert BitsOf(v, n)[..n - 1] == BitsOf(v / 2, n - 1);
    }
  }

  lemma {:induction false} AllBitsAppend(a: seq<byte>, b: seq<byte>)
    ensures AllBits(a + b) == AllBits(a) + AllBits(b)
  {
    if a == [] {
      assert a + b == b;
    } else {
      assert (a + b)[1..] == a[1..] + b;
      AllBitsAppend(a[1..], b);
    }
  }

  lemma {:induction false} AllBitsInjective(x: seq<byte>, y: seq<byte>)
    requires |x| == |y| && AllBits(x) == AllBits(y)
    ensures x == y
  {
    if x != [] {
      assert Bits(x[0]) == AllBits(x)[..8] == AllBits(y)[..8] == Bits(y[0]);
      assert AllBits(x[1..]) == AllBits(x)[8..] == AllBits(y)[8..] == AllBits(y[1..]);
      assert Pow2(8) == 256;
      ValueOfBits(x[0], 8);
      ValueOfBits(y[0], 8);
      AllBitsInjective(x[1..], y[1..]);
      assert x == [x[0]] + x[1..] && y == [y[0]] + y[1..];
    }
  }

  /**
    Two files of one length whose bits agree before bit `lo` and from bit `lo + 16` on, and
    whose announced CRCs agree, are the same file.
   */
  lemma CrcDetectsBurst(x: seq<byte>, y: seq<byte>, lo: nat)
    requires |x| == |y|
    requires forall i :: 0 <= i < 8 * |x| && !(lo <= i < lo + 16) ==> AllBits(x)[i] == AllBits(y)[i]
    requires Value(Crc(x)) == Value(Crc(y))
    ensures x == y
  {
    ValueInjective(Crc(x), Crc(y));
    AbsorbIsSerial(INIT, x);
    AbsorbIsSerial(INIT, y);
    WindowUnique(AllBits(x), AllBits(y), lo);
    AllBitsInjective(x, y);
  }

  lemma WindowUnique(a: seq<bool>, b: seq<bool>, lo: nat)
    requires |a| == |b|
    requires forall i :: 0 <= i < |a| && !(lo <= i < lo + 16) ==> a[i] == b[i]
    requires Serial(INIT, a) == Serial(INIT, b)
    ensures a == b
  {
    var from := if lo < |a| then lo else |a|;
    var to := if lo + 16 < |a| then lo + 16 else |a|;
    assert a[..from] == b[..from];
    assert a[to..] == b[to..];
    CutInThree(a, from, to);
    CutInThree(b, from, to);
    BurstUnique(INIT, a[..from], a[from..to], b[from..to], a[to..]);
  }

  lemma CutInThree(s: seq<bool>, from: nat, to: nat)
    requires from <= to <= |s|
    ensures s == s[..from] + s[from..to] + s[to..]
  {
    assert s[from..] == s[from..to] + s[to..];
  }

  /** Messages that differ only within two adjacent bytes have different CRCs. */
  lemma CrcDetectsTwoBytes(pre: seq<byte>, u: seq<byte>, v: seq<byte>, post: seq<byte>)
    requires |u| == |v| == 2
    requires Value(Crc(pre + u + post)) == Value(Crc(pre + v + post))
    ensures u == v
  {
    ValueInjective(Crc(pre + u + post), Crc(pre + v + post));
    AbsorbIsSerial(INIT, pre + u + post);
    AbsorbIsSerial(INIT, pre + v + post);
    AllBitsSplit3(pre, u, post);
    AllBitsSplit3(pre, v, post);
    BurstUnique(INIT, AllBits(pre), AllBits(u), AllBits(v), AllBits(post));
    AllBitsInjective(u, v);
  }

  lemma AllBitsSplit3(a: seq<byte>, b: seq<byte>, c: seq<byte>)
    ensures AllBits(a + b + c) == AllBits(a) + AllBits(b) + AllBits(c)
  {
    AllBitsAppend(a + b, c);
    AllBitsAppend(a, b);
  }

  /** The register is recovered from the uint16_t it stands for, so distinct CRCs are distinct numbers. */
  lemma {:induction false} ValueInjective(a: seq<bool>, b: seq<bool>)
    requires |a| == |b| && Value(a) == Value(b)
    ensures a == b
    decreases |a|
  {
    if a != [] {
      var n := |a| - 1;
      ValueInjective(a[..n], b[..n]);
      assert a == a[..n] + [a[n]] && b == b[..n] + [b[n]];
    }
  }

  // ---------------------------------------------------------------- known values

  lemma ValueSnoc(r: seq<bool>, b: bool)
    ensures Value(r + [b]) == 2 * Value(r) + if b then 1 else 0
  {
    assert (r + [b])[..|r|] == r;
  }

  lemma {:induction false} ValueOfParts(a: seq<bool>, b: seq<bool>)
    ensures Value(a + b) == Value(a) * Power2(|b|) + Value(b)
    decreases |b|
  {
    hide Value;
    ValueOfNothing();
    if b == [] {
      assert a + b == a;
    } else {
      var n := |b| - 1;
      ValueOfParts(a, b[..n]);
      Assoc(a, b[..n], [b[n]]);
      assert b == b[..n] + [b[n]];
      ValueSnoc(a + b[..n], b[n]);
      ValueSnoc(b[..n], b[n]);
      Doubled(Value(a), Power2(n));
    }
  }

  lemma Doubled(x: nat, p: nat)
    ensures x * (2 * p) == 2 * (x * p)
  {
  }

  function Power2(n: nat): nat {
    if n == 0 then 1 else 2 * Power2(n - 1)
  }

  lemma Nibble(a: bool, b: bool, c: bool, d: bool)
    ensures Value([a, b, c, d])
         == (if a then 8 else 0) + (if b then 4 else 0) + (if c then 2 else 0) + if d then 1 else 0
  {
    hide Value;
    ValueSnoc([a, b, c], d);
    ValueSnoc([a, b], c);
    ValueSnoc([a], b);
    ValueSnoc([], a);
    assert [] + [a] == [a] && [a] + [b] == [a, b] && [a, b] + [c] == [a, b, c] && [a, b, c] + [d] == [a, b, c, d];
    assert Value([]) == 0 by { ValueOfNothing(); }
  }

  lemma ValueOfNothing()
    ensures Value([]) == 0
  {
  }

  /** The value of a register, four bits at a time. */
  lemma ValueOfReg(r: Reg)
    ensures Value(r) == Value(r[..4]) * 0x1000 + Value(r[4..8]) * 0x100 + Value(r[8..12]) * 0x10 + Value(r[12..])
  {
    hide Value;
    ValueOfParts(r[..12], r[12..]);
    ValueOfParts(r[..8], r[8..12]);
    ValueOfParts(r[..4], r[4..8]);
    assert r == r[..12] + r[12..] && r[..12] == r[..8] + r[8..12] && r[..8] == r[..4] + r[4..8];
    assert Power2(4) == 16;
  }

  /** The parameters of CRC-16/CCITT-FALSE, as numbers. */
  lemma KnownParameters()
    ensures Value(Crc([])) == 0xFFFF && Value(POLY) == 0x1021
  {
    hide Value;
    ValueOfReg(INIT);
    ValueOfReg(POLY);
    Nibble(true, true, true, true);
    Nibble(false, false, false, true);
    Nibble(false, false, false, false);
    Nibble(false, false, true, false);
    assert INIT[..4] == INIT[4..8] == INIT[8..12] == INIT[12..] == [true, true, true, true];
    assert POLY[..4] == POLY[12..] == [false, false, false, true];
    assert POLY[4..8] == [false, false, false, false] && POLY[8..12] == [false, false, true, false];
  }

  /** From a zero register the byte 01 leaves the polynomial behind. */
  lemma GeneratorByte()
    ensures AbsorbByte(Pad([]), 1) == POLY
  {
    hide Steps;
    BitsOfOne();
    assert Xor(Pad([]), Pad(Bits(1))) == OneHot(7);
    OneShiftsOut(7);
  }

  lemma BitsOfOne()
    ensures Bits(1) == [false, false, false, false, false, false, false, true]
  {
    ZeroBits(7);
    assert BitsOf(1, 8) == BitsOf(0, 7) + [true];
  }

  lemma {:induction false} ZeroBits(n: nat)
    ensures forall i :: 0 <= i < n ==> !BitsOf(0, n)[i]
  {
    if n > 0 {
      ZeroBits(n - 1);
    }
  }

  /** A register with the one bit `k`. */
  function OneHot(k: nat): Reg {
    seq(16, i => i == k)
  }

  lemma {:induction false} OneShiftsOut(k: nat)
    requires k < 16
    ensures Steps(OneHot(k), k + 1) == POLY
  {
    hide Steps;
    OneStep(OneHot(k), k);
    if k == 0 {
      assert Step(OneHot(0)) == POLY;
      NoStep(POLY);
    } else {
      assert Step(OneHot(k)) == OneHot(k - 1);
      OneShiftsOut(k - 1);
    }
  }

  lemma OneStep(r: Reg, n: nat)
    ensures Steps(r, n + 1) == Steps(Step(r), n)
  {
  }

  lemma NoStep(r: Reg)
    ensures Steps(r, 0) == r
  {
  }
}
