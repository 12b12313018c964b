/**
  The table-driven cyclic redundancy checks hndcrc8, hndcrc16 and hndcrc32 (bcmutils.c) are the
  bit-serial division by their reflected polynomials. The division is on 32-bit states; those of
  the narrower checks use the low bits only.
 */
module Crc {
  import opened CrcTables
  import opened Sequences

  const POLY8: bv32 := 0xAB
  const POLY16: bv32 := 0x8408
  const POLY32: bv32 := 0xEDB88320

  // ---------------------------------------------------------------- division bit by bit

  /** One bit of the message into the shift register. */
  function Shift(p: bv32, c: bv32, bit: bool): bv32 {
    (c >> 1) ^ (if (c & 1 == 1) != bit then p else 0)
  }

  /** The remainder after some bits, first bit first. */
  function Divide(p: bv32, c: bv32, bits: seq<bool>): bv32
    decreases |bits|
  {
    if bits == [] then c else Divide(p, Shift(p, c, bits[0]), bits[1..])
  }

  /** The low n bits of a word, lowest first. */
  function Bits(x: bv32, n: nat): seq<bool> {
    if n == 0 then [] else [x & 1 == 1] + Bits(x >> 1, n - 1)
  }

  function ByteBits(x: bv8): seq<bool> {
    Bits(x as bv32, 8)
  }

  /** The bits of some bytes, in the order they are checked. */
  function AllBits(msg: seq<bv8>): seq<bool> {
    if msg == [] then [] else ByteBits(msg[0]) + AllBits(msg[1..])
  }

  lemma {:induction false} DivideConcat(p: bv32, c: bv32, a: seq<bool>, b: seq<bool>)
    ensures Divide(p, c, a + b) == Divide(p, Divide(p, c, a), b)
    decreases |a|
  {
    if a == [] {
      assert a + b == b;
    } else {
      DivideConcat(p, Shift(p, c, a[0]), a[1..], b);
      assert (a + b)[1..] == a[1..] + b;
    }
  }

  lemma {:induction false} AllBitsConcat(a: seq<bv8>, b: seq<bv8>)
    ensures AllBits(a + b) == AllBits(a) + AllBits(b)
    decreases |a|
  {
    if a == [] {
      assert a + b == b;
    } else {
      AllBitsConcat(a[1..], b);
      assert (a + b)[1..] == a[1..] + b && (a + b)[0] == a[0];
      Assoc(ByteBits(a[0]), AllBits(a[1..]), AllBits(b));
    }
  }

  /** Going on from the check of a first block gives the check of both blocks. */
  lemma Blocks(p: bv32, c: bv32, a: seq<bv8>, b: seq<bv8>)
    ensures Divide(p, c, AllBits(a + b)) == Divide(p, Divide(p, c, AllBits(a)), AllBits(b))
  {
    AllBitsConcat(a, b);
    DivideConcat(p, c, AllBits(a), AllBits(b));
  }

  // ---------------------------------------------------------------- eight bits at a time

  /** Eight shifts without input. */
  function Eight(p: bv32, c0: bv32): bv32 {
    var c1 := (c0 >> 1) ^ (if c0 & 1 == 1 then p else 0);
    var c2 := (c1 >> 1) ^ (if c1 & 1 == 1 then p else 0);
    var c3 := (c2 >> 1) ^ (if c2 & 1 == 1 then p else 0);
    var c4 := (c3 >> 1) ^ (if c3 & 1 == 1 then p else 0);
    var c5 := (c4 >> 1) ^ (if c4 & 1 == 1 then p else 0);
    var c6 := (c5 >> 1) ^ (if c5 & 1 == 1 then p else 0);
    var c7 := (c6 >> 1) ^ (if c6 & 1 == 1 then p else 0);
    (c7 >> 1) ^ (if c7 & 1 == 1 then p else 0)
  }

  /** Only the low byte meets the polynomial within eight shifts; the rest is shifted down. */
  lemma EightSplits(p: bv32, c: bv32)
    ensures Eight(p, c) == (c >> 8) ^ Eight(p, c & 0xFF)
  {
  }

  /** n shifts without input. */
  function Zeros(p: bv32, c: bv32, n: nat): bv32
    decreases n
  {
    if n == 0 then c else Zeros(p, (c >> 1) ^ (if c & 1 == 1 then p else 0), n - 1)
  }

  function Drop(x: bv32, n: nat): bv32
    decreases n
  {
    if n == 0 then x else Drop(x >> 1, n - 1)
  }

  function Zero(p: bv32, c: bv32): bv32 {
    (c >> 1) ^ (if c & 1 == 1 then p else 0)
  }

  /** A bit fed in now is a bit in the state beforehand. */
  lemma FeedOne(p: bv32, c: bv32, x: bv32, z: bv32)
    requires z == c ^ x
    ensures Shift(p, c, x & 1 == 1) ^ (x >> 1) == Zero(p, z)
  {
  }

  lemma {:induction false} FeedBits(p: bv32, c: bv32, x: bv32, n: nat, z: bv32)
    requires z == c ^ x && Drop(x, n) == 0
    ensures Divide(p, c, Bits(x, n)) == Zeros(p, z, n)
    decreases n
  {
    if n > 0 {
      FeedOne(p, c, x, z);
      FeedBits(p, Shift(p, c, x & 1 == 1), x >> 1, n - 1, Zero(p, z));
      BitsFirst(p, c, x, n);
      ZerosFirst(p, z, n);
    }
  }

  lemma ZerosFirst(p: bv32, c: bv32, n: nat)
    requires n > 0
    ensures Zeros(p, c, n) == Zeros(p, Zero(p, c), n - 1)
  {
  }

  lemma BitsFirst(p: bv32, c: bv32, x: bv32, n: nat)
    requires n > 0
    ensures Divide(p, c, Bits(x, n)) == Divide(p, Shift(p, c, x & 1 == 1), Bits(x >> 1, n - 1))
  {
    assert Bits(x, n)[1..] == Bits(x >> 1, n - 1);
  }

  lemma DropByte(x: bv32)
    requires x < 0x100
    ensures Drop(x, 8) == 0
  {
    var x1, x2, x3, x4, x5, x6, x7 := x >> 1, x >> 2, x >> 3, x >> 4, x >> 5, x >> 6, x >> 7;
    Shifts(x);
    assert Drop(x7, 1) == Drop(x7 >> 1, 0) == 0;
    assert Drop(x6, 2) == Drop(x7, 1);
    assert Drop(x5, 3) == Drop(x6, 2);
    assert Drop(x4, 4) == Drop(x5, 3);
    assert Drop(x3, 5) == Drop(x4, 4);
    assert Drop(x2, 6) == Drop(x3, 5);
    assert Drop(x1, 7) == Drop(x2, 6);
  }

  lemma Shifts(x: bv32)
    ensures (x >> 1) >> 1 == x >> 2 && (x >> 2) >> 1 == x >> 3 && (x >> 3) >> 1 == x >> 4 && (x >> 4) >> 1 == x >> 5
    ensures (x >> 5) >> 1 == x >> 6 && (x >> 6) >> 1 == x >> 7
    ensures x < 0x100 ==> (x >> 7) >> 1 == 0
  {
  }

  lemma ZerosTwo(p: bv32, c: bv32, n: nat)
    requires n >= 2
    ensures Zeros(p, c, n) == Zeros(p, (var c1 := (c >> 1) ^ (if c & 1 == 1 then p else 0);
                                       (c1 >> 1) ^ (if c1 & 1 == 1 then p else 0)), n - 2)
  {
  }

  lemma ZerosFour(p: bv32, c: bv32, n: nat)
    requires n >= 4
    ensures Zeros(p, c, n) == Zeros(p, (var c1 := (c >> 1) ^ (if c & 1 == 1 then p else 0);
                                       var c2 := (c1 >> 1) ^ (if c1 & 1 == 1 then p else 0);
                                       var c3 := (c2 >> 1) ^ (if c2 & 1 == 1 then p else 0);
                                       (c3 >> 1) ^ (if c3 & 1 == 1 then p else 0)), n - 4)
  {
    ZerosTwo(p, c, n);
    ZerosTwo(p, (var c1 := (c >> 1) ^ (if c & 1 == 1 then p else 0);
                 (c1 >> 1) ^ (if c1 & 1 == 1 then p else 0)), n - 2);
  }

  lemma ZerosEight(p: bv32, c: bv32)
    ensures Zeros(p, c, 8) == Eight(p, c)
  {
    ZerosFour(p, c, 8);
    ZerosFour(p, (var c1 := (c >> 1) ^ (if c & 1 == 1 then p else 0);
                  var c2 := (c1 >> 1) ^ (if c1 & 1 == 1 then p else 0);
                  var c3 := (c2 >> 1) ^ (if c2 & 1 == 1 then p else 0);
                  (c3 >> 1) ^ (if c3 & 1 == 1 then p else 0)), 4);
  }

  lemma ZerosSplit(p: bv32, c: bv32)
    ensures Zeros(p, c, 8) == (c >> 8) ^ Zeros(p, c & 0xFF, 8)
  {
    ZerosEight(p, c);
    ZerosEight(p, c & 0xFF);
    EightSplits(p, c);
  }

  lemma ZerosLow(p: bv32, z: bv32, r: bv32, s: bv32, e: bv32, d: bv32)
    requires r == z & 0xFF && s == z >> 8 && e == Zeros(p, r, 8) && d == s ^ e
    ensures Zeros(p, z, 8) == d
  {
    ZerosSplit(p, z);
  }

  /**
    Dividing by eight more bits is one step of `CRC_INNER_LOOP`: r is the table index, e what eight
    shifts make of it, s the state shifted down and d the new state.
   */
  lemma DivideByte(p: bv32, c: bv32, x: bv32, r: bv32, s: bv32, e: bv32, d: bv32)
    requires x < 0x100 && r == (c ^ x) & 0xFF && s == c >> 8 && e == Zeros(p, r, 8) && d == s ^ e
    ensures Divide(p, c, Bits(x, 8)) == d
  {
    DropByte(x);
    FeedBits(p, c, x, 8, c ^ x);
    InputLow(c, x, c ^ x);
    ZerosLow(p, c ^ x, r, s, e, d);
  }

  lemma InputLow(c: bv32, x: bv32, z: bv32)
    requires x < 0x100 && z == c ^ x
    ensures z >> 8 == c >> 8
  {
  }

  // ---------------------------------------------------------------- the tables

  /** Every table entry is what eight shifts make of its index. */
  lemma Table8IsEight(i: bv8)
    ensures Table8(i) as bv32 == Eight(POLY8, i as bv32)
  {
  }

  lemma Table16IsEight(i: bv8)
    ensures Table16(i) as bv32 == Eight(POLY16, i as bv32)
  {
  }

  lemma Table32IsEight(i: bv8)
    ensures Table32(i) == Eight(POLY32, i as bv32)
  {
  }

  // ---------------------------------------------------------------- the code

  lemma LowByte(z: bv32)
    ensures ((z & 0xFF) as bv8) as bv32 == z & 0xFF
  {
  }

  lemma Byte(x: bv8)
    ensures (x as bv32) < 0x100
  {
  }

  /** `CRC_INNER_LOOP(32, c, x)`. */
  method Inner32(c: bv32, x: bv8) returns (c': bv32)
    ensures c' == Divide(POLY32, c, ByteBits(x))
  {
    var i := ((c ^ (x as bv32)) & 0xFF) as bv8;
    var e := Lookup32(i);
    c' := (c >> 8) ^ e;
    Byte(x);
    LowByte(c ^ (x as bv32));
    DivideByte(POLY32, c, x as bv32, i as bv32, c >> 8, e, c');
  }

  method Lookup32(i: bv8) returns (e: bv32)
    ensures e == Zeros(POLY32, i as bv32, 8)
  {
    Table32IsEight(i);
    ZerosEight(POLY32, i as bv32);
    e := Table32(i);
  }

  /** `hndcrc32`: from any state, the division of the bits of the bytes. */
  method Hndcrc32(pdata: seq<bv8>, start: bv32) returns (crc: bv32)
    ensures crc == Divide(POLY32, start, AllBits(pdata))
  {
    crc := start;
    for i := 0 to |pdata|
      invariant Divide(POLY32, start, AllBits(pdata)) == Divide(POLY32, crc, AllBits(pdata[i..]))
    {
      Next(POLY32, crc, pdata, i);
      crc := Inner32(crc, pdata[i]);
    }
    assert pdata[|pdata|..] == [];
  }

  lemma Next(p: bv32, c: bv32, msg: seq<bv8>, i: nat)
    requires i < |msg|
    ensures Divide(p, c, AllBits(msg[i..])) == Divide(p, Divide(p, c, ByteBits(msg[i])), AllBits(msg[i + 1..]))
  {
    assert msg[i..][1..] == msg[i + 1..];
    DivideConcat(p, c, ByteBits(msg[i]), AllBits(msg[i + 1..]));
  }

  /** `CRC_INNER_LOOP(16, c, x)`. */
  method Inner16(c: bv16, x: bv8) returns (c': bv16)
    ensures c' as bv32 == Divide(POLY16, c as bv32, ByteBits(x))
  {
    var i := ((c ^ (x as bv16)) & 0xFF) as bv8;
    var e := Lookup16(i);
    c' := (c >> 8) ^ e;
    Byte(x);
    Narrow16(c, x, e);
    DivideByte(POLY16, c as bv32, x as bv32, i as bv32, (c as bv32) >> 8, e as bv32, c' as bv32);
  }

  lemma Narrow16(c: bv16, x: bv8, e: bv16)
    ensures (((c ^ (x as bv16)) & 0xFF) as bv8) as bv32 == ((c as bv32) ^ (x as bv32)) & 0xFF
    ensures ((c >> 8) ^ e) as bv32 == ((c as bv32) >> 8) ^ (e as bv32)
  {
  }

  method Lookup16(i: bv8) returns (e: bv16)
    ensures e as bv32 == Zeros(POLY16, i as bv32, 8)
  {
    Table16IsEight(i);
    ZerosEight(POLY16, i as bv32);
    e := Table16(i);
  }

  method Hndcrc16(pdata: seq<bv8>, start: bv16) returns (crc: bv16)
    ensures crc as bv32 == Divide(POLY16, start as bv32, AllBits(pdata))
  {
    crc := start;
    for i := 0 to |pdata|
      invariant Divide(POLY16, start as bv32, AllBits(pdata)) == Divide(POLY16, crc as bv32, AllBits(pdata[i..]))
    {
      Next(POLY16, crc as bv32, pdata, i);
      crc := Inner16(crc, pdata[i]);
    }
    assert pdata[|pdata|..] == [];
  }

  /** The loop body of `hndcrc8`, where there is nothing to shift down. */
  method Inner8(c: bv8, x: bv8) returns (c': bv8)
    ensures c' as bv32 == Divide(POLY8, c as bv32, ByteBits(x))
  {
    c' := Lookup8(c ^ x);
    Byte(x);
    Narrow8(c, x, c');
    DivideByte(POLY8, c as bv32, x as bv32, (c ^ x) as bv32, (c as bv32) >> 8, c' as bv32, c' as bv32);
  }

  lemma Narrow8(c: bv8, x: bv8, e: bv8)
    ensures (c ^ x) as bv32 == ((c as bv32) ^ (x as bv32)) & 0xFF
    ensures e as bv32 == ((c as bv32) >> 8) ^ (e as bv32)
  {
  }

  method Lookup8(i: bv8) returns (e: bv8)
    ensures e as bv32 == Zeros(POLY8, i as bv32, 8)
  {
    Table8IsEight(i);
    ZerosEight(POLY8, i as bv32);
    e := Table8(i);
  }

  method Hndcrc8(pdata: seq<bv8>, start: bv8) returns (crc: bv8)
    ensures crc as bv32 == Divide(POLY8, start as bv32, AllBits(pdata))
  {
    crc := start;
    for i := 0 to |pdata|
      invariant Divide(POLY8, start as bv32, AllBits(pdata)) == Divide(POLY8, crc as bv32, AllBits(pdata[i..]))
    {
      Next(POLY8, crc as bv32, pdata, i);
      crc := Inner8(crc, pdata[i]);
    }
    assert pdata[|pdata|..] == [];
  }

  // ---------------------------------------------------------------- the good value

  /** The complement of the low byte of a word. */
  function Sealed(c: bv32): (x: bv8)
    ensures x as bv32 == (c & 0xFF) ^ 0xFF
  {
    ((c & 0xFF) ^ 0xFF) as bv8
  }

  /** Where the state is the rest h of a check up to a constant k, its sealed byte leaves the rest of h up to the constant k'. */
  lemma SealStep(p: bv32, h: bv32, k: bv32, s: bv32, r: bv32, e: bv32, k': bv32, s': bv32)
    requires s == h ^ k && r == (k & 0xFF) ^ 0xFF && e == Zeros(p, r, 8)
    requires k' == (k >> 8) ^ e && s' == (h >> 8) ^ k'
    ensures Divide(p, s, ByteBits(Sealed(h))) == s'
  {
    var x := Sealed(h) as bv32;
    Meets(h, k, s, x, r);
    Regroup(h, k, s, e, k', s');
    DivideByte(p, s, x, r, s >> 8, e, s');
  }

  lemma Meets(h: bv32, k: bv32, s: bv32, x: bv32, r: bv32)
    requires s == h ^ k && r == (k & 0xFF) ^ 0xFF && x == (h & 0xFF) ^ 0xFF
    ensures x < 0x100 && r == (s ^ x) & 0xFF
  {
  }

  lemma Regroup(h: bv32, k: bv32, s: bv32, e: bv32, k': bv32, s': bv32)
    requires s == h ^ k && k' == (k >> 8) ^ e && s' == (h >> 8) ^ k'
    ensures s' == (s >> 8) ^ e
  {
  }

  /** The check of two bytes, and of twice two. */
  lemma Two(p: bv32, c: bv32, x0: bv8, x1: bv8, c1: bv32, c2: bv32)
    requires Divide(p, c, ByteBits(x0)) == c1 && Divide(p, c1, ByteBits(x1)) == c2
    ensures Divide(p, c, AllBits([x0, x1])) == c2
  {
    var msg := [x0, x1];
    Next(p, c, msg, 0);
    Next(p, c1, msg, 1);
    assert msg[0..] == msg && msg[2..] == [];
  }

  lemma TwoTwo(p: bv32, c: bv32, x0: bv8, x1: bv8, x2: bv8, x3: bv8, c2: bv32, c4: bv32)
    requires Divide(p, c, AllBits([x0, x1])) == c2 && Divide(p, c2, AllBits([x2, x3])) == c4
    ensures Divide(p, c, AllBits([x0, x1, x2, x3])) == c4
  {
    Blocks(p, c, [x0, x1], [x2, x3]);
    assert [x0, x1] + [x2, x3] == [x0, x1, x2, x3];
  }

  lemma FirstOf8(h: bv32, s: bv32, h': bv32, s': bv32)
    requires s == h ^ 0x0 && h' == h >> 8 && s' == h' ^ 0x9F
    ensures Divide(POLY8, s, ByteBits(Sealed(h))) == s'
  {
    ZerosEight(POLY8, 0xFF);
    SealStep(POLY8, h, 0x0, s, 0xFF, 0x9F, 0x9F, s');
  }

  /** Checking a message and the complement of its check, low byte first, ends in `CRC8_GOOD_VALUE`, whatever the message and the start. */
  lemma Good8(msg: seq<bv8>, start: bv32, c: bv32)
    requires c == Divide(POLY8, start, AllBits(msg))
    requires c < 0x100
    ensures Divide(POLY8, start, AllBits(msg + [Sealed(c)])) == 0x9F
  {
    Blocks(POLY8, start, msg, [Sealed(c)]);
    Seal8(c);
  }

  lemma Seal8(c: bv32)
    requires c < 0x100
    ensures Divide(POLY8, c, AllBits([Sealed(c)])) == 0x9F
  {
    Rests8(c);
    FirstOf8(c, c, 0, 0x9F);
    One(Sealed(c));
  }

  lemma Rests8(c: bv32)
    requires c < 0x100
    ensures c == c ^ 0 && c >> 8 == 0
  {
  }

  lemma One(x: bv8)
    ensures AllBits([x]) == ByteBits(x)
  {
    assert [x][1..] == [];
  }

  lemma FirstOf16(h: bv32, s: bv32, h': bv32, s': bv32)
    requires s == h ^ 0x0 && h' == h >> 8 && s' == h' ^ 0xF78
    ensures Divide(POLY16, s, ByteBits(Sealed(h))) == s'
  {
    ZerosEight(POLY16, 0xFF);
    SealStep(POLY16, h, 0x0, s, 0xFF, 0xF78, 0xF78, s');
  }

  lemma SecondOf16(h: bv32, s: bv32, h': bv32, s': bv32)
    requires s == h ^ 0xF78 && h' == h >> 8 && s' == h' ^ 0xF0B8
    ensures Divide(POLY16, s, ByteBits(Sealed(h))) == s'
  {
    ZerosEight(POLY16, 0x87);
    SealStep(POLY16, h, 0xF78, s, 0x87, 0xF0B7, 0xF0B8, s');
  }

  /** Checking a message and the complement of its check, low byte first, ends in `CRC16_GOOD_VALUE`, whatever the message and the start. */
  lemma Good16(msg: seq<bv8>, start: bv32, c: bv32, h1: bv32)
    requires c == Divide(POLY16, start, AllBits(msg))
    requires h1 == c >> 8
    requires c < 0x10000
    ensures Divide(POLY16, start, AllBits(msg + [Sealed(c), Sealed(h1)])) == 0xF0B8
  {
    Blocks(POLY16, start, msg, [Sealed(c), Sealed(h1)]);
    Seal16(c, h1, h1 ^ 0xF78);
  }

  lemma Seal16(c: bv32, h1: bv32, s1: bv32)
    requires h1 == c >> 8
    requires c < 0x10000
    requires s1 == h1 ^ 0xF78
    ensures Divide(POLY16, c, AllBits([Sealed(c), Sealed(h1)])) == 0xF0B8
  {
    Rests16(c, h1);
    FirstOf16(c, c, h1, s1);
    SecondOf16(h1, s1, 0, 0xF0B8);
    Two(POLY16, c, Sealed(c), Sealed(h1), s1, 0xF0B8);
  }

  lemma Rests16(c: bv32, h1: bv32)
    requires h1 == c >> 8
    requires c < 0x10000
    ensures c == c ^ 0 && h1 >> 8 == 0
  {
  }

  lemma FirstOf32(h: bv32, s: bv32, h': bv32, s': bv32)
    requires s == h ^ 0x0 && h' == h >> 8 && s' == h' ^ 0x2D02EF8D
    ensures Divide(POLY32, s, ByteBits(Sealed(h))) == s'
  {
    ZerosEight(POLY32, 0xFF);
    SealStep(POLY32, h, 0x0, s, 0xFF, 0x2D02EF8D, 0x2D02EF8D, s');
  }

  lemma SecondOf32(h: bv32, s: bv32, h': bv32, s': bv32)
    requires s == h ^ 0x2D02EF8D && h' == h >> 8 && s' == h' ^ 0xBE2612FF
    ensures Divide(POLY32, s, ByteBits(Sealed(h))) == s'
  {
    ZerosEight(POLY32, 0x72);
    SealStep(POLY32, h, 0x2D02EF8D, s, 0x72, 0xBE0B1010, 0xBE2612FF, s');
  }

  lemma ThirdOf32(h: bv32, s: bv32, h': bv32, s': bv32)
    requires s == h ^ 0xBE2612FF && h' == h >> 8 && s' == h' ^ 0xBE2612
    ensures Divide(POLY32, s, ByteBits(Sealed(h))) == s'
  {
    ZerosEight(POLY32, 0x00);
    SealStep(POLY32, h, 0xBE2612FF, s, 0x00, 0x0, 0xBE2612, s');
  }

  lemma FourthOf32(h: bv32, s: bv32, h': bv32, s': bv32)
    requires s == h ^ 0xBE2612 && h' == h >> 8 && s' == h' ^ 0xDEBB20E3
    ensures Divide(POLY32, s, ByteBits(Sealed(h))) == s'
  {
    ZerosEight(POLY32, 0xED);
    SealStep(POLY32, h, 0xBE2612, s, 0xED, 0xDEBB9EC5, 0xDEBB20E3, s');
  }

  /** Checking a message and the complement of its check, low byte first, ends in `CRC32_GOOD_VALUE`, whatever the message and the start. */
  lemma Good32(msg: seq<bv8>, start: bv32, c: bv32, h1: bv32, h2: bv32, h3: bv32)
    requires c == Divide(POLY32, start, AllBits(msg))
    requires h1 == c >> 8
    requires h2 == h1 >> 8
    requires h3 == h2 >> 8
    ensures Divide(POLY32, start, AllBits(msg + [Sealed(c), Sealed(h1), Sealed(h2), Sealed(h3)])) == 0xDEBB20E3
  {
    Blocks(POLY32, start, msg, [Sealed(c), Sealed(h1), Sealed(h2), Sealed(h3)]);
    Seal32(c, h1, h2, h3, h1 ^ 0x2D02EF8D, h2 ^ 0xBE2612FF, h3 ^ 0xBE2612);
  }

  lemma Seal32(c: bv32, h1: bv32, h2: bv32, h3: bv32, s1: bv32, s2: bv32, s3: bv32)
    requires h1 == c >> 8
    requires h2 == h1 >> 8
    requires h3 == h2 >> 8
    requires s1 == h1 ^ 0x2D02EF8D
    requires s2 == h2 ^ 0xBE2612FF
    requires s3 == h3 ^ 0xBE2612
    ensures Divide(POLY32, c, AllBits([Sealed(c), Sealed(h1), Sealed(h2), Sealed(h3)])) == 0xDEBB20E3
  {
    Rests32(c, h1, h2, h3);
    FirstOf32(c, c, h1, s1);
    SecondOf32(h1, s1, h2, s2);
    ThirdOf32(h2, s2, h3, s3);
    FourthOf32(h3, s3, 0, 0xDEBB20E3);
    Two(POLY32, c, Sealed(c), Sealed(h1), s1, s2);
    Two(POLY32, s2, Sealed(h2), Sealed(h3), s3, 0xDEBB20E3);
    TwoTwo(POLY32, c, Sealed(c), Sealed(h1), Sealed(h2), Sealed(h3), s2, 0xDEBB20E3);
  }

  lemma Rests32(c: bv32, h1: bv32, h2: bv32, h3: bv32)
    requires h1 == c >> 8
    requires h2 == h1 >> 8
    requires h3 == h2 >> 8
    ensures c == c ^ 0 && h3 >> 8 == 0
  {
  }
}
