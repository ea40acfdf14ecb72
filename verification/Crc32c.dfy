// CRC-32C (kfkcsrc/crc32c.c): the bit-at-a-time definition of section 12.1 of
// RFC 3720, and the slicing-by-8 software version proved equal to it.
module Crc32c {

  // The polynomial in reversed bit order.
  const POLY: bv32 := 0x82f63b78
  const ONES: bv32 := 0xffffffff

  // Exclusive or, named so that proofs can treat it as an abstract group operation.
  function Xor(a: bv32, b: bv32): (r: bv32) { a ^ b }

  // --------------------------------------------------------- the definition

  // One zero bit.
  function BitStep(c: bv32): (r: bv32) {
    if c & 1 == 1 then Xor(c >> 1, POLY) else c >> 1
  }

  function TwoBits(c: bv32): (r: bv32) { BitStep(BitStep(c)) }
  function FourBits(c: bv32): (r: bv32) { TwoBits(TwoBits(c)) }

  // One zero byte.
  function Shift8(c: bv32): (r: bv32) { FourBits(FourBits(c)) }

  // k zero bytes.
  ghost function ShiftBytes(c: bv32, k: nat): (r: bv32)
    decreases k
  {
    if k == 0 then c else ShiftBytes(Shift8(c), k - 1)
  }

  function ByteStep(c: bv32, b: bv8): (r: bv32) {
    Shift8(Xor(c, b as bv32))
  }

  // The register after the bytes of `data`.
  ghost function Raw(c: bv32, data: seq<bv8>): (r: bv32)
    decreases |data|
  {
    if data == [] then c else Raw(ByteStep(c, data[0]), data[1..])
  }

  /** The CRC-32C of `data`, continuing from `crc`. */
  ghost function Crc(crc: bv32, data: seq<bv8>): (r: bv32) {
    Xor(Raw(Xor(crc, ONES), data), ONES)
  }

  // ------------------------------------------------------------ composition

  lemma {:induction false} RawAppend(c: bv32, a: seq<bv8>, b: seq<bv8>)
    ensures Raw(Raw(c, a), b) == Raw(c, a + b)
    decreases |a|
  {
    hide ByteStep;
    if a == [] {
      assert a + b == b;
    } else {
      RawAppend(ByteStep(c, a[0]), a[1..], b);
      assert (a + b)[1..] == a[1..] + b;
    }
  }

  /** A checksum can be continued: crc(crc(c, a), b) = crc(c, a + b). */
  lemma CrcAppend(crc: bv32, a: seq<bv8>, b: seq<bv8>)
    ensures Crc(Crc(crc, a), b) == Crc(crc, a + b)
  {
    hide Raw, Xor, ONES;
    XorTwice(Raw(Xor(crc, ONES), a), ONES);
    RawAppend(Xor(crc, ONES), a, b);
  }

  lemma XorTwice(x: bv32, y: bv32)
    ensures Xor(Xor(x, y), y) == x
  {
  }

  lemma XorZero(x: bv32)
    ensures Xor(x, 0) == x && Xor(0, x) == x
  {
  }

  lemma XorAssoc(a: bv32, b: bv32, c: bv32)
    ensures Xor(Xor(a, b), c) == Xor(a, Xor(b, c))
  {
  }

  lemma XorComm(a: bv32, b: bv32)
    ensures Xor(a, b) == Xor(b, a)
  {
  }

  lemma XorSwap(a: bv32, b: bv32, c: bv32, d: bv32)
    ensures Xor(Xor(a, b), Xor(c, d)) == Xor(Xor(a, c), Xor(b, d))
  {
    hide *;
    XorAssoc(a, b, Xor(c, d));
    XorAssoc(b, c, d);
    XorComm(b, c);
    XorAssoc(c, b, d);
    XorAssoc(a, c, Xor(b, d));
  }

  // --------------------------------------------------------------- linearity

  function Half(c: bv32): (r: bv32) { c >> 1 }
  function Feedback(c: bv32): (r: bv32) { if c & 1 == 1 then POLY else 0 }

  lemma LowBit(a: bv32)
    ensures a & 1 == 0 || a & 1 == 1
  {
  }

  lemma LowBitXor(a: bv32, b: bv32)
    ensures Xor(a, b) & 1 == (a & 1) ^ (b & 1)
  {
  }

  lemma HalfLinear(a: bv32, b: bv32)
    ensures Half(Xor(a, b)) == Xor(Half(a), Half(b))
  {
  }

  lemma FeedbackLinear(a: bv32, b: bv32)
    ensures Feedback(Xor(a, b)) == Xor(Feedback(a), Feedback(b))
  {
    LowBitXor(a, b);
    LowBit(a);
    LowBit(b);
  }

  lemma BitStepParts(c: bv32)
    ensures BitStep(c) == Xor(Half(c), Feedback(c))
  {
    LowBit(c);
    if c & 1 == 1 {
    } else {
    }
  }

  /** Over GF(2), shifting in a zero bit is linear. */
  lemma BitStepLinear(a: bv32, b: bv32)
    ensures BitStep(Xor(a, b)) == Xor(BitStep(a), BitStep(b))
  {
    hide *;
    BitStepParts(a);
    BitStepParts(b);
    BitStepParts(Xor(a, b));
    HalfLinear(a, b);
    FeedbackLinear(a, b);
    XorSwap(Half(a), Feedback(a), Half(b), Feedback(b));
  }

  lemma TwoBitsLinear(a: bv32, b: bv32)
    ensures TwoBits(Xor(a, b)) == Xor(TwoBits(a), TwoBits(b))
  {
    hide BitStep, Xor;
    BitStepLinear(a, b);
    BitStepLinear(BitStep(a), BitStep(b));
  }

  lemma FourBitsLinear(a: bv32, b: bv32)
    ensures FourBits(Xor(a, b)) == Xor(FourBits(a), FourBits(b))
  {
    hide TwoBits, Xor;
    TwoBitsLinear(a, b);
    TwoBitsLinear(TwoBits(a), TwoBits(b));
  }

  lemma Shift8Linear(a: bv32, b: bv32)
    ensures Shift8(Xor(a, b)) == Xor(Shift8(a), Shift8(b))
  {
    hide FourBits, Xor;
    FourBitsLinear(a, b);
    FourBitsLinear(FourBits(a), FourBits(b));
  }

  lemma {:induction false} ShiftBytesLinear(a: bv32, b: bv32, k: nat)
    ensures ShiftBytes(Xor(a, b), k) == Xor(ShiftBytes(a, k), ShiftBytes(b, k))
    decreases k
  {
    hide Shift8, Xor;
    if k > 0 {
      Shift8Linear(a, b);
      ShiftBytesLinear(Shift8(a), Shift8(b), k - 1);
    }
  }

  // A register whose low bits are zero is only shifted.
  lemma BitStepEven(c: bv32)
    requires c & 1 == 0
    ensures BitStep(c) == c >> 1
  {
  }

  lemma TwoBitsZero(c: bv32)
    requires c & 3 == 0
    ensures TwoBits(c) == c >> 2
  {
    hide BitStep;
    assert c & 1 == 0 && (c >> 1) & 1 == 0 && (c >> 1) >> 1 == c >> 2;
    BitStepEven(c);
    BitStepEven(c >> 1);
  }

  lemma FourBitsZero(c: bv32)
    requires c & 15 == 0
    ensures FourBits(c) == c >> 4
  {
    hide TwoBits;
    assert c & 3 == 0 && (c >> 2) & 3 == 0 && (c >> 2) >> 2 == c >> 4;
    TwoBitsZero(c);
    TwoBitsZero(c >> 2);
  }

  lemma Shift8Zero(c: bv32)
    requires c & 0xff == 0
    ensures Shift8(c) == c >> 8
  {
    hide FourBits;
    assert c & 15 == 0 && (c >> 4) & 15 == 0 && (c >> 4) >> 4 == c >> 8;
    FourBitsZero(c);
    FourBitsZero(c >> 4);
  }

  function Low(c: bv32): (r: bv32) { c & 0xff }
  function Rest(c: bv32): (r: bv32) { c >> 8 }

  lemma LowAndRest(c: bv32)
    ensures c == Xor(Low(c), c & 0xffffff00) && (c & 0xffffff00) & 0xff == 0 && (c & 0xffffff00) >> 8 == Rest(c)
  {
  }

  // The table step: the low byte goes through the table, the rest moves down.
  lemma Shift8Split(c: bv32)
    ensures Shift8(c) == Xor(Shift8(Low(c)), Rest(c))
  {
    var high := c & 0xffffff00;
    LowAndRest(c);
    Shift8Zero(high);
    Shift8SplitAt(c, Low(c), high, Rest(c));
  }

  lemma Shift8SplitAt(c: bv32, low: bv32, high: bv32, rest: bv32)
    requires c == Xor(low, high) && Shift8(high) == rest
    ensures Shift8(c) == Xor(Shift8(low), rest)
  {
    hide Shift8, Xor;
    Shift8Linear(low, high);
  }

  // Zero bytes after data: only the register's own part is shifted.
  lemma {:induction false} RawShift(x: bv32, y: bv32, data: seq<bv8>)
    ensures Raw(Xor(x, y), data) == Xor(ShiftBytes(x, |data|), Raw(y, data))
    decreases |data|
  {
    hide Shift8, Xor;
    if data != [] {
      var b := data[0] as bv32;
      XorAssoc(x, y, b);
      Shift8Linear(x, Xor(y, b));
      RawShift(Shift8(x), ByteStep(y, data[0]), data[1..]);
    }
  }

  /** The register after two stretches of data is the first one's shifted by the
      length of the second, plus the second one's own. */
  lemma RawConcat(c: bv32, a: seq<bv8>, b: seq<bv8>)
    ensures Raw(c, a + b) == Xor(ShiftBytes(Raw(c, a), |b|), Raw(0, b))
  {
    hide Xor, Raw;
    RawAppend(c, a, b);
    XorZero(Raw(c, a));
    RawShift(Raw(c, a), 0, b);
  }

  lemma {:induction false} ShiftBytesLast(c: bv32, k: nat)
    ensures ShiftBytes(c, k + 1) == Shift8(ShiftBytes(c, k))
    decreases k
  {
    hide Shift8;
    if k > 0 { ShiftBytesLast(Shift8(c), k - 1); }
  }

  // ---------------------------------------------------------------- the table

  ghost predicate TableOk(t: array2<bv32>)
    reads t
  {
    && t.Length0 == 8 && t.Length1 == 256
    && forall k, n :: 0 <= k < 8 && 0 <= n < 256 ==> t[k, n] == ShiftBytes(n as bv32, k + 1)
  }

  lemma LowIndex(c: bv32)
    ensures 0 <= Low(c) as int < 256 && (Low(c) as int) as bv32 == Low(c)
  {
  }

  lemma EightBits(c: bv32)
    ensures BitStep(BitStep(BitStep(BitStep(BitStep(BitStep(BitStep(BitStep(c)))))))) == Shift8(c)
  {
    hide BitStep;
  }

  lemma ShiftOne(c: bv32)
    ensures ShiftBytes(c, 1) == Shift8(c)
  {
    hide Shift8;
    assert ShiftBytes(Shift8(c), 0) == Shift8(c);
  }

  /** crc32c_init_sw: entry n of row k is what k+1 zero bytes make of n. */
  method InitTable(t: array2<bv32>)
    requires t.Length0 == 8 && t.Length1 == 256
    modifies t
    ensures TableOk(t)
  {
    hide BitStep, Shift8, ShiftBytes, Xor, Low, Rest;
    for n := 0 to 256
      invariant forall m :: 0 <= m < n ==> t[0, m] == ShiftBytes(m as bv32, 1)
    {
      var crc := n as bv32;
      crc := BitStep(crc);
      crc := BitStep(crc);
      crc := BitStep(crc);
      crc := BitStep(crc);
      crc := BitStep(crc);
      crc := BitStep(crc);
      crc := BitStep(crc);
      crc := BitStep(crc);
      EightBits(n as bv32);
      ShiftOne(n as bv32);
      t[0, n] := crc;
    }
    for n := 0 to 256
      invariant forall m :: 0 <= m < 256 ==> t[0, m] == ShiftBytes(m as bv32, 1)
      invariant forall k, m :: 0 <= k < 8 && 0 <= m < n ==> t[k, m] == ShiftBytes(m as bv32, k + 1)
    {
      InitColumn(t, n);
    }
  }

  method InitColumn(t: array2<bv32>, n: nat)
    requires t.Length0 == 8 && t.Length1 == 256 && n < 256
    requires forall m :: 0 <= m < 256 ==> t[0, m] == ShiftBytes(m as bv32, 1)
    modifies t
    ensures forall k, m :: 0 <= k < 8 && 0 <= m < 256 && m != n ==> t[k, m] == old(t[k, m])
    ensures forall k :: 0 <= k < 8 ==> t[k, n] == ShiftBytes(n as bv32, k + 1)
  {
    hide BitStep, Shift8, ShiftBytes, Xor, Low, Rest;
    var crc := t[0, n];
    for k := 1 to 8
      invariant crc == ShiftBytes(n as bv32, k)
      invariant forall j, m :: 0 <= j < 8 && 0 <= m < 256 && (m != n || j == 0) ==> t[j, m] == old(t[j, m])
      invariant forall j :: 0 <= j < k ==> t[j, n] == ShiftBytes(n as bv32, j + 1)
    {
      LowIndex(crc);
      ShiftOne(Low(crc));
      Shift8Split(crc);
      ShiftBytesLast(n as bv32, k);
      crc := Xor(t[0, Low(crc) as int], Rest(crc));
      t[k, n] := crc;
    }
  }

  // ------------------------------------------------------------ slicing by 8

  // The accumulator is 64 bits wide; between steps its upper half is zero.
  function Widen(c: bv32): (r: bv64) { c as bv64 }

  function Index64(x: bv64): (r: bv32) { (x & 0xff) as bv32 }

  // The table step on the wide accumulator.
  function WideStep(entry: bv32, crc: bv64): (r: bv64) { (entry as bv64) ^ (crc >> 8) }

  lemma WideByte(c: bv32, b: bv8, entry: bv32)
    ensures Index64(Widen(c) ^ (b as bv64)) == Low(Xor(c, b as bv32))
    ensures WideStep(entry, Widen(c)) == Widen(Xor(entry, Rest(Xor(c, b as bv32))))
  {
  }

  // Little-endian load of eight bytes.
  function Le64(b0: bv8, b1: bv8, b2: bv8, b3: bv8, b4: bv8, b5: bv8, b6: bv8, b7: bv8): (r: bv64) {
    (b0 as bv64) | ((b1 as bv64) << 8) | ((b2 as bv64) << 16) | ((b3 as bv64) << 24) |
    ((b4 as bv64) << 32) | ((b5 as bv64) << 40) | ((b6 as bv64) << 48) | ((b7 as bv64) << 56)
  }

  function Byte1(c: bv32): (r: bv32) { (c >> 8) & 0xff }
  function Byte2(c: bv32): (r: bv32) { (c >> 16) & 0xff }
  function Byte3(c: bv32): (r: bv32) { c >> 24 }

  function Xor64(a: bv64, b: bv64): (r: bv64) { a ^ b }

  // Byte j of a word, the lowest first.
  function ByteOf(w: bv64, j: nat): (r: bv32)
    requires j < 8
  {
    Index64(match j
            case 0 => w
            case 1 => w >> 8
            case 2 => w >> 16
            case 3 => w >> 24
            case 4 => w >> 32
            case 5 => w >> 40
            case 6 => w >> 48
            case 7 => w >> 56)
  }

  lemma WordBytes(c: bv32, b0: bv8, b1: bv8, b2: bv8, b3: bv8, b4: bv8, b5: bv8, b6: bv8, b7: bv8)
    ensures var w := Xor64(Widen(c), Le64(b0, b1, b2, b3, b4, b5, b6, b7));
            && ByteOf(w, 0) == Xor(Low(c), b0 as bv32)
            && ByteOf(w, 1) == Xor(Byte1(c), b1 as bv32)
            && ByteOf(w, 2) == Xor(Byte2(c), b2 as bv32)
            && ByteOf(w, 3) == Xor(Byte3(c), b3 as bv32)
            && ByteOf(w, 4) == b4 as bv32
            && ByteOf(w, 5) == b5 as bv32
            && ByteOf(w, 6) == b6 as bv32
            && ByteOf(w, 7) == b7 as bv32
  {
  }

  lemma ByteOfIsLow(w: bv64, j: nat)
    requires j < 8
    ensures ByteOf(w, j) == Low(ByteOf(w, j))
  {
    hide ByteOf;
    ByteOfIndex(w, j);
    var x :| ByteOf(w, j) == Index64(x);
    IndexIsLow(x);
  }

  lemma ByteOfIndex(w: bv64, j: nat)
    requires j < 8
    ensures exists x :: ByteOf(w, j) == Index64(x)
  {
    hide Index64;
    match j
    case 0 => assert ByteOf(w, j) == Index64(w);
    case 1 => assert ByteOf(w, j) == Index64(w >> 8);
    case 2 => assert ByteOf(w, j) == Index64(w >> 16);
    case 3 => assert ByteOf(w, j) == Index64(w >> 24);
    case 4 => assert ByteOf(w, j) == Index64(w >> 32);
    case 5 => assert ByteOf(w, j) == Index64(w >> 40);
    case 6 => assert ByteOf(w, j) == Index64(w >> 48);
    case 7 => assert ByteOf(w, j) == Index64(w >> 56);
  }

  lemma IndexIsLow(x: bv64)
    ensures Index64(x) == Low(Index64(x))
  {
  }

  // The register by bytes, as the shifts of the three upper ones.
  lemma ByBytes(c: bv32)
    ensures c == Xor(Xor(Low(c), Byte1(c) << 8), Xor(Byte2(c) << 16, Byte3(c) << 24))
  {
  }

  lemma ShiftedUp(x: bv32)
    requires x & 0xffffff00 == 0
    ensures Shift8(x << 8) == x && Shift8(x << 16) == x << 8 && Shift8(x << 24) == x << 16
  {
    hide Shift8;
    assert (x << 8) & 0xff == 0 && (x << 16) & 0xff == 0 && (x << 24) & 0xff == 0;
    Shift8Zero(x << 8);
    Shift8Zero(x << 16);
    Shift8Zero(x << 24);
    assert (x << 8) >> 8 == x && (x << 16) >> 8 == x << 8 && (x << 24) >> 8 == x << 16;
  }

  lemma BytesAreSmall(c: bv32)
    ensures Byte1(c) & 0xffffff00 == 0 && Byte2(c) & 0xffffff00 == 0 && Byte3(c) & 0xffffff00 == 0
  {
  }

  // Eight zero bytes, by the bytes of the register.
  lemma ShiftEight(c: bv32)
    ensures ShiftBytes(c, 8) ==
            Xor(Xor(ShiftBytes(Low(c), 8), ShiftBytes(Byte1(c), 7)), Xor(ShiftBytes(Byte2(c), 6), ShiftBytes(Byte3(c), 5)))
  {
    var u1, u2, u3 := Byte1(c) << 8, Byte2(c) << 16, Byte3(c) << 24;
    ByBytes(c);
    BytesAreSmall(c);
    ShiftedUp(Byte1(c));
    ShiftedUp(Byte2(c));
    ShiftedUp(Byte3(c));
    ShiftEightParts(c, Low(c), u1, u2, u3, Byte1(c), Byte2(c), Byte3(c), Byte2(c) << 8, Byte3(c) << 8, Byte3(c) << 16);
  }

  lemma ShiftEightParts(c: bv32, c0: bv32, u1: bv32, u2: bv32, u3: bv32, c1: bv32, c2: bv32, c3: bv32,
                        v2: bv32, v3: bv32, w3: bv32)
    requires c == Xor(Xor(c0, u1), Xor(u2, u3))
    requires Shift8(u1) == c1 && Shift8(u2) == v2 && Shift8(v2) == c2
    requires Shift8(u3) == w3 && Shift8(w3) == v3 && Shift8(v3) == c3
    ensures ShiftBytes(c, 8) == Xor(Xor(ShiftBytes(c0, 8), ShiftBytes(c1, 7)), Xor(ShiftBytes(c2, 6), ShiftBytes(c3, 5)))
  {
    hide Shift8, Xor, ShiftBytes;
    ShiftBytesLinear(Xor(c0, u1), Xor(u2, u3), 8);
    ShiftBytesLinear(c0, u1, 8);
    ShiftBytesLinear(u2, u3, 8);
    ShiftUnfold(u1, 7);
    ShiftUnfold(u2, 7);
    ShiftUnfold(v2, 6);
    ShiftUnfold(u3, 7);
    ShiftUnfold(w3, 6);
    ShiftUnfold(v3, 5);
  }

  lemma ShiftUnfold(c: bv32, k: nat)
    ensures ShiftBytes(c, k + 1) == ShiftBytes(Shift8(c), k)
  {
  }

  // A byte at the head of data fed to an empty register.
  lemma RawHead(b: bv8, rest: seq<bv8>)
    ensures Raw(0, [b] + rest) == Xor(ShiftBytes(b as bv32, |rest| + 1), Raw(0, rest))
  {
    hide Shift8, Xor;
    var x := b as bv32;
    XorZero(x);
    assert ([b] + rest)[1..] == rest;
    XorZero(Shift8(x));
    RawShift(Shift8(x), 0, rest);
  }

  ghost function Eight(b0: bv8, b1: bv8, b2: bv8, b3: bv8, b4: bv8, b5: bv8, b6: bv8, b7: bv8): (s: seq<bv8>)
    ensures |s| == 8
  {
    [b0] + ([b1] + ([b2] + ([b3] + ([b4] + ([b5] + ([b6] + ([b7] + [])))))))
  }

  lemma RawEight(b0: bv8, b1: bv8, b2: bv8, b3: bv8, b4: bv8, b5: bv8, b6: bv8, b7: bv8)
    ensures Raw(0, Eight(b0, b1, b2, b3, b4, b5, b6, b7)) ==
            Xor(ShiftBytes(b0 as bv32, 8), Xor(ShiftBytes(b1 as bv32, 7), Xor(ShiftBytes(b2 as bv32, 6),
            Xor(ShiftBytes(b3 as bv32, 5), Xor(ShiftBytes(b4 as bv32, 4), Xor(ShiftBytes(b5 as bv32, 3),
            Xor(ShiftBytes(b6 as bv32, 2), ShiftBytes(b7 as bv32, 1))))))))
  {
    hide ShiftBytes, Xor, Raw;
    var r7: seq<bv8> := [b7] + [];
    var r6, r5, r4 := [b6] + r7, [b5] + ([b6] + r7), [b4] + ([b5] + ([b6] + r7));
    var r3, r2, r1 := [b3] + r4, [b2] + ([b3] + r4), [b1] + ([b2] + ([b3] + r4));
    RawHead(b0, r1);
    RawHead(b1, r2);
    RawHead(b2, r3);
    RawHead(b3, r4);
    RawHead(b4, r5);
    RawHead(b5, r6);
    RawHead(b6, r7);
    RawHead(b7, []);
    RawEmpty(0);
    XorZero(ShiftBytes(b7 as bv32, 1));
  }

  // Regrouping twelve terms into eight pairs.
  lemma XorPairs(c0: bv32, c1: bv32, c2: bv32, c3: bv32,
                 b0: bv32, b1: bv32, b2: bv32, b3: bv32, r: bv32)
    ensures Xor(Xor(Xor(c0, c1), Xor(c2, c3)), Xor(b0, Xor(b1, Xor(b2, Xor(b3, r))))) ==
            Xor(Xor(c0, b0), Xor(Xor(c1, b1), Xor(Xor(c2, b2), Xor(Xor(c3, b3), r))))
  {
    hide *;
    XorAssoc(c0, c1, Xor(c2, c3));
    XorAssoc(c0, Xor(c1, Xor(c2, c3)), Xor(b0, Xor(b1, Xor(b2, Xor(b3, r)))));
    XorSwap(c0, Xor(c1, Xor(c2, c3)), b0, Xor(b1, Xor(b2, Xor(b3, r))));
    XorSwap(c1, Xor(c2, c3), b1, Xor(b2, Xor(b3, r)));
    XorSwap(c2, c3, b2, Xor(b3, r));
    XorAssoc(c3, b3, r);
  }

  // The xor of the eight table entries, as the C expression groups them.
  function Xor8(t7: bv32, t6: bv32, t5: bv32, t4: bv32, t3: bv32, t2: bv32, t1: bv32, t0: bv32): (r: bv32) {
    Xor(Xor(Xor(Xor(Xor(Xor(Xor(t7, t6), t5), t4), t3), t2), t1), t0)
  }

  lemma Xor8Right(t7: bv32, t6: bv32, t5: bv32, t4: bv32, t3: bv32, t2: bv32, t1: bv32, t0: bv32)
    ensures Xor8(t7, t6, t5, t4, t3, t2, t1, t0) ==
            Xor(t7, Xor(t6, Xor(t5, Xor(t4, Xor(t3, Xor(t2, Xor(t1, t0)))))))
  {
    hide Xor;
    XorAssoc(Xor(Xor(Xor(Xor(Xor(t7, t6), t5), t4), t3), t2), t1, t0);
    XorAssoc(Xor(Xor(Xor(Xor(t7, t6), t5), t4), t3), t2, Xor(t1, t0));
    XorAssoc(Xor(Xor(Xor(t7, t6), t5), t4), t3, Xor(t2, Xor(t1, t0)));
    XorAssoc(Xor(Xor(t7, t6), t5), t4, Xor(t3, Xor(t2, Xor(t1, t0))));
    XorAssoc(Xor(t7, t6), t5, Xor(t4, Xor(t3, Xor(t2, Xor(t1, t0)))));
    XorAssoc(t7, t6, Xor(t5, Xor(t4, Xor(t3, Xor(t2, Xor(t1, t0))))));
  }

  /** Slicing by 8: eight table entries, one per byte of the word xored into the
      register, give the register after the eight bytes. */
  lemma SlicingByEight(c: bv32, b0: bv8, b1: bv8, b2: bv8, b3: bv8, b4: bv8, b5: bv8, b6: bv8, b7: bv8)
    ensures Raw(c, Eight(b0, b1, b2, b3, b4, b5, b6, b7)) ==
            Xor8(ShiftBytes(Xor(Low(c), b0 as bv32), 8), ShiftBytes(Xor(Byte1(c), b1 as bv32), 7),
                 ShiftBytes(Xor(Byte2(c), b2 as bv32), 6), ShiftBytes(Xor(Byte3(c), b3 as bv32), 5),
                 ShiftBytes(b4 as bv32, 4), ShiftBytes(b5 as bv32, 3), ShiftBytes(b6 as bv32, 2), ShiftBytes(b7 as bv32, 1))
  {
    hide ShiftBytes, Xor, Raw, Xor8, Low, Byte1, Byte2, Byte3, Eight;
    var x0, x1, x2, x3 := b0 as bv32, b1 as bv32, b2 as bv32, b3 as bv32;
    var s4, s5, s6, s7 := ShiftBytes(b4 as bv32, 4), ShiftBytes(b5 as bv32, 3), ShiftBytes(b6 as bv32, 2), ShiftBytes(b7 as bv32, 1);
    XorZero(c);
    RawShift(c, 0, Eight(b0, b1, b2, b3, b4, b5, b6, b7));
    ShiftEight(c);
    RawEight(b0, b1, b2, b3, b4, b5, b6, b7);
    XorPairs(ShiftBytes(Low(c), 8), ShiftBytes(Byte1(c), 7), ShiftBytes(Byte2(c), 6), ShiftBytes(Byte3(c), 5),
             ShiftBytes(x0, 8), ShiftBytes(x1, 7), ShiftBytes(x2, 6), ShiftBytes(x3, 5), Xor(s4, Xor(s5, Xor(s6, s7))));
    ShiftBytesLinear(Low(c), x0, 8);
    ShiftBytesLinear(Byte1(c), x1, 7);
    ShiftBytesLinear(Byte2(c), x2, 6);
    ShiftBytesLinear(Byte3(c), x3, 5);
    Xor8Right(ShiftBytes(Xor(Low(c), x0), 8), ShiftBytes(Xor(Byte1(c), x1), 7), ShiftBytes(Xor(Byte2(c), x2), 6),
              ShiftBytes(Xor(Byte3(c), x3), 5), s4, s5, s6, s7);
  }

  // An entry of the table at a byte index.
  method Entry(t: array2<bv32>, row: nat, x: bv32) returns (e: bv32)
    requires TableOk(t) && row < 8 && x == Low(x)
    ensures e == ShiftBytes(x, row + 1)
  {
    hide ShiftBytes, Low;
    LowIndex(x);
    e := t[row, x as int];
  }

  method StepByte(t: array2<bv32>, crc: bv64, b: bv8, ghost c: bv32) returns (r: bv64)
    requires TableOk(t) && crc == Widen(c)
    ensures r == Widen(Raw(c, [b]))
  {
    hide ShiftBytes, Index64, Low, Widen, WideStep, Xor, Rest, Shift8, TableOk;
    IndexIsLow(crc ^ (b as bv64));
    var e := Entry(t, 0, Index64(crc ^ (b as bv64)));
    WideByte(c, b, e);
    var x := Xor(c, b as bv32);
    ShiftOne(Low(x));
    Shift8Split(x);
    RawOne(c, b);
    r := WideStep(e, crc);
  }

  lemma RawOne(c: bv32, b: bv8)
    ensures Raw(c, [b]) == Shift8(Xor(c, b as bv32))
  {
    hide Shift8, Xor;
    assert [b][1..] == [];
    assert Raw(ByteStep(c, b), []) == ByteStep(c, b);
  }

  method StepWord(t: array2<bv32>, crc: bv64, s: seq<bv8>, ghost c: bv32) returns (r: bv64)
    requires TableOk(t) && crc == Widen(c) && |s| == 8
    ensures r == Widen(Raw(c, s))
  {
    hide *;
    var w := Xor64(crc, Le64(s[0], s[1], s[2], s[3], s[4], s[5], s[6], s[7]));
    WordBytes(c, s[0], s[1], s[2], s[3], s[4], s[5], s[6], s[7]);
    SlicingByEight(c, s[0], s[1], s[2], s[3], s[4], s[5], s[6], s[7]);
    var e7 := EntryOf(t, 7, w, 0);
    var e6 := EntryOf(t, 6, w, 1);
    var e5 := EntryOf(t, 5, w, 2);
    var e4 := EntryOf(t, 4, w, 3);
    var e3 := EntryOf(t, 3, w, 4);
    var e2 := EntryOf(t, 2, w, 5);
    var e1 := EntryOf(t, 1, w, 6);
    var e0 := EntryOf(t, 0, w, 7);
    EightOf(s);
    r := Widen(Xor8(e7, e6, e5, e4, e3, e2, e1, e0));
  }

  lemma EightOf(s: seq<bv8>)
    requires |s| == 8
    ensures s == Eight(s[0], s[1], s[2], s[3], s[4], s[5], s[6], s[7])
  {
  }

  method EntryOf(t: array2<bv32>, row: nat, w: bv64, j: nat) returns (e: bv32)
    requires TableOk(t) && row < 8 && j < 8
    ensures e == ShiftBytes(ByteOf(w, j), row + 1)
  {
    hide *;
    ByteOfIsLow(w, j);
    e := Entry(t, row, ByteOf(w, j));
  }

  /** crc32c_sw: single bytes up to an 8-byte boundary, then words, then the rest.
      For every start address it is the bit-at-a-time checksum. */
  method CrcSw(t: array2<bv32>, crci: bv32, buf: seq<bv8>, addr: nat) returns (r: bv32)
    requires TableOk(t)
    ensures r == Crc(crci, buf)
  {
    hide Raw, Widen, Xor, ONES, TableOk;
    ghost var c0 := Xor(crci, ONES);
    var crc := Widen(Xor(crci, ONES));
    var next := 0;
    RawEmpty(c0);
    assert buf[..0] == [];
    while next < |buf| && (addr + next) % 8 != 0
      invariant 0 <= next <= |buf| && crc == Widen(Raw(c0, buf[..next]))
    {
      crc := StepByte(t, crc, buf[next], Raw(c0, buf[..next]));
      RawAppend(c0, buf[..next], [buf[next]]);
      assert buf[..next + 1] == buf[..next] + [buf[next]];
      next := next + 1;
    }
    while |buf| - next >= 8
      invariant 0 <= next <= |buf| && crc == Widen(Raw(c0, buf[..next]))
    {
      crc := StepWord(t, crc, buf[next..next + 8], Raw(c0, buf[..next]));
      RawAppend(c0, buf[..next], buf[next..next + 8]);
      assert buf[..next + 8] == buf[..next] + buf[next..next + 8];
      next := next + 8;
    }
    while next < |buf|
      invariant 0 <= next <= |buf| && crc == Widen(Raw(c0, buf[..next]))
    {
      crc := StepByte(t, crc, buf[next], Raw(c0, buf[..next]));
      RawAppend(c0, buf[..next], [buf[next]]);
      assert buf[..next + 1] == buf[..next] + [buf[next]];
      next := next + 1;
    }
    assert buf[..next] == buf;
    r := Xor(Narrow(crc), ONES);
    NarrowWiden(Raw(c0, buf));
  }

  function Narrow(x: bv64): (r: bv32) { (x & 0xffffffff) as bv32 }

  lemma NarrowWiden(c: bv32)
    ensures Narrow(Widen(c)) == c
  {
  }

  lemma RawEmpty(c: bv32)
    ensures Raw(c, []) == c
  {
  }
}
