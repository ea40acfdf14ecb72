// Combining CRC-32C values with operators over GF(2) (kfkcsrc/crc32c.c): matrices,
// the operator for a power of two of zero bytes, its byte tables, and the three-way
// parallel computation that uses them.
module Crc32cCombine {
  import opened Crc32c

  // ---------------------------------------------------------------- matrices

  function Pick(vec: bv32, row: bv32): (r: bv32) { if vec & 1 == 1 then row else 0 }

  // Rows i .. 31 of the matrix times the vector, row i at the vector's lowest bit.
  ghost function TimesFrom(mat: seq<bv32>, i: nat, vec: bv32): (r: bv32)
    requires |mat| == 32 && i <= 32
    decreases 32 - i
  {
    if i == 32 then 0 else Xor(Pick(vec, mat[i]), TimesFrom(mat, i + 1, Half(vec)))
  }

  ghost function Times(mat: seq<bv32>, vec: bv32): (r: bv32)
    requires |mat| == 32
  {
    TimesFrom(mat, 0, vec)
  }

  lemma PickLinear(a: bv32, b: bv32, row: bv32)
    ensures Pick(Xor(a, b), row) == Xor(Pick(a, row), Pick(b, row))
  {
    LowBitXor(a, b);
    LowBit(a);
    LowBit(b);
  }

  lemma PickZero(row: bv32)
    ensures Pick(0, row) == 0 && Half(0) == 0
  {
  }

  lemma {:induction false} TimesZero(mat: seq<bv32>, i: nat)
    requires |mat| == 32 && i <= 32
    ensures TimesFrom(mat, i, 0) == 0
    decreases 32 - i
  {
    hide Xor, Pick, Half;
    if i < 32 {
      PickZero(mat[i]);
      TimesZero(mat, i + 1);
      XorZero(0);
    }
  }

  /** Multiplication by a matrix is linear. */
  lemma {:induction false} TimesLinear(mat: seq<bv32>, i: nat, a: bv32, b: bv32)
    requires |mat| == 32 && i <= 32
    ensures TimesFrom(mat, i, Xor(a, b)) == Xor(TimesFrom(mat, i, a), TimesFrom(mat, i, b))
    decreases 32 - i
  {
    hide Xor, Pick, Half;
    if i == 32 {
      XorZero(0);
    } else {
      PickLinear(a, b, mat[i]);
      HalfLinear(a, b);
      TimesLinear(mat, i + 1, Half(a), Half(b));
      XorSwap(Pick(a, mat[i]), TimesFrom(mat, i + 1, Half(a)), Pick(b, mat[i]), TimesFrom(mat, i + 1, Half(b)));
    }
  }

  // `sq` is `mat` multiplied by itself.
  ghost predicate IsSquare(sq: seq<bv32>, mat: seq<bv32>) {
    |sq| == 32 && |mat| == 32 && forall j :: 0 <= j < 32 ==> sq[j] == Times(mat, mat[j])
  }

  lemma TimesPick(mat: seq<bv32>, vec: bv32, row: bv32)
    requires |mat| == 32
    ensures Pick(vec, Times(mat, row)) == Times(mat, Pick(vec, row))
  {
    hide TimesFrom, Xor;
    TimesZero(mat, 0);
  }

  lemma {:induction false} TimesSquare(sq: seq<bv32>, mat: seq<bv32>, i: nat, vec: bv32)
    requires IsSquare(sq, mat) && i <= 32
    ensures TimesFrom(sq, i, vec) == Times(mat, TimesFrom(mat, i, vec))
    decreases 32 - i
  {
    hide Xor, Pick, Half;
    if i == 32 {
      TimesZero(mat, 0);
    } else {
      TimesSquare(sq, mat, i + 1, Half(vec));
      TimesPick(mat, vec, mat[i]);
      TimesLinear(mat, 0, Pick(vec, mat[i]), TimesFrom(mat, i + 1, Half(vec)));
    }
  }

  // ------------------------------------------------------------- zero bits

  // n zero bits.
  ghost function Zeros(c: bv32, n: nat): (r: bv32)
    decreases n
  {
    if n == 0 then c else Zeros(BitStep(c), n - 1)
  }

  lemma {:induction false} ZerosAdd(c: bv32, m: nat, n: nat)
    ensures Zeros(Zeros(c, m), n) == Zeros(c, m + n)
    decreases m
  {
    hide BitStep;
    if m > 0 { ZerosAdd(BitStep(c), m - 1, n); }
  }

  lemma {:induction false} ZerosBytes(c: bv32, k: nat)
    ensures Zeros(c, 8 * k) == ShiftBytes(c, k)
    decreases k
  {
    hide BitStep;
    if k > 0 {
      ZerosEight(c);
      ZerosAdd(c, 8, 8 * (k - 1));
      ZerosBytes(Shift8(c), k - 1);
    }
  }

  lemma ZerosEight(c: bv32)
    ensures Zeros(c, 8) == Shift8(c)
  {
    hide BitStep;
    EightBits(c);
    assert Zeros(c, 4) == FourBits(c);
    ZerosAdd(c, 4, 4);
    assert Zeros(FourBits(c), 4) == FourBits(FourBits(c));
  }

  // The matrix applies n zero bits.
  ghost predicate Represents(mat: seq<bv32>, n: nat) {
    |mat| == 32 && forall v :: Times(mat, v) == Zeros(v, n)
  }

  /** Squaring the operator doubles the number of zero bits. */
  lemma SquareDoubles(sq: seq<bv32>, mat: seq<bv32>, n: nat)
    requires IsSquare(sq, mat) && Represents(mat, n)
    ensures Represents(sq, 2 * n)
  {
    hide TimesFrom;
    forall v
      ensures Times(sq, v) == Zeros(v, 2 * n)
    {
      TimesSquare(sq, mat, 0, v);
      ZerosAdd(v, n, n);
    }
  }

  // ------------------------------------------------- the operator for one bit

  function Double(x: bv32): (r: bv32) { x << 1 }

  ghost predicate IsOneBit(mat: seq<bv32>) {
    && |mat| == 32 && mat[0] == POLY && mat[1] == 1
    && forall j :: 1 <= j < 31 ==> mat[j + 1] == Double(mat[j])
  }

  // The vector has at most n significant bits.
  ghost predicate Fits(vec: bv32, n: nat)
    decreases n
  {
    if n == 0 then vec == 0 else Fits(Half(vec), n - 1)
  }

  lemma DoubleLinear(a: bv32, b: bv32)
    ensures Double(Xor(a, b)) == Xor(Double(a), Double(b))
  {
  }

  lemma DoublePick(vec: bv32, row: bv32)
    ensures Pick(vec, Double(row)) == Double(Pick(vec, row)) && Double(0) == 0
  {
  }

  // Rows i+1 on are rows i on, doubled.
  lemma {:induction false} RowsDouble(mat: seq<bv32>, i: nat, n: nat, vec: bv32)
    requires IsOneBit(mat) && 1 <= i && i + n <= 31 && Fits(vec, n)
    ensures TimesFrom(mat, i + 1, vec) == Double(TimesFrom(mat, i, vec))
    decreases n
  {
    hide Xor, Pick, Half, Double;
    if n == 0 {
      TimesZero(mat, i);
      TimesZero(mat, i + 1);
      DoublePick(0, 0);
    } else {
      RowsDouble(mat, i + 1, n - 1, Half(vec));
      DoublePick(vec, mat[i]);
      DoubleLinear(Pick(vec, mat[i]), TimesFrom(mat, i + 1, Half(vec)));
    }
  }

  lemma HalfAndLow(vec: bv32)
    ensures Xor(Pick(vec, 1), Double(Half(vec))) == vec
  {
    hide *;
    LowBit(vec);
    if vec & 1 == 1 {
      OddParts(vec);
    } else {
      EvenParts(vec);
    }
  }

  lemma OddParts(vec: bv32)
    requires vec & 1 == 1
    ensures Pick(vec, 1) == 1 && Xor(1, Double(Half(vec))) == vec
  {
  }

  lemma EvenParts(vec: bv32)
    requires vec & 1 == 0
    ensures Pick(vec, 1) == 0 && Xor(0, Double(Half(vec))) == vec
  {
  }

  // Rows 1 on leave a vector of up to 31 bits as it is.
  lemma {:induction false} RowsIdentity(mat: seq<bv32>, n: nat, vec: bv32)
    requires IsOneBit(mat) && n <= 31 && Fits(vec, n)
    ensures TimesFrom(mat, 1, vec) == vec
    decreases n
  {
    hide Xor, Pick, Half, Double;
    if n == 0 {
      TimesZero(mat, 1);
    } else {
      RowsIdentity(mat, n - 1, Half(vec));
      RowsDouble(mat, 1, n - 1, Half(vec));
      HalfAndLow(vec);
    }
  }

  function DropByte(v: bv32): (r: bv32) { v >> 8 }

  lemma FitsAll(vec: bv32)
    ensures Fits(vec, 32)
  {
    hide *;
    var v8 := DropByte(vec);
    var v16 := DropByte(v8);
    var v24 := DropByte(v16);
    FourBytes(vec);
    FitsNone();
    FitsEight(v24, 0);
    FitsEight(v16, 8);
    FitsEight(v8, 16);
    FitsEight(vec, 24);
  }

  lemma FourBytes(v: bv32)
    ensures DropByte(DropByte(DropByte(DropByte(v)))) == 0
  {
  }

  lemma FitsNone()
    ensures Fits(0, 0)
  {
  }

  lemma HalfEight(v: bv32)
    ensures Half(Half(Half(Half(Half(Half(Half(Half(v)))))))) == DropByte(v)
  {
  }

  lemma FitsTwo(v: bv32, n: nat)
    requires Fits(Half(Half(v)), n)
    ensures Fits(v, n + 2)
  {
    hide Half;
    assert Fits(Half(v), n + 1);
  }

  lemma FitsEight(v: bv32, n: nat)
    requires Fits(DropByte(v), n)
    ensures Fits(v, n + 8)
  {
    hide *;
    HalfEight(v);
    FitsTwo(Half(Half(Half(Half(Half(Half(v)))))), n);
    FitsTwo(Half(Half(Half(Half(v)))), n + 2);
    FitsTwo(Half(Half(v)), n + 4);
    FitsTwo(v, n + 6);
  }

  lemma OneBitOperator(mat: seq<bv32>)
    requires IsOneBit(mat)
    ensures Represents(mat, 1)
  {
    hide Xor, Pick, Half, Double, BitStep;
    forall v
      ensures Times(mat, v) == Zeros(v, 1)
    {
      FitsAll(v);
      RowsIdentity(mat, 31, Half(v));
      PickIsFeedback(v);
      BitStepParts(v);
      XorComm(Half(v), Feedback(v));
      assert Zeros(BitStep(v), 0) == BitStep(v);
    }
  }

  lemma PickIsFeedback(v: bv32)
    ensures Pick(v, POLY) == Feedback(v)
  {
  }

  // ------------------------------------------------------------- the methods

  lemma VectorRunsOut(v: bv32, i: nat, vec: bv32)
    requires i <= 32 && Fits(vec, 32 - i) && vec != 0
    ensures i < 32
  {
  }

  /** gf2_matrix_times */
  method MatrixTimes(mat: array<bv32>, vec: bv32) returns (sum: bv32)
    requires mat.Length == 32
    ensures sum == Times(mat[..], vec)
  {
    hide Xor, Pick, Half, TimesFrom;
    sum := 0;
    var v, i := vec, 0;
    FitsAll(vec);
    XorZero(Times(mat[..], vec));
    while v != 0
      invariant 0 <= i <= 32 && Fits(v, 32 - i)
      invariant Xor(sum, TimesFrom(mat[..], i, v)) == Times(mat[..], vec)
      decreases 32 - i
    {
      VectorRunsOut(vec, i, v);
      TimesUnfold(mat[..], i, v);
      XorAssoc(sum, Pick(v, mat[i]), TimesFrom(mat[..], i + 1, Half(v)));
      sum := Xor(sum, Pick(v, mat[i]));
      v := Half(v);
      i := i + 1;
    }
    TimesZero(mat[..], i);
    XorZero(sum);
  }

  lemma TimesUnfold(mat: seq<bv32>, i: nat, vec: bv32)
    requires |mat| == 32 && i < 32
    ensures TimesFrom(mat, i, vec) == Xor(Pick(vec, mat[i]), TimesFrom(mat, i + 1, Half(vec)))
  {
  }

  /** gf2_matrix_square */
  method MatrixSquare(square: array<bv32>, mat: array<bv32>, ghost n: nat)
    requires square.Length == 32 && mat.Length == 32 && square != mat && Represents(mat[..], n)
    modifies square
    ensures Represents(square[..], 2 * n)
  {
    hide Represents, TimesFrom;
    for k := 0 to 32
      invariant forall j :: 0 <= j < k ==> square[j] == Times(mat[..], mat[j])
    {
      square[k] := MatrixTimes(mat, mat[k]);
    }
    SquareDoubles(square[..], mat[..], n);
  }

  // The greatest power of two up to len, and 1 for 0.
  ghost function Floor2(len: nat): (p: nat) {
    if len < 2 then 1 else 2 * Floor2(len / 2)
  }

  /** crc32c_zeros_op: the operator for the greatest power of two of zero bytes that
      is at most len. */
  method ZerosOp(even: array<bv32>, len: nat)
    requires even.Length == 32
    modifies even
    ensures Represents(even[..], 8 * Floor2(len))
  {
    hide Represents, Xor, Double;
    var odd := OneBitMatrix();
    MatrixSquare(even, odd, 1);
    MatrixSquare(odd, even, 2);
    var n := len;
    ghost var p: nat := 1;
    while true
      invariant odd.Length == 32 && odd != even && fresh(odd)
      invariant Represents(odd[..], 4 * p) && p * Floor2(n) == Floor2(len)
      decreases n
    {
      MatrixSquare(even, odd, 4 * p);
      FloorHalf(p, n);
      n := n / 2;
      if n == 0 { return; }
      MatrixSquare(odd, even, 8 * p);
      FloorHalf(2 * p, n);
      n := n / 2;
      p := 4 * p;
      if n == 0 { break; }
    }
    ghost var answer := odd[..];
    for k := 0 to 32
      invariant odd[..] == answer
      invariant forall j :: 0 <= j < k ==> even[j] == odd[j]
    {
      even[k] := odd[k];
    }
    assert even[..] == odd[..];
  }

  lemma FloorHalf(p: nat, n: nat)
    ensures n < 2 ==> p * Floor2(n) == p
    ensures n >= 2 ==> p * Floor2(n) == (2 * p) * Floor2(n / 2)
  {
    if n >= 2 {
      MulTwo(p, Floor2(n / 2));
    }
  }

  lemma MulTwo(p: nat, f: nat)
    ensures p * (2 * f) == (2 * p) * f
  {
  }

  method OneBitMatrix() returns (odd: array<bv32>)
    ensures fresh(odd) && odd.Length == 32 && Represents(odd[..], 1)
  {
    hide Represents, Double;
    odd := new bv32[32];
    odd[0] := POLY;
    var row: bv32 := 1;
    for n := 1 to 32
      invariant odd[0] == POLY
      invariant n == 1 ==> row == 1
      invariant n > 1 ==> odd[1] == 1 && row == Double(odd[n - 1])
      invariant forall j :: 1 <= j < n - 1 ==> odd[j + 1] == Double(odd[j])
    {
      odd[n] := row;
      row := Double(row);
    }
    OneBitOperator(odd[..]);
  }

  // --------------------------------------------------------- the byte tables

  // Byte j of the operand put back in its place.
  function InPlace(n: bv32, j: nat): (r: bv32)
    requires j < 4
  {
    match j
    case 0 => n
    case 1 => n << 8
    case 2 => n << 16
    case 3 => n << 24
  }

  ghost predicate ZerosTableOk(zeros: array2<bv32>, len: nat)
    reads zeros
  {
    && zeros.Length0 == 4 && zeros.Length1 == 256
    && forall j, n :: 0 <= j < 4 && 0 <= n < 256 ==> zeros[j, n] == ShiftBytes(InPlace(n as bv32, j), len)
  }

  lemma OperatorShifts(op: seq<bv32>, len: nat, v: bv32)
    requires Represents(op, 8 * len)
    ensures Times(op, v) == ShiftBytes(v, len)
  {
    hide TimesFrom, Zeros, ShiftBytes;
    ZerosBytes(v, len);
  }

  /** crc32c_zeros: four tables that apply Floor2(len) zero bytes, one per byte. */
  method ZerosTable(zeros: array2<bv32>, len: nat)
    requires zeros.Length0 == 4 && zeros.Length1 == 256
    modifies zeros
    ensures ZerosTableOk(zeros, Floor2(len))
  {
    hide TimesFrom, Represents, InPlace, ShiftBytes, Floor2;
    var op := new bv32[32];
    ZerosOp(op, len);
    ghost var mat := op[..];
    for n := 0 to 256
      invariant op[..] == mat
      invariant forall j, m :: 0 <= j < 4 && 0 <= m < n ==> zeros[j, m] == ShiftBytes(InPlace(m as bv32, j), Floor2(len))
    {
      for j := 0 to 4
        invariant op[..] == mat
        invariant forall i, m :: 0 <= i < 4 && 0 <= m < n ==> zeros[i, m] == ShiftBytes(InPlace(m as bv32, i), Floor2(len))
        invariant forall i :: 0 <= i < j ==> zeros[i, n] == ShiftBytes(InPlace(n as bv32, i), Floor2(len))
      {
        var x := MatrixTimes(op, InPlace(n as bv32, j));
        OperatorShifts(mat, Floor2(len), InPlace(n as bv32, j));
        zeros[j, n] := x;
      }
    }
  }

  lemma ByteInPlace(c: bv32)
    ensures c == Xor(Xor(InPlace(Low(c), 0), InPlace(Byte1(c), 1)), Xor(InPlace(Byte2(c), 2), InPlace(Byte3(c), 3)))
    ensures Byte1(c) == Low(Byte1(c)) && Byte2(c) == Low(Byte2(c)) && Byte3(c) == Low(Byte3(c)) && Low(c) == Low(Low(c))
  {
  }

  /** crc32c_shift: the four table entries of a register give the register after the
      zero bytes. */
  method Shift(zeros: array2<bv32>, crc: bv32, ghost len: nat) returns (r: bv32)
    requires ZerosTableOk(zeros, len)
    ensures r == ShiftBytes(crc, len)
  {
    hide Xor, Low, Byte1, Byte2, Byte3, InPlace, ShiftBytes;
    ByteInPlace(crc);
    LowIndex(Low(crc));
    LowIndex(Byte1(crc));
    LowIndex(Byte2(crc));
    LowIndex(Byte3(crc));
    var z0, z1 := zeros[0, Low(crc) as int], zeros[1, Byte1(crc) as int];
    var z2, z3 := zeros[2, Byte2(crc) as int], zeros[3, Byte3(crc) as int];
    ghost var p0, p1 := InPlace(Low(crc), 0), InPlace(Byte1(crc), 1);
    ghost var p2, p3 := InPlace(Byte2(crc), 2), InPlace(Byte3(crc), 3);
    ShiftBytesLinear(Xor(p0, p1), Xor(p2, p3), len);
    ShiftBytesLinear(p0, p1, len);
    ShiftBytesLinear(p2, p3, len);
    XorAssoc(Xor(z0, z1), z2, z3);
    r := Xor(Xor(Xor(z0, z1), z2), z3);
  }

  // ------------------------------------------------- three blocks in parallel

  /** Three adjacent blocks computed independently, the last two from an empty
      register, combine into the register after all three. */
  lemma ThreeBlocks(c: bv32, a: seq<bv8>, b: seq<bv8>, d: seq<bv8>)
    ensures Raw(c, a + b + d) ==
            Xor(ShiftBytes(Xor(ShiftBytes(Raw(c, a), |b|), Raw(0, b)), |d|), Raw(0, d))
  {
    hide Raw, Xor, ShiftBytes;
    RawConcat(c, a, b);
    RawConcat(c, a + b, d);
  }

  const LONG: nat := 8192
  const SHORT: nat := 256

  // The crc32b/crc32q instruction on one byte or on eight: the register after them.
  method Instruction(crc: bv32, data: seq<bv8>) returns (r: bv32)
    ensures r == Raw(crc, data)
  {
    hide ByteStep;
    r := crc;
    for k := 0 to |data|
      invariant r == Raw(crc, data[..k])
    {
      RawAppend(crc, data[..k], [data[k]]);
      assert data[..k + 1] == data[..k] + [data[k]];
      assert [data[k]][1..] == [];
      r := ByteStep(r, data[k]);
    }
    assert data[..|data|] == data;
  }

  // One round of the parallel loop: 3 * size bytes from `next` on.
  method ThreeWay(zeros: array2<bv32>, size: nat, crc: bv32, buf: seq<bv8>, next: nat) returns (r: bv32)
    requires ZerosTableOk(zeros, size) && size % 8 == 0 && next + 3 * size <= |buf|
    ensures r == Raw(crc, buf[next..next + 3 * size])
  {
    hide Raw, Xor, ShiftBytes, ZerosTableOk;
    var crc0, crc1, crc2 := crc, 0, 0;
    ghost var a, b, d := buf[next..next + size], buf[next + size..next + 2 * size], buf[next + 2 * size..next + 3 * size];
    RawEmpty(crc);
    RawEmpty(0);
    assert a[..0] == [] && b[..0] == [] && d[..0] == [];
    var k := 0;
    while k < size
      invariant 0 <= k <= size && k % 8 == 0
      invariant crc0 == Raw(crc, a[..k]) && crc1 == Raw(0, b[..k]) && crc2 == Raw(0, d[..k])
    {
      var p := next + k;
      WordOf(buf, next, size, k);
      WordOf(buf, next + size, size, k);
      WordOf(buf, next + 2 * size, size, k);
      crc0 := Advance(crc0, buf[p..p + 8], crc, a, k);
      crc1 := Advance(crc1, buf[p + size..p + size + 8], 0, b, k);
      crc2 := Advance(crc2, buf[p + 2 * size..p + 2 * size + 8], 0, d, k);
      k := k + 8;
    }
    assert a[..size] == a && b[..size] == b && d[..size] == d;
    ThreeBlocks(crc, a, b, d);
    assert buf[next..next + 3 * size] == a + b + d;
    var x := Shift(zeros, crc0, size);
    x := Shift(zeros, Xor(x, crc1), size);
    r := Xor(x, crc2);
  }

  lemma WordOf(buf: seq<bv8>, from: nat, size: nat, k: nat)
    requires from + size <= |buf| && k < size && k % 8 == 0 == size % 8
    ensures k + 8 <= size && buf[from..from + size][k..k + 8] == buf[from + k..from + k + 8]
  {
    assert k / 8 < size / 8;
    var a, b := buf[from..from + size][k..k + 8], buf[from + k..from + k + 8];
    forall i | 0 <= i < 8
      ensures a[i] == b[i]
    {
      assert a[i] == buf[from..from + size][k + i] == buf[from + k + i];
    }
  }

  // Eight more bytes of one of the three blocks.
  method Advance(crc: bv32, word: seq<bv8>, ghost start: bv32, ghost block: seq<bv8>, ghost k: nat) returns (r: bv32)
    requires k + 8 <= |block| && word == block[k..k + 8] && crc == Raw(start, block[..k])
    ensures r == Raw(start, block[..k + 8])
  {
    hide Raw;
    r := Instruction(crc, word);
    RawAppend(start, block[..k], word);
    assert block[..k + 8] == block[..k] + word;
  }

  /** crc32c_hw with the instructions taken by their definition: for every start
      address it is the bit-at-a-time checksum. */
  method CrcHw(long: array2<bv32>, short: array2<bv32>, crc: bv32, buf: seq<bv8>, addr: nat) returns (r: bv32)
    requires ZerosTableOk(long, LONG) && ZerosTableOk(short, SHORT)
    ensures r == Crc(crc, buf)
  {
    hide Raw, Xor, ONES, ZerosTableOk;
    ghost var c0 := Xor(crc, ONES);
    var crc0 := Xor(crc, ONES);
    var next: nat := 0;
    RawEmpty(c0);
    assert buf[..0] == [];
    while next < |buf| && (addr + next) % 8 != 0
      invariant next <= |buf| && crc0 == Raw(c0, buf[..next])
    {
      crc0 := Extend(crc0, buf, next, next + 1, c0);
      next := next + 1;
    }
    while |buf| - next >= LONG * 3
      invariant next <= |buf| && crc0 == Raw(c0, buf[..next])
    {
      crc0 := ThreeWay(long, LONG, crc0, buf, next);
      RawAppend(c0, buf[..next], buf[next..next + 3 * LONG]);
      assert buf[..next + 3 * LONG] == buf[..next] + buf[next..next + 3 * LONG];
      next := next + 3 * LONG;
    }
    while |buf| - next >= SHORT * 3
      invariant next <= |buf| && crc0 == Raw(c0, buf[..next])
    {
      crc0 := ThreeWay(short, SHORT, crc0, buf, next);
      RawAppend(c0, buf[..next], buf[next..next + 3 * SHORT]);
      assert buf[..next + 3 * SHORT] == buf[..next] + buf[next..next + 3 * SHORT];
      next := next + 3 * SHORT;
    }
    var end := next + (|buf| - next) / 8 * 8;
    while next < end
      invariant next <= end <= |buf| && (end - next) % 8 == 0 && crc0 == Raw(c0, buf[..next])
    {
      crc0 := Extend(crc0, buf, next, next + 8, c0);
      next := next + 8;
    }
    while next < |buf|
      invariant next <= |buf| && crc0 == Raw(c0, buf[..next])
    {
      crc0 := Extend(crc0, buf, next, next + 1, c0);
      next := next + 1;
    }
    assert buf[..next] == buf;
    r := Xor(crc0, ONES);
  }

  method Extend(crc: bv32, buf: seq<bv8>, from: nat, to: nat, ghost start: bv32) returns (r: bv32)
    requires from <= to <= |buf| && crc == Raw(start, buf[..from])
    ensures r == Raw(start, buf[..to])
  {
    hide Raw;
    r := Instruction(crc, buf[from..to]);
    RawAppend(start, buf[..from], buf[from..to]);
    assert buf[..to] == buf[..from] + buf[from..to];
  }

  // The two table sizes are powers of two, so the tables are exact for them.
  lemma BlockSizesExact()
    ensures Floor2(LONG) == LONG && Floor2(SHORT) == SHORT
  {
    assert Floor2(16) == 16 by { assert Floor2(4) == 4; }
    assert Floor2(256) == 256 by { assert Floor2(64) == 64; }
    assert Floor2(4096) == 4096 by { assert Floor2(1024) == 1024; }
  }

  // ------------------------------------------------- start-up and use

  /** The tables that crc32c_global_init fills, and the checksum that uses them. */
  class Checksum {
    const hardware: bool
    const long: array2<bv32>
    const short: array2<bv32>
    const table: array2<bv32>

    ghost predicate Ready()
      reads this, long, short, table
    {
      if hardware then ZerosTableOk(long, LONG) && ZerosTableOk(short, SHORT) else TableOk(table)
    }

    constructor (hardware: bool)
      ensures Ready() && fresh(long) && fresh(short) && fresh(table)
    {
      hide ZerosTableOk, TableOk, Floor2;
      this.hardware := hardware;
      long := new bv32[4, 256];
      short := new bv32[4, 256];
      table := new bv32[8, 256];
      new;
      if hardware {
        BlockSizesExact();
        ZerosTable(long, LONG);
        ZerosTable(short, SHORT);
      } else {
        InitTable(table);
      }
    }

    /** crc32c: on either kind of processor, from any address, the bit-at-a-time checksum. */
    method Of(crc: bv32, buf: seq<bv8>, addr: nat) returns (r: bv32)
      requires Ready()
      ensures r == Crc(crc, buf)
    {
      if hardware {
        r := CrcHw(long, short, crc, buf, addr);
      } else {
        r := CrcSw(table, crc, buf, addr);
      }
    }
  }

  /** From start-up on: a buffer checked in two pieces, each wherever it lies, gives the checksum
      of the whole. */
  method InPieces(hardware: bool, crc: bv32, a: seq<bv8>, b: seq<bv8>, addrA: nat, addrB: nat) returns (r: bv32)
    ensures r == Crc(crc, a + b)
  {
    var c := new Checksum(hardware);
    r := c.Of(crc, a, addrA);
    r := c.Of(r, b, addrB);
    CrcAppend(crc, a, b);
  }
}
