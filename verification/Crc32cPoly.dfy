/**
  * CRC-32C as polynomial division over GF(2).  The register is the remainder of the message by the
  * generator polynomial of section 12.1 of RFC 3720, bits taken lowest first, and the only one of
  * degree below 32; two check values fix the start value and the final complement as well.
  */
module Crc32cPoly {
  import opened Crc32c

  // A polynomial: the exponents whose coefficient is 1.
  type Poly = set<nat>

  // x^32 + x^28 + x^27 + x^26 + x^25 + x^23 + x^22 + x^20 + x^19 + x^18 + x^14 + x^13 + x^11 + x^10
  // + x^9 + x^8 + x^6 + 1, which is 0x11EDC6F41.
  const GENERATOR: Poly := {32, 28, 27, 26, 25, 23, 22, 20, 19, 18, 14, 13, 11, 10, 9, 8, 6, 0}

  ghost function Plus(a: Poly, b: Poly): Poly {
    (a - b) + (b - a)
  }

  // Times x^k.
  ghost function Up(a: Poly, k: nat): (r: Poly)
    ensures forall x: nat :: x in r <==> x >= k && x - k in a
  {
    set e | e in a :: e + k
  }

  // The sum of generator * x^e over the exponents given.
  ghost function Sum(es: seq<nat>): Poly {
    if es == [] then {} else Plus(Sum(es[..|es| - 1]), Up(GENERATOR, es[|es| - 1]))
  }

  // The same remainder: the difference is a multiple of the generator.
  ghost predicate Congruent(a: Poly, b: Poly) {
    exists es: seq<nat> :: Plus(a, b) == Sum(es)
  }

  // ---------------------------------------------------------------- polynomials

  lemma PlusAssoc(a: Poly, b: Poly, c: Poly)
    ensures Plus(Plus(a, b), c) == Plus(a, Plus(b, c))
  {
  }

  lemma PlusComm(a: Poly, b: Poly)
    ensures Plus(a, b) == Plus(b, a)
  {
  }

  lemma PlusSelf(a: Poly)
    ensures Plus(a, a) == {} && Plus(a, {}) == a && Plus({}, a) == a
  {
  }

  lemma UpPlus(a: Poly, b: Poly, k: nat)
    ensures Up(Plus(a, b), k) == Plus(Up(a, k), Up(b, k))
  {
  }

  lemma UpUp(a: Poly, j: nat, k: nat)
    ensures Up(Up(a, j), k) == Up(a, j + k)
  {
  }

  lemma UpZero(a: Poly)
    ensures Up(a, 0) == a && Up({}, 0) == {}
  {
  }

  lemma {:induction false} SumAppend(a: seq<nat>, b: seq<nat>)
    ensures Sum(a + b) == Plus(Sum(a), Sum(b))
    decreases |b|
  {
    hide Plus, Up;
    if b == [] {
      assert a + b == a;
      PlusSelf(Sum(a));
    } else {
      var init, e := b[..|b| - 1], b[|b| - 1];
      assert (a + b)[..|a + b| - 1] == a + init && (a + b)[|a + b| - 1] == e;
      SumAppend(a, init);
      PlusAssoc(Sum(a), Sum(init), Up(GENERATOR, e));
    }
  }

  lemma {:induction false} SumUp(es: seq<nat>, k: nat) returns (r: seq<nat>)
    ensures Sum(r) == Up(Sum(es), k)
    decreases |es|
  {
    hide Plus;
    if es == [] {
      r := [];
    } else {
      var init, e := es[..|es| - 1], es[|es| - 1];
      var s := SumUp(init, k);
      r := s + [e + k];
      assert r[..|r| - 1] == s;
      UpPlus(Sum(init), Up(GENERATOR, e), k);
      UpUp(GENERATOR, e, k);
    }
  }

  lemma SumOne(e: nat)
    ensures Sum([e]) == Up(GENERATOR, e)
  {
    hide Plus, Up;
    assert [e][..0] == [];
    PlusSelf(Up(GENERATOR, e));
  }

  lemma CongruentSelf(a: Poly)
    ensures Congruent(a, a)
  {
    PlusSelf(a);
    assert Plus(a, a) == Sum([]);
  }

  lemma CongruentTrans(a: Poly, b: Poly, c: Poly)
    requires Congruent(a, b) && Congruent(b, c)
    ensures Congruent(a, c)
  {
    hide Plus;
    var x: seq<nat> :| Plus(a, b) == Sum(x);
    var y: seq<nat> :| Plus(b, c) == Sum(y);
    SumAppend(x, y);
    PlusAssoc(a, b, Plus(b, c));
    PlusAssoc(b, b, c);
    PlusSelf(b);
    PlusSelf(c);
    assert Plus(a, c) == Sum(x + y);
  }

  lemma CongruentUp(a: Poly, b: Poly, k: nat)
    requires Congruent(a, b)
    ensures Congruent(Up(a, k), Up(b, k))
  {
    hide Plus, Up;
    var x: seq<nat> :| Plus(a, b) == Sum(x);
    var y := SumUp(x, k);
    UpPlus(a, b, k);
    assert Plus(Up(a, k), Up(b, k)) == Sum(y);
  }

  lemma CongruentPlus(a: Poly, b: Poly, c: Poly)
    requires Congruent(a, b)
    ensures Congruent(Plus(a, c), Plus(b, c))
  {
    hide Sum;
    var x: seq<nat> :| Plus(a, b) == Sum(x);
    assert Plus(Plus(a, c), Plus(b, c)) == Plus(a, b);
  }

  // ---------------------------------------------------------------- a multiple has degree 32 or more

  ghost function Without(es: seq<nat>, n: nat): (r: seq<nat>)
    ensures forall e :: e in r ==> e in es && e != n
  {
    if es == [] then []
    else
      var r := Without(es[..|es| - 1], n);
      if es[|es| - 1] == n then r else r + [es[|es| - 1]]
  }

  ghost predicate Odd(es: seq<nat>, n: nat) {
    es != [] && (if es[|es| - 1] == n then !Odd(es[..|es| - 1], n) else Odd(es[..|es| - 1], n))
  }

  // All terms of one exponent cancel but for one, if their number is odd.
  lemma {:induction false} TakeOut(es: seq<nat>, n: nat)
    ensures Sum(es) == Plus(Sum(Without(es, n)), if Odd(es, n) then Up(GENERATOR, n) else {})
    decreases |es|
  {
    hide Plus, Up;
    if es == [] {
      PlusSelf({});
    } else {
      var init, e := es[..|es| - 1], es[|es| - 1];
      TakeOut(init, n);
      var s, g, one := Sum(Without(init, n)), Up(GENERATOR, n), Up(GENERATOR, e);
      PlusSelf(g);
      PlusSelf(s);
      if e == n {
        PlusAssoc(s, g, g);
      } else {
        var r := Without(init, n) + [e];
        assert r[..|r| - 1] == Without(init, n);
        var d := if Odd(init, n) then g else {};
        PlusAssoc(s, d, one);
        PlusComm(d, one);
        PlusAssoc(s, one, d);
      }
    }
  }

  lemma {:induction false} DegreeBelow(es: seq<nat>, n: nat)
    requires forall e :: e in es ==> e < n
    ensures forall x :: x in Sum(es) ==> x < n + 32
    decreases |es|
  {
    if es != [] {
      var init, e := es[..|es| - 1], es[|es| - 1];
      assert e in es;
      assert forall x :: x in init ==> x in es;
      DegreeBelow(init, n);
    }
  }

  lemma TopTerm(a: Poly, n: nat)
    requires forall x :: x in a ==> x < n + 32
    ensures n + 32 in Plus(a, Up(GENERATOR, n))
  {
    assert n + 32 in Up(GENERATOR, n);
  }

  lemma {:induction false} SmallMultiple(es: seq<nat>, n: nat)
    requires (forall e :: e in es ==> e < n) && forall x :: x in Sum(es) ==> x < 32
    ensures Sum(es) == {}
    decreases n
  {
    hide Plus, Up, Sum;
    if es == [] {
      NoTerms();
    } else {
      assert es[0] in es;
      var fewer := Without(es, n - 1);
      TakeOut(es, n - 1);
      DegreeBelow(fewer, n - 1);
      TopTerm(Sum(fewer), n - 1);
      PlusSelf(Sum(fewer));
      SmallMultiple(fewer, n - 1);
    }
  }

  // ---------------------------------------------------------------- registers

  // Bit i of a register, the lowest first.
  ghost function Coef(c: bv32, i: nat): bool {
    if i == 0 then c & 1 == 1 else Coef(Half(c), i - 1)
  }

  ghost predicate At(c: bv32, e: nat) {
    e < 32 && Coef(c, 31 - e)
  }

  // The register as a polynomial: its lowest bit is the coefficient of x^31.
  ghost function Of(c: bv32): Poly {
    set e: nat | e < 32 && At(c, e)
  }

  function Wide(b: bv8): bv32 { b as bv32 }

  ghost predicate ByteAt(b: bv32, e: nat) {
    e < 8 && Coef(b, 7 - e)
  }

  // A byte as it is sent, the lowest bit first.
  ghost function OfByte(b: bv32): Poly {
    set e: nat | e < 8 && ByteAt(b, e)
  }

  // The message: the first byte has the highest exponents.
  ghost function Message(data: seq<bv8>): Poly {
    if data == [] then {} else Plus(Up(Message(data[..|data| - 1]), 8), OfByte(Wide(data[|data| - 1])))
  }

  // The message behind a register that was not empty, and 32 more places.
  ghost function Dividend(c: bv32, data: seq<bv8>): Poly {
    Plus(Up(Of(c), 8 * |data|), Up(Message(data), 32))
  }

  // ---------------------------------------------------------------- bits

  lemma {:induction false} CoefXor(a: bv32, b: bv32, i: nat)
    ensures Coef(Xor(a, b), i) <==> (Coef(a, i) != Coef(b, i))
    decreases i
  {
    hide Xor, Half;
    if i == 0 {
      LowBitXor(a, b);
      LowBit(a);
      LowBit(b);
    } else {
      HalfLinear(a, b);
      CoefXor(Half(a), Half(b), i - 1);
    }
  }

  lemma OfXor(a: bv32, b: bv32)
    ensures Of(Xor(a, b)) == Plus(Of(a), Of(b))
  {
    hide Coef, Xor;
    forall e: nat
      ensures e in Of(Xor(a, b)) <==> e in Plus(Of(a), Of(b))
    {
      if e < 32 {
        CoefXor(a, b, 31 - e);
        assert At(Xor(a, b), e) <==> At(a, e) != At(b, e);
      }
    }
  }

  lemma Halves(c: bv32)
    ensures Half(Half(Half(Half(Half(Half(Half(Half(c)))))))) == Rest(c)
  {
  }

  lemma CoefByte(c: bv32, i: nat)
    ensures Coef(c, i + 8) <==> Coef(Rest(c), i)
  {
    hide Half, Rest;
    Halves(c);
    var d := Half(Half(Half(Half(c))));
    assert Coef(c, i + 8) == Coef(Half(c), i + 7);
    assert Coef(Half(c), i + 7) == Coef(Half(Half(c)), i + 6);
    assert Coef(Half(Half(c)), i + 6) == Coef(Half(Half(Half(c))), i + 5);
    assert Coef(Half(Half(Half(c))), i + 5) == Coef(d, i + 4);
    assert Coef(d, i + 4) == Coef(Half(d), i + 3);
    assert Coef(Half(d), i + 3) == Coef(Half(Half(d)), i + 2);
    assert Coef(Half(Half(d)), i + 2) == Coef(Half(Half(Half(d))), i + 1);
    assert Coef(Half(Half(Half(d))), i + 1) == Coef(Half(Half(Half(Half(d)))), i);
  }

  lemma RestFour(c: bv32)
    ensures Rest(Rest(Rest(Rest(c)))) == 0
  {
  }

  lemma {:induction false} CoefZero(i: nat)
    ensures !Coef(0, i)
    decreases i
  {
    if i > 0 {
      assert Half(0) == 0;
      CoefZero(i - 1);
    }
  }

  // There are 32 bits.
  lemma NoBit(c: bv32)
    ensures !Coef(c, 32)
  {
    hide Rest, Coef;
    CoefByte(c, 24);
    CoefByte(Rest(c), 16);
    CoefByte(Rest(Rest(c)), 8);
    CoefByte(Rest(Rest(Rest(c))), 0);
    RestFour(c);
    CoefZero(0);
  }

  // ---------------------------------------------------------------- one step

  // Shifting in a zero bit multiplies by x; what falls out is x^32.
  lemma HalfIs(c: bv32)
    ensures Plus(Up(Of(c), 1), Of(Half(c))) == if c & 1 == 1 then {32} else {}
  {
    hide Half;
    NoBit(c);
    var sum, out := Plus(Up(Of(c), 1), Of(Half(c))), if c & 1 == 1 then {32} else {};
    forall e: nat
      ensures e in sum <==> e in out
    {
      if e == 0 {
        assert At(Half(c), 0) <==> Coef(c, 32);
      } else if e <= 31 {
        assert At(c, e - 1) <==> Coef(c, 32 - e);
        assert At(Half(c), e) <==> Coef(Half(c), 31 - e);
      } else if e == 32 {
        assert At(c, 31) <==> Coef(c, 0);
      }
    }
  }

  lemma TwoHalves(c: bv32)
    ensures Half(c) == c >> 1 && Half(Half(c)) == c >> 2
    ensures Half(Half(Half(c))) == c >> 3 && Half(Half(Half(Half(c)))) == c >> 4
  {
  }

  lemma LowFour(c: bv32)
    ensures Coef(c, 0) <==> c & 1 == 1
    ensures Coef(c, 1) <==> (c >> 1) & 1 == 1
    ensures Coef(c, 2) <==> (c >> 2) & 1 == 1
    ensures Coef(c, 3) <==> (c >> 3) & 1 == 1
  {
    hide Half;
    TwoHalves(c);
    var h1 := Half(c);
    var h2, h3 := Half(h1), Half(Half(h1));
    assert Coef(c, 1) == Coef(h1, 0);
    assert Coef(c, 2) == Coef(h1, 1) == Coef(h2, 0);
    assert Coef(c, 3) == Coef(h1, 2) == Coef(h2, 1) == Coef(h3, 0);
  }

  lemma CoefNibble(c: bv32, i: nat)
    ensures Coef(c, i + 4) <==> Coef(c >> 4, i)
  {
    hide Half;
    TwoHalves(c);
    var h1 := Half(c);
    var h2, h3 := Half(h1), Half(Half(h1));
    assert Coef(c, i + 4) == Coef(h1, i + 3) == Coef(h2, i + 2) == Coef(h3, i + 1) == Coef(Half(h3), i);
  }

  lemma LowCoefs(c: bv32)
    ensures Coef(c, 0) <==> c & 1 == 1
    ensures Coef(c, 1) <==> (c >> 1) & 1 == 1
    ensures Coef(c, 2) <==> (c >> 2) & 1 == 1
    ensures Coef(c, 3) <==> (c >> 3) & 1 == 1
    ensures Coef(c, 4) <==> (c >> 4) & 1 == 1
    ensures Coef(c, 5) <==> (c >> 5) & 1 == 1
    ensures Coef(c, 6) <==> (c >> 6) & 1 == 1
    ensures Coef(c, 7) <==> (c >> 7) & 1 == 1
  {
    hide Coef;
    LowFour(c);
    LowFour(c >> 4);
    CoefNibble(c, 0);
    CoefNibble(c, 1);
    CoefNibble(c, 2);
    CoefNibble(c, 3);
  }

  // The reversed constant of the code is the generator without its first term.
  lemma PolyIsGenerator()
    ensures Plus(Of(POLY), {32}) == GENERATOR
  {
    hide Coef;
    PolyBits();
    var g := Plus(Of(POLY), {32});
    forall e: nat
      ensures e in g <==> e in GENERATOR
    {
      if e < 32 {
        assert At(POLY, e) <==> Coef(POLY, 31 - e);
      }
    }
  }

  lemma PolyBits()
    ensures !Coef(POLY, 0) && !Coef(POLY, 1) && !Coef(POLY, 2) && Coef(POLY, 3)
         && Coef(POLY, 4) && Coef(POLY, 5) && Coef(POLY, 6) && !Coef(POLY, 7)
    ensures Coef(POLY, 8) && Coef(POLY, 9) && !Coef(POLY, 10) && Coef(POLY, 11)
         && Coef(POLY, 12) && Coef(POLY, 13) && !Coef(POLY, 14) && !Coef(POLY, 15)
    ensures !Coef(POLY, 16) && Coef(POLY, 17) && Coef(POLY, 18) && !Coef(POLY, 19)
         && Coef(POLY, 20) && Coef(POLY, 21) && Coef(POLY, 22) && Coef(POLY, 23)
    ensures !Coef(POLY, 24) && Coef(POLY, 25) && !Coef(POLY, 26) && !Coef(POLY, 27)
         && !Coef(POLY, 28) && !Coef(POLY, 29) && !Coef(POLY, 30) && Coef(POLY, 31)
  {
    hide Coef;
    var b1, b2, b3 := Rest(POLY), Rest(Rest(POLY)), Rest(Rest(Rest(POLY)));
    assert POLY == 0x82f63b78 && b1 == 0x82f63b && b2 == 0x82f6 && b3 == 0x82;
    LowCoefs(POLY);
    LowCoefs(b1);
    LowCoefs(b2);
    LowCoefs(b3);
    forall i: nat | i < 8
      ensures Coef(POLY, i + 8) == Coef(b1, i) && Coef(POLY, i + 16) == Coef(b2, i) && Coef(POLY, i + 24) == Coef(b3, i)
    {
      CoefByte(POLY, i);
      CoefByte(POLY, i + 8);
      CoefByte(b1, i);
      CoefByte(POLY, i + 16);
      CoefByte(b1, i + 8);
      CoefByte(b2, i);
    }
    assert Coef(POLY, 8) == Coef(b1, 0);
    assert Coef(POLY, 9) == Coef(b1, 1);
    assert Coef(POLY, 10) == Coef(b1, 2);
    assert Coef(POLY, 11) == Coef(b1, 3);
    assert Coef(POLY, 12) == Coef(b1, 4);
    assert Coef(POLY, 13) == Coef(b1, 5);
    assert Coef(POLY, 14) == Coef(b1, 6);
    assert Coef(POLY, 15) == Coef(b1, 7);
    assert Coef(POLY, 16) == Coef(b2, 0);
    assert Coef(POLY, 17) == Coef(b2, 1);
    assert Coef(POLY, 18) == Coef(b2, 2);
    assert Coef(POLY, 19) == Coef(b2, 3);
    assert Coef(POLY, 20) == Coef(b2, 4);
    assert Coef(POLY, 21) == Coef(b2, 5);
    assert Coef(POLY, 22) == Coef(b2, 6);
    assert Coef(POLY, 23) == Coef(b2, 7);
    assert Coef(POLY, 24) == Coef(b3, 0);
    assert Coef(POLY, 25) == Coef(b3, 1);
    assert Coef(POLY, 26) == Coef(b3, 2);
    assert Coef(POLY, 27) == Coef(b3, 3);
    assert Coef(POLY, 28) == Coef(b3, 4);
    assert Coef(POLY, 29) == Coef(b3, 5);
    assert Coef(POLY, 30) == Coef(b3, 6);
    assert Coef(POLY, 31) == Coef(b3, 7);
  }

  lemma StepCongruent(c: bv32)
    ensures Congruent(Up(Of(c), 1), Of(BitStep(c)))
  {
    hide Of, Plus, Up, Xor, Half, Sum;
    var a, h := Up(Of(c), 1), Of(Half(c));
    HalfIs(c);
    HalfShift(c);
    if c & 1 == 1 {
      OfXor(Half(c), POLY);
      PolyIsGenerator();
      PlusAssoc(a, h, Of(POLY));
      PlusComm(Of(POLY), {32});
      SumOne(0);
      UpZero(GENERATOR);
      assert Plus(a, Of(BitStep(c))) == Sum([0]);
    } else {
      NoTerms();
      assert Plus(a, Of(BitStep(c))) == Sum([]);
    }
  }

  lemma NoTerms()
    ensures Sum([]) == {}
  {
  }

  lemma HalfShift(c: bv32)
    ensures BitStep(c) == if c & 1 == 1 then Xor(Half(c), POLY) else Half(c)
  {
  }

  // One more zero bit.
  lemma AnotherBit(a: Poly, c: bv32, k: nat)
    requires Congruent(Up(a, k), Of(c))
    ensures Congruent(Up(a, k + 1), Of(BitStep(c)))
  {
    hide Of, Up, Congruent, BitStep;
    CongruentUp(Up(a, k), Of(c), 1);
    UpUp(a, k, 1);
    StepCongruent(c);
    CongruentTrans(Up(a, k + 1), Up(Of(c), 1), Of(BitStep(c)));
  }

  lemma ByteCongruent(c: bv32)
    ensures Congruent(Up(Of(c), 8), Of(Shift8(c)))
  {
    hide Of, Up, Congruent, BitStep, Shift8;
    var a := Of(c);
    UpZero(a);
    CongruentSelf(a);
    var c1 := BitStep(c);
    var c2, c3 := BitStep(c1), BitStep(BitStep(c1));
    var c4, c5 := BitStep(c3), BitStep(BitStep(c3));
    var c6, c7 := BitStep(c5), BitStep(BitStep(c5));
    AnotherBit(a, c, 0);
    AnotherBit(a, c1, 1);
    AnotherBit(a, c2, 2);
    AnotherBit(a, c3, 3);
    AnotherBit(a, c4, 4);
    AnotherBit(a, c5, 5);
    AnotherBit(a, c6, 6);
    AnotherBit(a, c7, 7);
    EightBits(c);
  }

  // ---------------------------------------------------------------- the remainder

  // A byte at the start of the register.
  lemma ByteInRegister(b: bv8)
    ensures Up(OfByte(Wide(b)), 32) == Up(Of(Wide(b)), 8)
  {
    hide Wide, Coef;
    var c := Wide(b);
    forall e: nat
      ensures e in Up(OfByte(c), 32) <==> e in Up(Of(c), 8)
    {
      if 32 <= e < 40 {
        assert ByteAt(c, e - 32) <==> Coef(c, 39 - e);
        assert At(c, e - 8) <==> Coef(c, 39 - e);
      } else if 8 <= e < 32 {
        ByteBits(b, 39 - e);
        assert At(c, e - 8) <==> Coef(c, 39 - e);
      }
    }
  }

  lemma ByteBits(b: bv8, i: nat)
    requires 8 <= i
    ensures !Coef(Wide(b), i)
  {
    hide Coef;
    CoefByte(Wide(b), i - 8);
    SmallRest(b);
    CoefZero(i - 8);
  }

  lemma SmallRest(b: bv8)
    ensures Rest(Wide(b)) == 0
  {
  }

  // One more byte of the message.
  lemma DividendNext(c: bv32, data: seq<bv8>, b: bv8)
    ensures Dividend(c, data + [b]) == Plus(Up(Dividend(c, data), 8), Up(Of(Wide(b)), 8))
  {
    hide Of, Plus, Up, OfByte;
    var n, all := |data|, data + [b];
    assert all[..n] == data && all[n] == b;
    var m, o := Message(data), OfByte(Wide(b));
    UpUp(Of(c), 8 * n, 8);
    UpPlus(Up(m, 8), o, 32);
    UpUp(m, 8, 32);
    UpUp(m, 32, 8);
    UpPlus(Up(Of(c), 8 * n), Up(m, 32), 8);
    ByteInRegister(b);
    PlusAssoc(Up(Of(c), 8 * n + 8), Up(m, 40), Up(o, 32));
  }

  /** The register after `data` is the remainder of the message, behind the start value, by the
      generator polynomial. */
  lemma {:induction false} RawIsRemainder(c: bv32, data: seq<bv8>)
    ensures Congruent(Dividend(c, data), Of(Raw(c, data)))
    decreases |data|
  {
    hide Of, Plus, Up, Congruent, Raw, Shift8, Xor, Message;
    if data == [] {
      NoData(c);
      RawEmpty(c);
      CongruentSelf(Of(c));
    } else {
      var init, b := data[..|data| - 1], data[|data| - 1];
      var r := Raw(c, init);
      RawIsRemainder(c, init);
      assert data == init + [b];
      DividendNext(c, init, b);
      CongruentUp(Dividend(c, init), Of(r), 8);
      CongruentPlus(Up(Dividend(c, init), 8), Up(Of(r), 8), Up(Of(Wide(b)), 8));
      UpPlus(Of(r), Of(Wide(b)), 8);
      OfXor(r, Wide(b));
      ByteCongruent(Xor(r, Wide(b)));
      CongruentTrans(Dividend(c, data), Up(Of(Xor(r, Wide(b))), 8), Of(Shift8(Xor(r, Wide(b)))));
      RawAppend(c, init, [b]);
      RawOne(r, b);
    }
  }

  lemma NoData(c: bv32)
    ensures Dividend(c, []) == Of(c)
  {
    hide Of;
    UpZero(Of(c));
    assert Up({}, 32) == {};
  }

  /** It is the only register with that remainder. */
  lemma RemainderUnique(a: bv32, b: bv32)
    requires Congruent(Of(a), Of(b))
    ensures a == b
  {
    hide Sum, Coef, Xor;
    var es: seq<nat> :| Plus(Of(a), Of(b)) == Sum(es);
    var n := Above(es);
    SmallMultiple(es, n);
    OfXor(a, b);
    NoBits(Xor(a, b));
    XorNone(a, b);
  }

  ghost function Above(es: seq<nat>): (n: nat)
    ensures forall e :: e in es ==> e < n
  {
    if es == [] then 0
    else
      var n, e := Above(es[..|es| - 1]), es[|es| - 1];
      assert es == es[..|es| - 1] + [e];
      if e < n then n else e + 1
  }

  lemma XorNone(a: bv32, b: bv32)
    requires Xor(a, b) == 0
    ensures a == b
  {
  }

  lemma NoBits(c: bv32)
    requires Of(c) == {}
    ensures c == 0
  {
    hide Coef;
    forall i: nat | i < 32
      ensures !Coef(c, i)
    {
      assert 31 - i !in Of(c);
    }
    var b1, b2, b3 := Rest(c), Rest(Rest(c)), Rest(Rest(Rest(c)));
    forall i: nat | i < 8
      ensures !Coef(b1, i) && !Coef(b2, i) && !Coef(b3, i)
    {
      CoefByte(c, i);
      CoefByte(c, i + 8);
      CoefByte(b1, i);
      CoefByte(c, i + 16);
      CoefByte(b1, i + 8);
      CoefByte(b2, i);
    }
    LowZero(c);
    LowZero(b1);
    LowZero(b2);
    LowZero(b3);
    ZeroBytes(c);
  }

  lemma LowZero(c: bv32)
    requires forall i: nat :: i < 8 ==> !Coef(c, i)
    ensures c & 0xff == 0
  {
    hide Coef;
    LowCoefs(c);
  }

  lemma ZeroBytes(c: bv32)
    requires c & 0xff == 0 && Rest(c) & 0xff == 0 && Rest(Rest(c)) & 0xff == 0 && Rest(Rest(Rest(c))) & 0xff == 0
    ensures c == 0
  {
  }

  /** The checksum, both ways: its complement is the remainder of the message behind the complement of
      the start value, and no other word has that property. */
  lemma CrcIsRemainder(crc: bv32, data: seq<bv8>, r: bv32)
    ensures r == Crc(crc, data) <==> Congruent(Dividend(Xor(crc, ONES), data), Of(Xor(r, ONES)))
  {
    hide Of, Congruent, Raw, Dividend, Xor;
    var c := Xor(crc, ONES);
    RawIsRemainder(c, data);
    XorTwice(r, ONES);
    XorTwice(Raw(c, data), ONES);
    if Congruent(Dividend(c, data), Of(Xor(r, ONES))) {
      CongruentSym(Dividend(c, data), Of(Xor(r, ONES)));
      CongruentTrans(Of(Xor(r, ONES)), Dividend(c, data), Of(Raw(c, data)));
      RemainderUnique(Xor(r, ONES), Raw(c, data));
    }
  }

  lemma CongruentSym(a: Poly, b: Poly)
    requires Congruent(a, b)
    ensures Congruent(b, a)
  {
    PlusComm(a, b);
  }

  // ---------------------------------------------------------------- check values

  lemma RawCons(c: bv32, b: bv8, rest: seq<bv8>, d: bv32)
    requires ByteStep(c, b) == d
    ensures Raw(c, [b] + rest) == Raw(d, rest)
  {
    hide ByteStep;
    assert ([b] + rest)[1..] == rest;
  }

  /** The check value of CRC-32C: the nine bytes "123456789". */
  lemma CheckValue()
    ensures Crc(0, [0x31, 0x32, 0x33, 0x34, 0x35, 0x36, 0x37, 0x38, 0x39]) == 0xe3069283
  {
    hide Raw, ByteStep;
    var data: seq<bv8> := [0x31, 0x32, 0x33, 0x34, 0x35, 0x36, 0x37, 0x38, 0x39];
    NineSteps();
    RawCons(0xffffffff, 0x31, data[1..], 0x6f0a661c);
    RawCons(0x6f0a661c, 0x32, data[2..], 0x8caa3b9f);
    RawCons(0x8caa3b9f, 0x33, data[3..], 0xef84d04d);
    RawCons(0xef84d04d, 0x34, data[4..], 0x09c50b11);
    RawCons(0x09c50b11, 0x35, data[5..], 0xe72edcca);
    RawCons(0xe72edcca, 0x36, data[6..], 0xbeca8e79);
    RawCons(0xbeca8e79, 0x37, data[7..], 0xedbd6815);
    RawCons(0xedbd6815, 0x38, data[8..], 0x9f787f65);
    RawCons(0x9f787f65, 0x39, data[9..], 0x1cf96d7c);
    assert data[9..] == [];
    assert [data[8]] + data[9..] == data[8..];
    assert [data[7]] + data[8..] == data[7..];
    assert [data[6]] + data[7..] == data[6..];
    assert [data[5]] + data[6..] == data[5..];
    assert [data[4]] + data[5..] == data[4..];
    assert [data[3]] + data[4..] == data[3..];
    assert [data[2]] + data[3..] == data[2..];
    assert [data[1]] + data[2..] == data[1..];
    assert [data[0]] + data[1..] == data[0..];
    RawEmpty(0x1cf96d7c);
    assert data[0..] == data;
  }

  lemma NineSteps()
    ensures ByteStep(0xffffffff, 0x31) == 0x6f0a661c
    ensures ByteStep(0x6f0a661c, 0x32) == 0x8caa3b9f
    ensures ByteStep(0x8caa3b9f, 0x33) == 0xef84d04d
    ensures ByteStep(0xef84d04d, 0x34) == 0x09c50b11
    ensures ByteStep(0x09c50b11, 0x35) == 0xe72edcca
    ensures ByteStep(0xe72edcca, 0x36) == 0xbeca8e79
    ensures ByteStep(0xbeca8e79, 0x37) == 0xedbd6815
    ensures ByteStep(0xedbd6815, 0x38) == 0x9f787f65
    ensures ByteStep(0x9f787f65, 0x39) == 0x1cf96d7c
  {
  }

  /** That of 32 zero bytes, from section B.4 of RFC 3720. */
  lemma ZerosValue()
    ensures Crc(0, Zeros(32)) == 0x8a9136aa
  {
    hide Raw, ByteStep;
    ZeroStepsA();
    ZeroStepsB();
    MoreZeros(0xffffffff, 31, 0xad82acae);
    MoreZeros(0xad82acae, 30, 0x0e9e882d);
    MoreZeros(0x0e9e882d, 29, 0x9f9b5c85);
    MoreZeros(0x9f9b5c85, 28, 0xb798b438);
    MoreZeros(0xb798b438, 27, 0xba8d89ca);
    MoreZeros(0xba8d89ca, 26, 0xa8d58375);
    MoreZeros(0xa8d58375, 25, 0x44c19592);
    MoreZeros(0x44c19592, 24, 0x73d74d75);
    MoreZeros(0x73d74d75, 23, 0x441a975c);
    MoreZeros(0x441a975c, 22, 0x1c220f94);
    MoreZeros(0x1c220f94, 21, 0x552e4907);
    MoreZeros(0x552e4907, 20, 0xd49f4aa2);
    MoreZeros(0xd49f4aa2, 19, 0x43a45a1b);
    MoreZeros(0x43a45a1b, 18, 0x8994c80e);
    MoreZeros(0x8994c80e, 17, 0xacf12bef);
    MoreZeros(0xacf12bef, 16, 0xbd8f6515);
    MoreZeros(0xbd8f6515, 15, 0x25125c16);
    MoreZeros(0x25125c16, 14, 0x36da32db);
    MoreZeros(0x36da32db, 13, 0x4a6c90a2);
    MoreZeros(0x4a6c90a2, 12, 0x433aa9c1);
    MoreZeros(0x433aa9c1, 11, 0x31a59f6e);
    MoreZeros(0x31a59f6e, 10, 0xcd8f89da);
    MoreZeros(0xcd8f89da, 9, 0xb8fc461a);
    MoreZeros(0xb8fc461a, 8, 0x7b041311);
    MoreZeros(0x7b041311, 7, 0xe24e407f);
    MoreZeros(0xe24e407f, 6, 0x2f692669);
    MoreZeros(0x2f692669, 5, 0x195b2188);
    MoreZeros(0x195b2188, 4, 0x08363896);
    MoreZeros(0x08363896, 3, 0xb4012dc7);
    MoreZeros(0xb4012dc7, 2, 0x17f34302);
    MoreZeros(0x17f34302, 1, 0xe12c83b4);
    MoreZeros(0xe12c83b4, 0, 0x756ec955);
    RawEmpty(0x756ec955);
    assert Zeros(0) == [];
  }

  ghost function Zeros(n: nat): seq<bv8> { seq(n, _ => 0) }

  lemma MoreZeros(c: bv32, n: nat, d: bv32)
    requires ByteStep(c, 0) == d
    ensures Raw(c, Zeros(n + 1)) == Raw(d, Zeros(n))
  {
    hide Raw, ByteStep;
    RawCons(c, 0, Zeros(n), d);
    assert [0] + Zeros(n) == Zeros(n + 1);
  }

  lemma ZeroStepsA()
    ensures ByteStep(0xffffffff, 0) == 0xad82acae
    ensures ByteStep(0xad82acae, 0) == 0x0e9e882d
    ensures ByteStep(0x0e9e882d, 0) == 0x9f9b5c85
    ensures ByteStep(0x9f9b5c85, 0) == 0xb798b438
    ensures ByteStep(0xb798b438, 0) == 0xba8d89ca
    ensures ByteStep(0xba8d89ca, 0) == 0xa8d58375
    ensures ByteStep(0xa8d58375, 0) == 0x44c19592
    ensures ByteStep(0x44c19592, 0) == 0x73d74d75
    ensures ByteStep(0x73d74d75, 0) == 0x441a975c
    ensures ByteStep(0x441a975c, 0) == 0x1c220f94
    ensures ByteStep(0x1c220f94, 0) == 0x552e4907
    ensures ByteStep(0x552e4907, 0) == 0xd49f4aa2
    ensures ByteStep(0xd49f4aa2, 0) == 0x43a45a1b
    ensures ByteStep(0x43a45a1b, 0) == 0x8994c80e
    ensures ByteStep(0x8994c80e, 0) == 0xacf12bef
    ensures ByteStep(0xacf12bef, 0) == 0xbd8f6515
  {
  }

  lemma ZeroStepsB()
    ensures ByteStep(0xbd8f6515, 0) == 0x25125c16
    ensures ByteStep(0x25125c16, 0) == 0x36da32db
    ensures ByteStep(0x36da32db, 0) == 0x4a6c90a2
    ensures ByteStep(0x4a6c90a2, 0) == 0x433aa9c1
    ensures ByteStep(0x433aa9c1, 0) == 0x31a59f6e
    ensures ByteStep(0x31a59f6e, 0) == 0xcd8f89da
    ensures ByteStep(0xcd8f89da, 0) == 0xb8fc461a
    ensures ByteStep(0xb8fc461a, 0) == 0x7b041311
    ensures ByteStep(0x7b041311, 0) == 0xe24e407f
    ensures ByteStep(0xe24e407f, 0) == 0x2f692669
    ensures ByteStep(0x2f692669, 0) == 0x195b2188
    ensures ByteStep(0x195b2188, 0) == 0x08363896
    ensures ByteStep(0x08363896, 0) == 0xb4012dc7
    ensures ByteStep(0xb4012dc7, 0) == 0x17f34302
    ensures ByteStep(0x17f34302, 0) == 0xe12c83b4
    ensures ByteStep(0xe12c83b4, 0) == 0x756ec955
  {
  }
}
