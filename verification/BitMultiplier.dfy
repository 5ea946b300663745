/** Symbols of GF(2^8) at bit level: exclusive or, and the multiplier for p(X) = 1 + X^2 + X^3 + X^4 + X^8. */
module BitMultiplier {

  /** An unsigned character. */
  type Sym = x: int | 0 <= x < 256

  /** The bits of a symbol, least significant first. */
  datatype Octet = Octet(x0: bool, x1: bool, x2: bool, x3: bool, x4: bool, x5: bool, x6: bool, x7: bool)

  function Bits(x: Sym): Octet {
    var x1 := x / 2; var x2 := x1 / 2; var x3 := x2 / 2; var x4 := x3 / 2;
    var x5 := x4 / 2; var x6 := x5 / 2; var x7 := x6 / 2;
    Octet(x % 2 == 1, x1 % 2 == 1, x2 % 2 == 1, x3 % 2 == 1, x4 % 2 == 1, x5 % 2 == 1, x6 % 2 == 1, x7 % 2 == 1)
  }

  /** The number whose lowest bit is b and whose other bits are those of rest, shifted left once. */
  function Join(b: bool, rest: nat): nat {
    if b then 2 * rest + 1 else 2 * rest
  }

  function Pack(z: Octet): Sym {
    Join(z.x0, Join(z.x1, Join(z.x2, Join(z.x3, Join(z.x4, Join(z.x5, Join(z.x6, Join(z.x7, 0))))))))
  }

  function Plus(a: Octet, b: Octet): Octet {
    Octet(a.x0 != b.x0, a.x1 != b.x1, a.x2 != b.x2, a.x3 != b.x3,
          a.x4 != b.x4, a.x5 != b.x5, a.x6 != b.x6, a.x7 != b.x7)
  }

  /** Bitwise exclusive or. */
  function Xor(a: Sym, b: Sym): Sym {
    Pack(Plus(Bits(a), Bits(b)))
  }

  datatype Quad = Quad(y0: bool, y1: bool, y2: bool, y3: bool)
  datatype Pair = Pair(z0: bool, z1: bool)

  function Fold8(z: Octet): Quad {
    Quad(z.x0 != z.x4, z.x1 != z.x5, z.x2 != z.x6, z.x3 != z.x7)
  }

  function Fold4(z: Quad): Pair {
    Pair(z.y0 != z.y2, z.y1 != z.y3)
  }

  /** The exclusive or of eight bits. */
  predicate Parity(z: Octet) {
    var p := Fold4(Fold8(z));
    p.z0 != p.z1
  }

  // The products whose exclusive or is each output bit, collected by the bit of the second factor
  // that they contain; on bits, inequality is exclusive or.

  function Z0(a: Octet, b: Octet): Octet {
    Octet(b.x0 && a.x0, b.x1 && a.x7, b.x2 && a.x6, b.x3 && a.x5, b.x4 && a.x4, (b.x5 && a.x3) != (b.x5 && a.x7),
          ((b.x6 && a.x2) != (b.x6 && a.x6)) != (b.x6 && a.x7),
          (((b.x7 && a.x1) != (b.x7 && a.x5)) != (b.x7 && a.x6)) != (b.x7 && a.x7))
  }

  function Z1(a: Octet, b: Octet): Octet {
    Octet(b.x0 && a.x1, b.x1 && a.x0, b.x2 && a.x7, b.x3 && a.x6, b.x4 && a.x5, b.x5 && a.x4,
          (b.x6 && a.x3) != (b.x6 && a.x7), ((b.x7 && a.x2) != (b.x7 && a.x6)) != (b.x7 && a.x7))
  }

  function Z2(a: Octet, b: Octet): Octet {
    Octet(b.x0 && a.x2, (b.x1 && a.x1) != (b.x1 && a.x7), (b.x2 && a.x0) != (b.x2 && a.x6),
          (b.x3 && a.x5) != (b.x3 && a.x7), (b.x4 && a.x4) != (b.x4 && a.x6),
          ((b.x5 && a.x3) != (b.x5 && a.x5)) != (b.x5 && a.x7),
          (((b.x6 && a.x2) != (b.x6 && a.x4)) != (b.x6 && a.x6)) != (b.x6 && a.x7),
          (((b.x7 && a.x1) != (b.x7 && a.x3)) != (b.x7 && a.x5)) != (b.x7 && a.x6))
  }

  function Z3(a: Octet, b: Octet): Octet {
    Octet(b.x0 && a.x3, (b.x1 && a.x2) != (b.x1 && a.x7), ((b.x2 && a.x1) != (b.x2 && a.x6)) != (b.x2 && a.x7),
          ((b.x3 && a.x0) != (b.x3 && a.x5)) != (b.x3 && a.x6),
          ((b.x4 && a.x4) != (b.x4 && a.x5)) != (b.x4 && a.x7),
          (((b.x5 && a.x3) != (b.x5 && a.x4)) != (b.x5 && a.x6)) != (b.x5 && a.x7),
          (((b.x6 && a.x2) != (b.x6 && a.x3)) != (b.x6 && a.x5)) != (b.x6 && a.x6),
          (((b.x7 && a.x1) != (b.x7 && a.x2)) != (b.x7 && a.x4)) != (b.x7 && a.x5))
  }

  function Z4(a: Octet, b: Octet): Octet {
    Octet(b.x0 && a.x4, (b.x1 && a.x3) != (b.x1 && a.x7), ((b.x2 && a.x2) != (b.x2 && a.x6)) != (b.x2 && a.x7),
          (((b.x3 && a.x1) != (b.x3 && a.x5)) != (b.x3 && a.x6)) != (b.x3 && a.x7),
          (((b.x4 && a.x0) != (b.x4 && a.x4)) != (b.x4 && a.x5)) != (b.x4 && a.x6),
          ((b.x5 && a.x3) != (b.x5 && a.x4)) != (b.x5 && a.x5),
          ((b.x6 && a.x2) != (b.x6 && a.x3)) != (b.x6 && a.x4),
          (((b.x7 && a.x1) != (b.x7 && a.x2)) != (b.x7 && a.x3)) != (b.x7 && a.x7))
  }

  function Z5(a: Octet, b: Octet): Octet {
    Octet(b.x0 && a.x5, b.x1 && a.x4, (b.x2 && a.x3) != (b.x2 && a.x7),
          ((b.x3 && a.x2) != (b.x3 && a.x6)) != (b.x3 && a.x7),
          (((b.x4 && a.x1) != (b.x4 && a.x5)) != (b.x4 && a.x6)) != (b.x4 && a.x7),
          (((b.x5 && a.x0) != (b.x5 && a.x4)) != (b.x5 && a.x5)) != (b.x5 && a.x6),
          ((b.x6 && a.x3) != (b.x6 && a.x4)) != (b.x6 && a.x5), ((b.x7 && a.x2) != (b.x7 && a.x3)) != (b.x7 && a.x4))
  }

  function Z6(a: Octet, b: Octet): Octet {
    Octet(b.x0 && a.x6, b.x1 && a.x5, b.x2 && a.x4, (b.x3 && a.x3) != (b.x3 && a.x7),
          ((b.x4 && a.x2) != (b.x4 && a.x6)) != (b.x4 && a.x7),
          (((b.x5 && a.x1) != (b.x5 && a.x5)) != (b.x5 && a.x6)) != (b.x5 && a.x7),
          (((b.x6 && a.x0) != (b.x6 && a.x4)) != (b.x6 && a.x5)) != (b.x6 && a.x6),
          ((b.x7 && a.x3) != (b.x7 && a.x4)) != (b.x7 && a.x5))
  }

  function Z7(a: Octet, b: Octet): Octet {
    Octet(b.x0 && a.x7, b.x1 && a.x6, b.x2 && a.x5, b.x3 && a.x4, (b.x4 && a.x3) != (b.x4 && a.x7),
          ((b.x5 && a.x2) != (b.x5 && a.x6)) != (b.x5 && a.x7),
          (((b.x6 && a.x1) != (b.x6 && a.x5)) != (b.x6 && a.x6)) != (b.x6 && a.x7),
          (((b.x7 && a.x0) != (b.x7 && a.x4)) != (b.x7 && a.x5)) != (b.x7 && a.x6))
  }

  function Product(a: Octet, b: Octet): Octet {
    Octet(Parity(Z0(a, b)), Parity(Z1(a, b)), Parity(Z2(a, b)), Parity(Z3(a, b)),
          Parity(Z4(a, b)), Parity(Z5(a, b)), Parity(Z6(a, b)), Parity(Z7(a, b)))
  }

  /** The multiplier. */
  function Galois(in1: Sym, in2: Sym): Sym {
    Pack(Product(Bits(in1), Bits(in2)))
  }

  // ----- symbols and their bits

  lemma JoinHalves(x: nat)
    ensures Join(x % 2 == 1, x / 2) == x
  {}

  lemma HalvesJoin(b: bool, rest: nat)
    ensures Join(b, rest) / 2 == rest && (Join(b, rest) % 2 == 1 <==> b)
  {}

  lemma PackBits(x: Sym)
    ensures Pack(Bits(x)) == x
  {
    hide Join;
    var x1 := x / 2; var x2 := x1 / 2; var x3 := x2 / 2; var x4 := x3 / 2;
    var x5 := x4 / 2; var x6 := x5 / 2; var x7 := x6 / 2;
    assert x1 < 128;
    assert x2 < 64;
    assert x3 < 32;
    assert x4 < 16;
    assert x5 < 8;
    assert x6 < 4;
    assert x7 < 2;
    assert x7 / 2 == 0;
    JoinHalves(x); JoinHalves(x1); JoinHalves(x2); JoinHalves(x3);
    JoinHalves(x4); JoinHalves(x5); JoinHalves(x6); JoinHalves(x7);
  }

  lemma BitsPack(z: Octet)
    ensures Bits(Pack(z)) == z
  {
    hide Join;
    var y7 := Join(z.x7, 0); var y6 := Join(z.x6, y7); var y5 := Join(z.x5, y6); var y4 := Join(z.x4, y5);
    var y3 := Join(z.x3, y4); var y2 := Join(z.x2, y3); var y1 := Join(z.x1, y2);
    HalvesJoin(z.x7, 0); HalvesJoin(z.x6, y7); HalvesJoin(z.x5, y6); HalvesJoin(z.x4, y5);
    HalvesJoin(z.x3, y4); HalvesJoin(z.x2, y3); HalvesJoin(z.x1, y2); HalvesJoin(z.x0, y1);
  }

  lemma TopBit(x: Sym)
    ensures Bits(x).x7 <==> x >= 128
  {
    var x1 := x / 2; var x2 := x1 / 2; var x3 := x2 / 2; var x4 := x3 / 2;
    var x5 := x4 / 2; var x6 := x5 / 2; var x7 := x6 / 2;
    assert x7 == if x >= 128 then 1 else 0;
  }

  lemma ShiftLeft(x: Sym)
    requires x < 128
    ensures Bits(2 * x) == Xtime(Bits(x))
  {
    var x1 := x / 2; var x2 := x1 / 2; var x3 := x2 / 2; var x4 := x3 / 2;
    var x5 := x4 / 2; var x6 := x5 / 2; var x7 := x6 / 2;
    assert x7 == 0;
    assert 2 * x / 2 == x && 2 * x % 2 == 0;
    var z := Bits(x);
    assert !z.x7;
    assert Bits(2 * x) == Octet(false, z.x0, z.x1, z.x2, z.x3, z.x4, z.x5, z.x6);
  }

  lemma PlusAssoc(a: Octet, b: Octet, c: Octet)
    ensures Plus(Plus(a, b), c) == Plus(a, Plus(b, c))
  {}

  // ----- multiplication by X

  /** Multiplication of a bit vector by X: the overflow bit comes back at 1, X^2, X^3 and X^4. */
  function Xtime(a: Octet): Octet {
    Octet(a.x7, a.x0, a.x1 != a.x7, a.x2 != a.x7, a.x3 != a.x7, a.x4, a.x5, a.x6)
  }

  lemma XtimePlus(a: Octet, b: Octet)
    ensures Xtime(Plus(a, b)) == Plus(Xtime(a), Xtime(b))
  {}

  lemma ParityPlus(a: Octet, b: Octet)
    ensures Parity(Plus(a, b)) == (Parity(a) != Parity(b))
  {
    var p, q := Fold8(a), Fold8(b);
    var r := Quad(p.y0 != q.y0, p.y1 != q.y1, p.y2 != q.y2, p.y3 != q.y3);
    assert Fold8(Plus(a, b)) == r;
    var s, t := Fold4(p), Fold4(q);
    assert Fold4(r) == Pair(s.z0 != t.z0, s.z1 != t.z1);
  }

  lemma Shift0(a: Octet, b: Octet)
    ensures Z0(Xtime(a), b) == Z7(a, b)
  {}

  lemma Shift1(a: Octet, b: Octet)
    ensures Z1(Xtime(a), b) == Z0(a, b)
  {}

  lemma Shift2(a: Octet, b: Octet)
    ensures Z2(Xtime(a), b) == Plus(Z1(a, b), Z7(a, b))
  {}

  lemma Shift3(a: Octet, b: Octet)
    ensures Z3(Xtime(a), b) == Plus(Z2(a, b), Z7(a, b))
  {}

  lemma Shift4(a: Octet, b: Octet)
    ensures Z4(Xtime(a), b) == Plus(Z3(a, b), Z7(a, b))
  {}

  lemma Shift5(a: Octet, b: Octet)
    ensures Z5(Xtime(a), b) == Z4(a, b)
  {}

  lemma Shift6(a: Octet, b: Octet)
    ensures Z6(Xtime(a), b) == Z5(a, b)
  {}

  lemma Shift7(a: Octet, b: Octet)
    ensures Z7(Xtime(a), b) == Z6(a, b)
  {}

  lemma ProductShift(a: Octet, b: Octet)
    ensures Product(Xtime(a), b) == Xtime(Product(a, b))
  {
    hide Z0, Z1, Z2, Z3, Z4, Z5, Z6, Z7, Parity, Plus;
    Shift0(a, b); Shift1(a, b); Shift2(a, b); Shift3(a, b);
    Shift4(a, b); Shift5(a, b); Shift6(a, b); Shift7(a, b);
    ParityPlus(Z1(a, b), Z7(a, b));
    ParityPlus(Z2(a, b), Z7(a, b));
    ParityPlus(Z3(a, b), Z7(a, b));
  }

  /** The octet whose only bit that may be set is bit k. */
  function OneHot(k: nat, b: bool): Octet {
    Octet(k == 0 && b, k == 1 && b, k == 2 && b, k == 3 && b, k == 4 && b, k == 5 && b, k == 6 && b, k == 7 && b)
  }

  lemma ParityOneHot(k: nat, b: bool)
    requires k < 8
    ensures Parity(OneHot(k, b)) == b
  {}

  lemma RowsOfOne(b: Octet)
    ensures Z0(OneHot(0, true), b) == OneHot(0, b.x0) && Z1(OneHot(0, true), b) == OneHot(1, b.x1)
    ensures Z2(OneHot(0, true), b) == OneHot(2, b.x2) && Z3(OneHot(0, true), b) == OneHot(3, b.x3)
    ensures Z4(OneHot(0, true), b) == OneHot(4, b.x4) && Z5(OneHot(0, true), b) == OneHot(5, b.x5)
    ensures Z6(OneHot(0, true), b) == OneHot(6, b.x6) && Z7(OneHot(0, true), b) == OneHot(7, b.x7)
  {}

  lemma ProductNone(b: Octet)
    ensures Product(OneHot(0, false), b) == OneHot(0, false)
    ensures Product(b, OneHot(0, false)) == OneHot(0, false)
  {}

  lemma ProductOneHot(b: Octet)
    ensures Product(OneHot(0, true), b) == b
  {
    hide Z0, Z1, Z2, Z3, Z4, Z5, Z6, Z7, Parity, OneHot;
    RowsOfOne(b);
    ParityOneHot(0, b.x0); ParityOneHot(1, b.x1); ParityOneHot(2, b.x2); ParityOneHot(3, b.x3);
    ParityOneHot(4, b.x4); ParityOneHot(5, b.x5); ParityOneHot(6, b.x6); ParityOneHot(7, b.x7);
  }

  lemma BitsOfUnits()
    ensures Bits(0) == OneHot(0, false) && Bits(1) == OneHot(0, true) && Bits(2) == OneHot(1, true)
    ensures Bits(29) == Octet(true, false, true, true, true, false, false, false)
    ensures Bits(128) == OneHot(7, true)
  {
    hide *;
    BitsOfZeroOneTwo();
    BitsOf29();
    BitsOf128();
  }

  lemma BitsOfZeroOneTwo()
    ensures Bits(0) == OneHot(0, false) && Bits(1) == OneHot(0, true) && Bits(2) == OneHot(1, true)
  {}

  lemma BitsOf29()
    ensures Bits(29) == Octet(true, false, true, true, true, false, false, false)
  {}

  lemma BitsOf128()
    ensures Bits(128) == OneHot(7, true)
  {}

  lemma ProductOne(b: Octet)
    ensures Product(Bits(1), b) == b
  {
    hide *;
    BitsOfUnits();
    ProductOneHot(b);
  }

  lemma ProductTwo(b: Octet)
    ensures Product(Bits(2), b) == Xtime(b)
  {
    BitsOfUnits();
    assert Bits(2) == Xtime(Bits(1));
    hide *;
    ProductShift(Bits(1), b);
    ProductOne(b);
  }
}
