/** The field GF(2^8), whose elements are symbols: Add is exclusive or and Mul is the multiplier galois. */
module GF256 {
  import opened BitMultiplier

  /** The number of nonzero symbols, which is also the length of a codeword. */
  const NN := 255

  lemma LengthValue()
    ensures NN == 255
  {}

  // ----- the operations

  // Add and Mul are Xor and Galois, but known by name only: the field laws below are proved from the bits,
  // and everything after them from the laws.

  ghost predicate IsXor(f: (Sym, Sym) -> Sym) {
    forall a: Sym, b: Sym {:trigger Xor(a, b)} :: f(a, b) == Xor(a, b)
  }

  ghost predicate IsGalois(f: (Sym, Sym) -> Sym) {
    forall a: Sym, b: Sym {:trigger Galois(a, b)} :: f(a, b) == Galois(a, b)
  }

  ghost function Addition(): (Sym, Sym) -> Sym {
    assert IsXor(Xor);
    var f: (Sym, Sym) -> Sym :| IsXor(f);
    f
  }

  ghost function Multiplication(): (Sym, Sym) -> Sym {
    assert IsGalois(Galois);
    var f: (Sym, Sym) -> Sym :| IsGalois(f);
    f
  }

  ghost function Add(a: Sym, b: Sym): Sym {
    Addition()(a, b)
  }

  ghost function Mul(a: Sym, b: Sym): Sym {
    Multiplication()(a, b)
  }

  lemma AddIs(a: Sym, b: Sym)
    ensures Add(a, b) == Xor(a, b)
  {
    hide Xor;
  }

  lemma MulIs(a: Sym, b: Sym)
    ensures Mul(a, b) == Galois(a, b)
  {
    hide Galois;
  }

  /** What the code computes are the operations of the field. */
  lemma FieldOperations()
    ensures forall a: Sym, b: Sym {:trigger Xor(a, b)} :: Xor(a, b) == Add(a, b)
    ensures forall a: Sym, b: Sym {:trigger Galois(a, b)} :: Galois(a, b) == Mul(a, b)
  {
    hide Xor, Galois;
  }

  /** The n-fold product of the primitive element 2. */
  ghost function Exp(n: nat): Sym {
    if n == 0 then 1 else Mul(2, Exp(n - 1))
  }

  // ----- the additive group

  lemma AddComm(a: Sym, b: Sym)
    ensures Add(a, b) == Add(b, a)
  {
    AddIs(a, b);
    AddIs(b, a);
    hide Bits, Pack;
    assert Plus(Bits(a), Bits(b)) == Plus(Bits(b), Bits(a));
  }

  lemma AddAssoc(a: Sym, b: Sym, c: Sym)
    ensures Add(Add(a, b), c) == Add(a, Add(b, c))
  {
    AddIs(a, b);
    AddIs(b, c);
    AddIs(Xor(a, b), c);
    AddIs(a, Xor(b, c));
    hide Add;
    hide Bits, Pack, Plus;
    var x, y, z := Bits(a), Bits(b), Bits(c);
    BitsPack(Plus(x, y));
    BitsPack(Plus(y, z));
    PlusAssoc(x, y, z);
  }

  lemma AddZero(a: Sym)
    ensures Add(a, 0) == a && Add(0, a) == a && Add(a, a) == 0
  {
    AddIs(a, 0);
    AddIs(0, a);
    AddIs(a, a);
    PackBits(a);
    PackBits(0);
    BitsOfUnits();
    hide Bits, Pack;
    var x, o := Bits(a), OneHot(0, false);
    assert Plus(x, o) == x && Plus(o, x) == x && Plus(x, x) == o;
  }

  /** The middle two of four summands change places. */
  lemma AddSwap(a: Sym, b: Sym, c: Sym, d: Sym)
    ensures Add(Add(a, b), Add(c, d)) == Add(Add(a, c), Add(b, d))
  {
    hide *;
    AddAssoc(a, b, Add(c, d));
    AddAssoc(b, c, d);
    AddComm(b, c);
    AddAssoc(c, b, d);
    AddAssoc(a, c, Add(b, d));
  }

  lemma AddCancel(a: Sym, b: Sym)
    ensures Add(Add(a, b), b) == a
    ensures Add(a, b) == 0 <==> a == b
  {
    hide *;
    AddAssoc(a, b, b);
    AddZero(a);
    AddZero(b);
  }

  // ----- multiplication by the primitive element

  lemma MulUnits(a: Sym)
    ensures Mul(0, a) == 0 && Mul(a, 0) == 0 && Mul(1, a) == a
  {
    MulIs(0, a);
    MulIs(a, 0);
    MulIs(1, a);
    hide Bits, Product, Pack;
    BitsOfUnits();
    ProductNone(Bits(a));
    ProductOne(Bits(a));
    PackBits(a);
    PackBits(0);
  }

  lemma ClearTop(a: Sym)
    requires a >= 128
    ensures Xor(a, 128) < 128
  {
    BitsOfUnits();
    TopBit(a);
    BitsPack(Plus(Bits(a), Bits(128)));
    TopBit(Xor(a, 128));
    hide Bits, Pack;
  }

  lemma GaloisTwo(a: Sym)
    ensures a < 128 ==> Galois(2, a) == 2 * a
    ensures a >= 128 ==> Xor(a, 128) < 128 && Galois(2, a) == Xor(29, 2 * Xor(a, 128))
  {
    hide Product, Bits, Pack;
    ProductTwo(Bits(a));
    if a < 128 {
      ShiftLeft(a);
      PackBits(2 * a);
    } else {
      ClearTop(a);
      var c := Xor(a, 128);
      BitsOfUnits();
      BitsPack(Plus(Bits(a), Bits(128)));
      ShiftLeft(c);
    }
  }

  /** The rule that generate_gf applies to the previous table entry. */
  lemma MulTwo(a: Sym)
    ensures a < 128 ==> Mul(2, a) == 2 * a
    ensures a >= 128 ==> Add(a, 128) < 128 && Mul(2, a) == Add(29, 2 * Add(a, 128))
  {
    hide *;
    GaloisTwo(a);
    MulIs(2, a);
    if a >= 128 {
      AddIs(a, 128);
      AddIs(29, 2 * Xor(a, 128));
    }
  }

  lemma MulTwoAdd(a: Sym, b: Sym)
    ensures Mul(2, Add(a, b)) == Add(Mul(2, a), Mul(2, b))
  {
    AddIs(a, b);
    MulIs(2, Xor(a, b));
    MulIs(2, a);
    MulIs(2, b);
    AddIs(Galois(2, a), Galois(2, b));
    hide Add, Mul;
    hide Bits, Product, Pack, Plus, Xtime;
    var x, y := Bits(a), Bits(b);
    BitsPack(Plus(x, y));
    ProductTwo(Plus(x, y));
    ProductTwo(x);
    ProductTwo(y);
    XtimePlus(x, y);
    BitsPack(Xtime(x));
    BitsPack(Xtime(y));
  }

  lemma MulShift(a: Sym, b: Sym)
    ensures Mul(Mul(2, a), b) == Mul(2, Mul(a, b))
  {
    MulIs(2, a);
    MulIs(Galois(2, a), b);
    MulIs(a, b);
    MulIs(2, Galois(a, b));
    hide Mul;
    hide Bits, Product, Pack, Xtime;
    var x, y := Bits(a), Bits(b);
    ProductTwo(x);
    BitsPack(Xtime(x));
    ProductShift(x, y);
    BitsPack(Product(x, y));
    ProductTwo(Product(x, y));
  }

  // ----- powers of the primitive element

  lemma ExpStep(n: nat)
    ensures Exp(0) == 1 && Exp(n + 1) == Mul(2, Exp(n))
  {
    hide Mul;
  }

  lemma {:induction false} ExpShift(i: nat, b: Sym)
    ensures Mul(Exp(i + 1), b) == Mul(2, Mul(Exp(i), b))
  {
    hide *;
    ExpStep(i);
    MulShift(Exp(i), b);
  }

  /** Products of table entries are sums of indices. */
  lemma {:induction false} ExpAdd(i: nat, j: nat)
    ensures Mul(Exp(i), Exp(j)) == Exp(i + j)
  {
    hide *;
    ExpStep(i + j);
    if i == 0 {
      MulUnits(Exp(j));
    } else {
      ExpAdd(i - 1, j);
      ExpShift(i - 1, Exp(j));
      ExpStep(i - 1 + j);
    }
  }

  lemma {:induction false} ExpAdditive(i: nat, a: Sym, b: Sym)
    ensures Mul(Exp(i), Add(a, b)) == Add(Mul(Exp(i), a), Mul(Exp(i), b))
  {
    hide *;
    ExpStep(0);
    if i == 0 {
      MulUnits(a);
      MulUnits(b);
      MulUnits(Add(a, b));
    } else {
      ExpAdditive(i - 1, a, b);
      ExpShift(i - 1, a);
      ExpShift(i - 1, b);
      ExpShift(i - 1, Add(a, b));
      MulTwoAdd(Mul(Exp(i - 1), a), Mul(Exp(i - 1), b));
    }
  }

  lemma ExpNonzero(n: nat)
    ensures Exp(n) != 0
  {
    hide *;
    ExpStep(0);
    if n > 0 {
      ExpNonzero(n - 1);
      ExpStep(n - 1);
      if Exp(n) == 0 {
        MulUnits(2);
        DoubleCancel(Exp(n - 1), 0);
      }
    }
  }

  lemma XtimeCancel(a: Octet, b: Octet)
    requires Xtime(a) == Xtime(b)
    ensures a == b
  {
    assert a.x7 == b.x7;
  }

  lemma DoubleCancel(a: Sym, b: Sym)
    requires Mul(2, a) == Mul(2, b)
    ensures a == b
  {
    MulIs(2, a);
    MulIs(2, b);
    hide Bits, Product, Pack, Xtime;
    ProductTwo(Bits(a));
    ProductTwo(Bits(b));
    BitsPack(Xtime(Bits(a)));
    BitsPack(Xtime(Bits(b)));
    XtimeCancel(Bits(a), Bits(b));
    PackBits(a);
    PackBits(b);
  }

  // ----- the primitive element has order 255

  lemma BitsExpAdd(i: nat, j: nat)
    ensures Bits(Exp(i + j)) == Product(Bits(Exp(i)), Bits(Exp(j)))
  {
    MulIs(Exp(i), Exp(j));
    ExpAdd(i, j);
    hide Exp, Product, Bits, Pack;
    BitsPack(Product(Bits(Exp(i)), Bits(Exp(j))));
  }

  lemma BitsExpStep(n: nat)
    ensures Bits(Exp(n + 1)) == Xtime(Bits(Exp(n)))
  {
    MulIs(2, Exp(n));
    ExpStep(n);
    hide Exp, Product, Bits, Pack;
    ProductTwo(Bits(Exp(n)));
    BitsPack(Xtime(Bits(Exp(n))));
  }

  lemma XtimeOneHot(n: nat)
    requires n < 7
    ensures Xtime(OneHot(n, true)) == OneHot(n + 1, true)
  {}

  /** The low powers have a single bit set. */
  lemma {:induction false} LowPowers(n: nat)
    requires n < 8
    ensures Bits(Exp(n)) == OneHot(n, true)
  {
    hide *;
    if n == 0 {
      BitsOfUnits();
      ExpStep(0);
    } else {
      LowPowers(n - 1);
      BitsExpStep(n - 1);
      XtimeOneHot(n - 1);
    }
  }

  lemma SquaredPowers()
    ensures Bits(Exp(16)) == Octet(false, false, true, true, false, false, true, false)
    ensures Bits(Exp(32)) == Octet(true, false, true, true, true, false, false, true)
    ensures Bits(Exp(64)) == Octet(true, true, true, true, true, false, true, false)
    ensures Bits(Exp(256)) == OneHot(1, true)
  {
    hide Bits, Exp, Product;
    LowPowers(4);
    BitsExpAdd(4, 4);
    Product4And4(Bits(Exp(4)), Bits(Exp(4)));
    BitsExpAdd(8, 8);
    Product8And8(Bits(Exp(8)), Bits(Exp(8)));
    BitsExpAdd(16, 16);
    Product16And16(Bits(Exp(16)), Bits(Exp(16)));
    BitsExpAdd(32, 32);
    Product32And32(Bits(Exp(32)), Bits(Exp(32)));
    BitsExpAdd(64, 64);
    Product64And64(Bits(Exp(64)), Bits(Exp(64)));
    BitsExpAdd(128, 128);
    Product128And128(Bits(Exp(128)), Bits(Exp(128)));
  }

  lemma Product4And4(a: Octet, b: Octet)
    requires a == Octet(false, false, false, false, true, false, false, false)
    requires b == Octet(false, false, false, false, true, false, false, false)
    ensures Product(a, b) == Octet(true, false, true, true, true, false, false, false)
  {}

  lemma Product8And8(a: Octet, b: Octet)
    requires a == Octet(true, false, true, true, true, false, false, false)
    requires b == Octet(true, false, true, true, true, false, false, false)
    ensures Product(a, b) == Octet(false, false, true, true, false, false, true, false)
  {}

  lemma Product16And16(a: Octet, b: Octet)
    requires a == Octet(false, false, true, true, false, false, true, false)
    requires b == Octet(false, false, true, true, false, false, true, false)
    ensures Product(a, b) == Octet(true, false, true, true, true, false, false, true)
  {}

  lemma Product32And32(a: Octet, b: Octet)
    requires a == Octet(true, false, true, true, true, false, false, true)
    requires b == Octet(true, false, true, true, true, false, false, true)
    ensures Product(a, b) == Octet(true, true, true, true, true, false, true, false)
  {}

  lemma Product64And64(a: Octet, b: Octet)
    requires a == Octet(true, true, true, true, true, false, true, false)
    requires b == Octet(true, true, true, true, true, false, true, false)
    ensures Product(a, b) == Octet(true, false, true, false, false, false, false, true)
  {}

  lemma Product128And128(a: Octet, b: Octet)
    requires a == Octet(true, false, true, false, false, false, false, true)
    requires b == Octet(true, false, true, false, false, false, false, true)
    ensures Product(a, b) == Octet(false, true, false, false, false, false, false, false)
  {}

  lemma CompositePowers()
    ensures Bits(Exp(51)) == Octet(false, true, false, true, false, false, false, false)
    ensures Bits(Exp(85)) == Octet(false, true, true, false, true, false, true, true)
  {
    hide Bits, Exp, Product;
    SquaredPowers();
    LowPowers(3);
    LowPowers(5);
    BitsExpAdd(32, 16);
    Product32And16(Bits(Exp(32)), Bits(Exp(16)));
    BitsExpAdd(48, 3);
    Product48And3(Bits(Exp(48)), Bits(Exp(3)));
    BitsExpAdd(64, 16);
    Product64And16(Bits(Exp(64)), Bits(Exp(16)));
    BitsExpAdd(80, 5);
    Product80And5(Bits(Exp(80)), Bits(Exp(5)));
  }

  lemma Product32And16(a: Octet, b: Octet)
    requires a == Octet(true, false, true, true, true, false, false, true)
    requires b == Octet(false, false, true, true, false, false, true, false)
    ensures Product(a, b) == Octet(false, true, true, false, false, false, true, false)
  {}

  lemma Product48And3(a: Octet, b: Octet)
    requires a == Octet(false, true, true, false, false, false, true, false)
    requires b == Octet(false, false, false, true, false, false, false, false)
    ensures Product(a, b) == Octet(false, true, false, true, false, false, false, false)
  {}

  lemma Product64And16(a: Octet, b: Octet)
    requires a == Octet(true, true, true, true, true, false, true, false)
    requires b == Octet(false, false, true, true, false, false, true, false)
    ensures Product(a, b) == Octet(true, false, true, true, true, true, true, true)
  {}

  lemma Product80And5(a: Octet, b: Octet)
    requires a == Octet(true, false, true, true, true, true, true, true)
    requires b == Octet(false, false, false, false, false, true, false, false)
    ensures Product(a, b) == Octet(false, true, true, false, true, false, true, true)
  {}

  /** The order of the primitive element divides 255 but none of 15, 51 and 85. */
  lemma OrderFacts()
    ensures Exp(255) == 1 && Exp(15) != 1 && Exp(51) != 1 && Exp(85) != 1
  {
    hide Bits, Exp;
    BitsOfUnits();
    SquaredPowers();
    CompositePowers();
    LowPowers(1);
    PackBits(Exp(256));
    PackBits(Exp(1));
    ExpStep(0);
    ExpStep(255);
    ExpStep(15);
    DoubleCancel(Exp(255), 1);
  }

  lemma {:induction false} ExpMultiple(m: nat, k: nat, n: nat)
    requires Exp(m) == 1 && n == k * m
    ensures Exp(n) == 1
  {
    hide *;
    ExpStep(0);
    if k > 0 {
      assert n - m == (k - 1) * m;
      assert (k - 1) * m >= 0;
      ExpMultiple(m, k - 1, n - m);
      ExpAdd(m, n - m);
      MulUnits(1);
    }
  }

  /** Euclid by subtraction: the exponents of 1 are closed under greatest common divisors. */
  lemma {:induction false} CommonPeriod(a: nat, b: nat) returns (g: nat, p: nat, q: nat)
    requires a > 0 && Exp(a) == 1 && Exp(b) == 1
    ensures g > 0 && Exp(g) == 1 && a == p * g && b == q * g
    decreases a + b
  {
    hide *;
    ExpStep(0);
    if b == 0 {
      g, p, q := a, 1, 0;
    } else if a <= b {
      ExpAdd(a, b - a);
      MulUnits(Exp(b - a));
      var q';
      g, p, q' := CommonPeriod(a, b - a);
      q := p + q';
      assert q * g == p * g + q' * g;
    } else {
      ExpAdd(b, a - b);
      MulUnits(Exp(a - b));
      var p';
      g, p', q := CommonPeriod(a - b, b);
      p := p' + q;
      assert p * g == p' * g + q * g;
    }
  }

  lemma SmallDivisors(q: nat, g: nat)
    requires q * g == 255 && 0 <= g < 16
    ensures g == 1 || g == 3 || g == 5 || g == 15
  {
    assert g == 0 ==> q * 0 == q * g;
    assert g == 2 ==> q * 2 == q * g;
    assert g == 4 ==> q * 4 == q * g;
    assert g == 6 ==> q * 6 == q * g;
    assert g == 7 ==> q * 7 == q * g;
    assert g == 8 ==> q * 8 == q * g;
    assert g == 9 ==> q * 9 == q * g;
    assert g == 10 ==> q * 10 == q * g;
    assert g == 11 ==> q * 11 == q * g;
    assert g == 12 ==> q * 12 == q * g;
    assert g == 13 ==> q * 13 == q * g;
    assert g == 14 ==> q * 14 == q * g;
  }

  /** A divisor of 255 other than 255 itself divides 15, 51 or 85. */
  lemma Divisors255(q: nat, g: nat)
    requires q * g == 255 && q > 1
    ensures exists k :: k * g == 15 || k * g == 51 || k * g == 85
  {
    if g < 16 {
      SmallDivisors(q, g);
      assert g == 1 ==> 15 * g == 15;
      assert g == 3 ==> 5 * g == 15;
      assert g == 5 ==> 3 * g == 15;
      assert g == 15 ==> 1 * g == 15;
    } else {
      assert q < 16;
      SmallDivisors(g, q);
      assert q == 3 ==> 1 * g == 85;
      assert q == 5 ==> 1 * g == 51;
      assert q == 15 ==> 3 * g == 51;
    }
  }

  /** The primitive element has order 255. */
  lemma Order(k: nat)
    requires 0 < k < NN
    ensures Exp(k) != 1
  {
    LengthValue();
    hide *;
    OrderFacts();
    if Exp(k) == 1 {
      var g, p, q := CommonPeriod(k, 255);
      if q == 1 {
        ProductAtLeast(p, g);
        assert false;
      } else {
        Divisors255(q, g);
        var m :| m * g == 15 || m * g == 51 || m * g == 85;
        if m * g == 15 {
          ExpMultiple(g, m, 15);
        } else if m * g == 51 {
          ExpMultiple(g, m, 51);
        } else {
          ExpMultiple(g, m, 85);
        }
      }
    }
  }

  lemma ProductAtLeast(p: nat, g: nat)
    ensures p * g == 0 || p * g >= g
  {}

  // ----- every nonzero symbol is a power of the primitive element

  lemma {:induction false} ExpCancel(i: nat, a: Sym, b: Sym)
    requires Mul(Exp(i), a) == Mul(Exp(i), b)
    ensures a == b
  {
    hide *;
    ExpStep(0);
    if i == 0 {
      MulUnits(a);
      MulUnits(b);
    } else {
      ExpShift(i - 1, a);
      ExpShift(i - 1, b);
      DoubleCancel(Mul(Exp(i - 1), a), Mul(Exp(i - 1), b));
      ExpCancel(i - 1, a, b);
    }
  }

  lemma ExpInjective(i: nat, j: nat)
    requires i < NN && j < NN && Exp(i) == Exp(j)
    ensures i == j
  {
    hide *;
    if i < j {
      ExpDistinct(i, j);
    } else if j < i {
      ExpDistinct(j, i);
    }
  }

  lemma ExpDistinct(i: nat, j: nat)
    requires i < j < NN
    ensures Exp(i) != Exp(j)
  {
    hide *;
    ExpAdd(i, j - i);
    ExpAdd(i, 0);
    ExpStep(0);
    Order(j - i);
    if Exp(i) == Exp(j) {
      ExpCancel(i, Exp(j - i), Exp(0));
    }
  }

  ghost function Powers(n: nat): set<int> {
    if n == 0 then {} else Powers(n - 1) + {Exp(n - 1)}
  }

  lemma {:induction false} PowersMember(n: nat, x: int) returns (k: nat)
    requires x in Powers(n)
    ensures k < n && Exp(k) == x
  {
    hide Mul;
    if x == Exp(n - 1) {
      k := n - 1;
    } else {
      k := PowersMember(n - 1, x);
    }
  }

  lemma {:induction false} PowersSize(n: nat)
    requires n <= NN
    ensures |Powers(n)| == n
  {
    hide Mul;
    if n > 0 {
      PowersSize(n - 1);
      if Exp(n - 1) in Powers(n - 1) {
        var k := PowersMember(n - 1, Exp(n - 1));
        ExpDistinct(k, n - 1);
      }
    }
  }

  ghost function Range(n: nat): (r: set<int>)
    ensures forall x :: x in r <==> 1 <= x <= n
    ensures |r| == n
  {
    if n == 0 then {} else Range(n - 1) + {n}
  }

  lemma SubsetSize(a: set<int>, b: set<int>)
    requires a <= b
    ensures |a| <= |b|
  {
    assert b == a + (b - a);
  }

  lemma ExpOnto(a: Sym)
    requires a != 0
    ensures exists k :: 0 <= k < NN && Exp(k) == a
  {
    hide Exp, Powers;
    PowersSize(NN);
    var p, r := Powers(NN), Range(NN);
    forall x | x in p ensures x in r {
      var k := PowersMember(NN, x);
      ExpNonzero(k);
    }
    if a in p {
      var k := PowersMember(NN, a);
    } else {
      SubsetSize(p + {a}, r);
    }
  }

  /** The index form of a nonzero symbol. */
  ghost function Log(a: Sym): (k: nat)
    requires a != 0
    ensures k < NN && Exp(k) == a
  {
    ExpOnto(a);
    var k :| 0 <= k < NN && Exp(k) == a;
    k
  }

  lemma LogExp(k: nat)
    requires k < NN
    ensures Exp(k) != 0 && Log(Exp(k)) == k
  {
    hide *;
    ExpNonzero(k);
    ExpInjective(k, Log(Exp(k)));
  }

  lemma {:induction false} ExpPeriod(n: nat)
    ensures Exp(n % NN) == Exp(n)
  {
    hide Exp, Mul;
    if n >= NN {
      OrderFacts();
      ExpAdd(255, n - 255);
      MulUnits(Exp(n - 255));
      ExpPeriod(n - 255);
      assert n % NN == (n - 255) % NN;
    }
  }

  // ----- the field laws

  lemma MulComm(a: Sym, b: Sym)
    ensures Mul(a, b) == Mul(b, a)
  {
    hide *;
    MulUnits(a);
    MulUnits(b);
    if a != 0 && b != 0 {
      ExpAdd(Log(a), Log(b));
      ExpAdd(Log(b), Log(a));
    }
  }

  lemma MulAssoc(a: Sym, b: Sym, c: Sym)
    ensures Mul(Mul(a, b), c) == Mul(a, Mul(b, c))
  {
    hide *;
    MulUnits(a); MulUnits(b); MulUnits(c); MulUnits(Mul(a, b)); MulUnits(Mul(b, c));
    if a != 0 && b != 0 && c != 0 {
      var i, j, k := Log(a), Log(b), Log(c);
      ExpAdd(i, j); ExpAdd(i + j, k); ExpAdd(j, k); ExpAdd(i, j + k);
    }
  }

  lemma Distribute(a: Sym, b: Sym, c: Sym)
    ensures Mul(a, Add(b, c)) == Add(Mul(a, b), Mul(a, c))
  {
    hide *;
    if a == 0 {
      MulUnits(b); MulUnits(c); MulUnits(Add(b, c)); AddZero(0);
    } else {
      ExpAdditive(Log(a), b, c);
    }
  }

  lemma NoZeroDivisors(a: Sym, b: Sym)
    ensures Mul(a, b) == 0 <==> a == 0 || b == 0
  {
    hide *;
    MulUnits(a);
    MulUnits(b);
    if a != 0 && b != 0 {
      ExpAdd(Log(a), Log(b));
      ExpNonzero(Log(a) + Log(b));
    }
  }
}
