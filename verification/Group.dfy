/** A module over the integers modulo a prime: all that the ring signatures need of ristretto255
    (section 4 of RFC 9496). */
module Group {

  datatype Group<!P> = Group(order: nat, base: P, zero: P, add: (P, P) -> P, mul: (int, P) -> P)

  ghost predicate IsPrime(l: nat) {
    l >= 2 && forall d :: 1 < d < l ==> l % d != 0
  }

  predicate AddComm<P(==)>(g: Group<P>, p: P, q: P) { g.add(p, q) == g.add(q, p) }
  predicate AddAssoc<P(==)>(g: Group<P>, p: P, q: P, r: P) { g.add(g.add(p, q), r) == g.add(p, g.add(q, r)) }
  predicate AddZero<P(==)>(g: Group<P>, p: P) { g.add(p, g.zero) == p }
  predicate MulOne<P(==)>(g: Group<P>, p: P) { g.mul(1, p) == p }
  predicate MulSum<P(==)>(g: Group<P>, a: int, b: int, p: P) { g.mul(a + b, p) == g.add(g.mul(a, p), g.mul(b, p)) }
  predicate MulMul<P(==)>(g: Group<P>, a: int, b: int, p: P) { g.mul(a * b, p) == g.mul(a, g.mul(b, p)) }
  predicate MulOrder<P(==)>(g: Group<P>, p: P) { g.mul(g.order, p) == g.zero }

  /** The laws, each used only where a proof names it. */
  ghost predicate Lawful<P(!new)>(g: Group<P>) {
    && IsPrime(g.order)
    && g.base != g.zero
    && (forall p, q {:trigger AddComm(g, p, q)} :: AddComm(g, p, q))
    && (forall p, q, r {:trigger AddAssoc(g, p, q, r)} :: AddAssoc(g, p, q, r))
    && (forall p {:trigger AddZero(g, p)} :: AddZero(g, p))
    && (forall p {:trigger MulOne(g, p)} :: MulOne(g, p))
    && (forall a, b, p {:trigger MulSum(g, a, b, p)} :: MulSum(g, a, b, p))
    && (forall a, b, p {:trigger MulMul(g, a, b, p)} :: MulMul(g, a, b, p))
    && (forall p {:trigger MulOrder(g, p)} :: MulOrder(g, p))
  }

  // ----- The prime field of scalars -----

  lemma ModIs(l: nat, k: int, r: nat)
    requires r < l
    ensures (l * k + r) % l == r
  {
    var q := (l * k + r) / l;
    var m := (l * k + r) % l;
    assert l * k + r == l * q + m;
    assert l * (k - q) == m - r;
    assert l * (q - k) == -(l * (k - q));
    if k - q >= 1 {
      MulMonotone(l, 1, k - q);
    } else if k - q <= -1 {
      MulMonotone(l, 1, q - k);
    }
  }

  lemma MulMonotone(l: nat, a: int, b: int)
    requires a <= b
    ensures l * a <= l * b
  {}

  /** Bezout's identity, with the two cofactors. */
  lemma {:induction false} Bezout(a: nat, b: nat) returns (x: int, y: int, g: nat, s: nat, t: nat)
    requires a > 0
    ensures g > 0 && a * x + b * y == g
    ensures a == g * s && b == g * t
    decreases b
  {
    if b == 0 {
      x, y, g, s, t := 1, 0, a, 1, 0;
    } else {
      var q, m := a / b, a % b;
      assert a == b * q + m;
      var x', y', s', t';
      x', y', g, s', t' := Bezout(b, m);
      x, y := y', x' - q * y';
      s, t := s' * q + t', s';
      calc {
        a * x + b * y;
        (b * q + m) * y' + b * (x' - q * y');
        { BezoutStep(b, q, m, x', y'); }
        b * x' + m * y';
      }
      calc {
        g * s;
        { FactorStep(g, s', q, t'); }
        (g * s') * q + g * t';
        b * q + m;
      }
    }
  }

  lemma BezoutStep(b: int, q: int, m: int, x: int, y: int)
    ensures (b * q + m) * y + b * (x - q * y) == b * x + m * y
  {
    assert (b * q + m) * y == b * q * y + m * y;
    assert b * (x - q * y) == b * x - b * (q * y);
    assert b * q * y == b * (q * y);
  }

  lemma FactorStep(g: int, s: int, q: int, t: int)
    ensures g * (s * q + t) == (g * s) * q + g * t
  {
    assert g * (s * q + t) == g * (s * q) + g * t;
    assert g * (s * q) == (g * s) * q;
  }

  /** Every scalar that is not a multiple of the order has an inverse. */
  lemma Inverse(a: int, l: nat) returns (i: int)
    requires IsPrime(l) && a % l != 0
    ensures (a * i) % l == 1
  {
    var q, m := a / l, a % l;
    var x, y, g, s, t := Bezout(l, m);
    assert g * 0 == 0;
    assert g <= m by { MulMonotone(g, 1, t); }
    ModIs(g, s, 0);
    assert l % g == 0 && g == 1;
    i := y;
    calc {
      a * y;
      { assert a == l * q + m; }
      (l * q + m) * y;
      { BezoutStep(l, q, m, 0, y); assert l * (0 - q * y) == -(l * (q * y)); }
      l * (q * y) + m * y;
      { assert m * y == 1 - l * x; }
      l * (q * y) - l * x + 1;
      { assert l * (q * y - x) == l * (q * y) - l * x; }
      l * (q * y - x) + 1;
    }
    ModIs(l, q * y - x, 1);
  }

  // ----- Consequences of the laws -----

  lemma MulZeroScalar<P(!new)>(g: Group<P>, p: P)
    requires Lawful(g)
    ensures g.mul(0, p) == g.zero
  {
    assert MulMul(g, g.order, 0, p);
    assert MulOrder(g, g.mul(0, p));
    assert g.order * 0 == 0;
  }

  lemma MulIdentity<P(!new)>(g: Group<P>, a: int)
    requires Lawful(g)
    ensures g.mul(a, g.zero) == g.zero
  {
    assert MulOrder(g, g.base);
    assert MulMul(g, a, g.order, g.base);
    assert a * g.order == g.order * a;
    assert MulMul(g, g.order, a, g.base);
    assert MulOrder(g, g.mul(a, g.base));
  }

  lemma MulMultiple<P(!new)>(g: Group<P>, k: int, p: P)
    requires Lawful(g)
    ensures g.mul(g.order * k, p) == g.zero
  {
    assert MulMul(g, g.order, k, p);
    assert MulOrder(g, g.mul(k, p));
  }

  lemma ZeroAdd<P(!new)>(g: Group<P>, p: P)
    requires Lawful(g)
    ensures g.add(g.zero, p) == p && g.add(p, g.zero) == p
  {
    assert AddZero(g, p);
    assert AddComm(g, g.zero, p);
  }

  /** Scalars act through their residue. */
  lemma MulMod<P(!new)>(g: Group<P>, a: int, p: P)
    requires Lawful(g)
    ensures g.mul(a % g.order, p) == g.mul(a, p)
  {
    var k, m := a / g.order, a % g.order;
    assert a == g.order * k + m;
    assert MulSum(g, g.order * k, m, p);
    MulMultiple(g, k, p);
    ZeroAdd(g, g.mul(m, p));
  }

  /** No point but the identity is killed by a scalar that is not a multiple of the order. */
  lemma NoTorsion<P(!new)>(g: Group<P>, a: int, p: P)
    requires Lawful(g) && g.mul(a, p) == g.zero
    ensures a % g.order == 0 || p == g.zero
  {
    if a % g.order != 0 {
      var i := Inverse(a, g.order);
      assert MulOne(g, p);
      MulMod(g, a * i, p);
      assert a * i == i * a;
      assert MulMul(g, i, a, p);
      MulIdentity(g, i);
    }
  }

  // ----- A concrete instance: the scalars themselves, with base point 1 -----

  const SMALL_PRIME: nat := 13
  type Residue = n: nat | n < SMALL_PRIME

  function Mod(a: int): Residue { a % SMALL_PRIME }

  function Residues(): Group<Residue> {
    Group(SMALL_PRIME, 1, 0, (p: Residue, q: Residue) => Mod(p + q), (a: int, p: Residue) => Mod(a * p))
  }

  lemma ModShift(a: int, k: int)
    ensures Mod(a + SMALL_PRIME * k) == Mod(a)
  {}

  lemma ModMul(a: int, b: int)
    ensures Mod(a * Mod(b)) == Mod(a * b)
  {
    var q := b / SMALL_PRIME;
    assert b == SMALL_PRIME * q + Mod(b);
    calc {
      a * b;
      a * (SMALL_PRIME * q + Mod(b));
      a * Mod(b) + SMALL_PRIME * (a * q);
    }
    ModShift(a * Mod(b), a * q);
  }

  lemma ModSum(a: int, b: int)
    ensures Mod(a + b) == Mod(Mod(a) + Mod(b))
  {
    var q, r := a / SMALL_PRIME, b / SMALL_PRIME;
    assert a + b == Mod(a) + Mod(b) + SMALL_PRIME * (q + r);
    ModShift(Mod(a) + Mod(b), q + r);
  }

  lemma SumLaw(a: int, b: int, p: Residue)
    ensures MulSum(Residues(), a, b, p)
  {
    assert (a + b) * p == a * p + b * p;
    ModSum(a * p, b * p);
  }

  lemma MulLaw(a: int, b: int, p: Residue)
    ensures MulMul(Residues(), a, b, p)
  {
    ModMul(a, b * p);
    assert a * (b * p) == a * b * p;
  }

  lemma ModAddLeft(a: int, b: int)
    ensures Mod(Mod(a) + b) == Mod(a + b)
  {
    ModShift(a + b, -(a / SMALL_PRIME));
    assert a == Mod(a) + SMALL_PRIME * (a / SMALL_PRIME);
  }

  lemma ModAssociative(a: int, b: int, c: int)
    ensures Mod(Mod(a + b) + c) == Mod(a + Mod(b + c))
  {
    ModAddLeft(a + b, c);
    ModAddLeft(b + c, a);
    assert Mod(b + c) + a == a + Mod(b + c);
  }

  lemma AssocLaw(p: Residue, q: Residue, r: Residue)
    ensures AddAssoc(Residues(), p, q, r)
  {
    var a: int, b: int, c: int := p, q, r;
    ModAssociative(a, b, c);
  }

  lemma SmallPrimeIsPrime()
    ensures IsPrime(SMALL_PRIME)
  {}

  lemma OrderLaw(p: Residue)
    ensures MulOrder(Residues(), p) && MulOne(Residues(), p) && AddZero(Residues(), p)
  {
    ModShift(0, p);
    assert 0 + SMALL_PRIME * p == SMALL_PRIME * p;
    ModShift(p, 0);
  }

  /** The laws are consistent: the integers modulo a prime satisfy them. */
  lemma ResiduesLawful()
    ensures Lawful(Residues())
  {
    SmallPrimeIsPrime();
    forall p, q: Residue ensures AddComm(Residues(), p, q) {}
    forall p, q, r: Residue ensures AddAssoc(Residues(), p, q, r) { AssocLaw(p, q, r); }
    forall a, b, p: Residue ensures MulSum(Residues(), a, b, p) { SumLaw(a, b, p); }
    forall a, b, p: Residue ensures MulMul(Residues(), a, b, p) { MulLaw(a, b, p); }
    forall p: Residue ensures MulOrder(Residues(), p) && MulOne(Residues(), p) && AddZero(Residues(), p) { OrderLaw(p); }
  }
}
