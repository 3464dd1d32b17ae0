/** Cyclic groups of prime order, as far as Schnorr proofs need them. */
module Groups {
  import opened ModArith

  datatype Group<!T> = Group(zero: T, gen: T, order: int, add: (T, T) -> T, has: T -> bool)

  /** x added to itself k times. */
  ghost function Times<T>(g: Group<T>, x: T, k: nat): T {
    if k == 0 then g.zero else g.add(Times(g, x, k - 1), x)
  }

  ghost predicate Associates<T>(g: Group<T>, a: T, b: T, d: T) {
    g.add(g.add(a, b), d) == g.add(a, g.add(b, d))
  }

  ghost predicate IsGroup<T(!new)>(g: Group<T>) {
    && g.has(g.zero)
    && (forall a, b {:trigger g.add(a, b)} :: g.has(a) && g.has(b) ==> g.has(g.add(a, b)))
    && (forall a, b, d {:trigger Associates(g, a, b, d)} :: g.has(a) && g.has(b) && g.has(d) ==> Associates(g, a, b, d))
    && (forall a {:trigger g.add(a, g.zero)} :: g.has(a) ==> g.add(a, g.zero) == a)
    && (forall a {:trigger g.add(g.zero, a)} :: g.has(a) ==> g.add(g.zero, a) == a)
  }

  /** The multiples of gen below the order are all different, and they are the whole group. */
  ghost predicate CyclicOfPrimeOrder<T(!new)>(g: Group<T>) {
    && IsGroup(g) && Prime(g.order) && g.has(g.gen)
    && Times(g, g.gen, g.order) == g.zero
    && (forall k {:trigger Times(g, g.gen, k)} :: 0 < k < g.order ==> Times(g, g.gen, k) != g.zero)
    && (forall x {:trigger HasExponent(g, x)} :: g.has(x) ==> HasExponent(g, x))
  }

  ghost predicate HasExponent<T>(g: Group<T>, x: T) {
    exists k {:trigger Times(g, g.gen, k)} :: 0 <= k < g.order && x == Times(g, g.gen, k)
  }

  lemma {:induction false} TimesHas<T(!new)>(g: Group<T>, x: T, k: nat)
    requires IsGroup(g) && g.has(x)
    ensures g.has(Times(g, x, k))
  {
    if k > 0 { TimesHas(g, x, k - 1); }
  }

  lemma {:induction false} TimesAdd<T(!new)>(g: Group<T>, x: T, a: nat, b: nat)
    requires IsGroup(g) && g.has(x)
    ensures Times(g, x, a + b) == g.add(Times(g, x, a), Times(g, x, b))
  {
    TimesHas(g, x, a);
    if b > 0 {
      TimesAdd(g, x, a, b - 1);
      TimesHas(g, x, b - 1);
      assert Times(g, x, a + b) == g.add(Times(g, x, a + (b - 1)), x);
      assert Associates(g, Times(g, x, a), Times(g, x, b - 1), x);
    }
  }

  lemma {:induction false} TimesTimes<T(!new)>(g: Group<T>, x: T, a: nat, b: nat)
    requires IsGroup(g) && g.has(x)
    ensures a * b >= 0 && Times(g, Times(g, x, a), b) == Times(g, x, a * b)
  {
    TimesHas(g, x, a);
    if b == 0 {
      assert a * b == 0;
    } else {
      TimesTimes(g, x, a, b - 1);
      assert a * (b - 1) + a == a * b;
      TimesAdd(g, x, a * (b - 1), a);
    }
  }

  lemma {:induction false} TimesZero<T(!new)>(g: Group<T>, k: nat)
    requires IsGroup(g)
    ensures Times(g, g.zero, k) == g.zero
  {
    if k > 0 { TimesZero(g, k - 1); }
  }

  /** Exponents of the generator count modulo the order. */
  lemma TimesMod<T(!new)>(g: Group<T>, a: nat)
    requires IsGroup(g) && g.has(g.gen) && g.order > 0 && Times(g, g.gen, g.order) == g.zero
    ensures Times(g, g.gen, a) == Times(g, g.gen, a % g.order)
  {
    var n, q, r := g.order, a / g.order, a % g.order;
    assert q >= 0 && a == r + n * q;
    TimesTimes(g, g.gen, n, q);
    TimesZero(g, q);
    TimesAdd(g, g.gen, r, n * q);
    TimesHas(g, g.gen, r);
  }

  /** The difference of two exponents with the same multiple is an exponent of zero. */
  lemma ExponentDifference<T(!new)>(g: Group<T>, a: nat, b: nat)
    requires IsGroup(g) && g.has(g.gen) && a <= b && a <= g.order && Times(g, g.gen, g.order) == g.zero
    requires Times(g, g.gen, a) == Times(g, g.gen, b)
    ensures Times(g, g.gen, b - a) == g.zero
  {
    var back, at, d := Times(g, g.gen, g.order - a), Times(g, g.gen, a), Times(g, g.gen, b - a);
    TimesAdd(g, g.gen, a, b - a);
    TimesAdd(g, g.gen, g.order - a, a);
    TimesHas(g, g.gen, a);
    TimesHas(g, g.gen, b - a);
    TimesHas(g, g.gen, g.order - a);
    CancelLeft(g, back, at, d);
  }

  lemma CancelLeft<T(!new)>(g: Group<T>, back: T, at: T, d: T)
    requires IsGroup(g) && g.has(back) && g.has(at) && g.has(d)
    requires g.add(back, at) == g.zero && g.add(at, d) == at
    ensures d == g.zero
  {
    assert Associates(g, back, at, d);
  }

  /** Equal multiples of the generator have equal exponents below the order. */
  lemma TimesInjective<T(!new)>(g: Group<T>, a: nat, b: nat)
    requires CyclicOfPrimeOrder(g) && a < g.order && b < g.order
    requires Times(g, g.gen, a) == Times(g, g.gen, b)
    ensures a == b
  {
    if a < b { ExponentDifference(g, a, b); }
    if b < a { ExponentDifference(g, b, a); }
  }

  /** Adding s multiples of the generator to e multiples of its x-th multiple. */
  lemma LinearCombination<T(!new)>(g: Group<T>, s: nat, e: nat, x: nat)
    requires IsGroup(g) && g.has(g.gen) && g.order > 0 && Times(g, g.gen, g.order) == g.zero
    ensures e * x >= 0
    ensures g.add(Times(g, g.gen, s), Times(g, Times(g, g.gen, x), e)) == Times(g, g.gen, (s + e * x) % g.order)
  {
    var m := x * e;
    TimesTimes(g, g.gen, x, e);
    assert m == e * x;
    TimesAdd(g, g.gen, s, m);
    TimesMod(g, s + m);
  }

  lemma ExponentOf<T(!new)>(g: Group<T>, x: T) returns (k: nat)
    requires CyclicOfPrimeOrder(g) && g.has(x)
    ensures k < g.order && x == Times(g, g.gen, k)
  {
    assert HasExponent(g, x);
    k :| 0 <= k < g.order && x == Times(g, g.gen, k);
  }
}
