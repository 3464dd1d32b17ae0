/** A curve that meets the hypotheses of the Schnorr theorems: y^2 = x^3 + 7 over 13 elements, of order 7. */
module SmallCurve {
  import opened Bytes
  import opened Codecs
  import opened ModArith
  import opened Groups
  import opened Schnorr

  // ---------------------------------------------------------------- groups by logarithm

  /** The elements are numbered by the residues modulo the order. */
  ghost predicate Labelled<T(!new)>(g: Group<T>, multiple: int -> T, log: T -> int) {
    && g.order > 1 && g.zero == multiple(0) && g.gen == multiple(1)
    && (forall k {:trigger multiple(k)} :: 0 <= k < g.order ==> log(multiple(k)) == k)
    && (forall x {:trigger log(x)} :: 0 <= log(x) < g.order)
    && (forall x {:trigger g.has(x)} :: g.has(x) <==> x == multiple(log(x)))
  }

  /** Addition adds the numbers. */
  ghost predicate AddsLabels<T(!new)>(g: Group<T>, multiple: int -> T, log: T -> int) {
    g.order > 0 && forall a, b {:trigger g.add(a, b)} :: g.add(a, b) == multiple((log(a) + log(b)) % g.order)
  }

  ghost predicate Numbered<T(!new)>(g: Group<T>, multiple: int -> T, log: T -> int) {
    Labelled(g, multiple, log) && AddsLabels(g, multiple, log)
  }

  /** Adding to a multiple, on either side. */
  lemma AddToMultiple<T(!new)>(g: Group<T>, multiple: int -> T, log: T -> int, m: int, x: T)
    requires Numbered(g, multiple, log)
    ensures g.add(multiple(m % g.order), x) == multiple((m + log(x)) % g.order) == g.add(x, multiple(m % g.order))
  {
    var r, u := m % g.order, log(x);
    ModAdd(m, u, g.order);
    assert log(multiple(r)) == r;
    assert g.add(multiple(r), x) == multiple((r + u) % g.order);
    assert g.add(x, multiple(r)) == multiple((u + r) % g.order);
  }

  lemma NumberedAssociates<T(!new)>(g: Group<T>, multiple: int -> T, log: T -> int, a: T, b: T, d: T)
    requires Numbered(g, multiple, log)
    ensures Associates(g, a, b, d)
  {
    AddToMultiple(g, multiple, log, log(a) + log(b), d);
    AddToMultiple(g, multiple, log, log(b) + log(d), a);
  }

  lemma NumberedIsGroup<T(!new)>(g: Group<T>, multiple: int -> T, log: T -> int)
    requires Numbered(g, multiple, log)
    ensures IsGroup(g)
  {
    forall a, b, d ensures Associates(g, a, b, d) { NumberedAssociates(g, multiple, log, a, b, d); }
    forall a | g.has(a) ensures g.add(a, g.zero) == a && g.add(g.zero, a) == a {
      ResidueUnique(log(a), 0, log(a), g.order);
    }
  }

  lemma NextMultiple<T(!new)>(g: Group<T>, multiple: int -> T, log: T -> int, x: T, m: int, next: int)
    requires Numbered(g, multiple, log) && next == m + log(x)
    ensures g.add(multiple(m % g.order), x) == multiple(next % g.order)
  {
    AddToMultiple(g, multiple, log, m, x);
  }

  lemma {:induction false} NumberedTimes<T(!new)>(g: Group<T>, multiple: int -> T, log: T -> int, x: T, k: nat)
    requires Numbered(g, multiple, log)
    ensures Times(g, x, k) == multiple((log(x) * k) % g.order)
  {
    if k == 0 {
      ResidueUnique(0, 0, 0, g.order);
    } else {
      NumberedTimes(g, multiple, log, x, k - 1);
      NextMultiple(g, multiple, log, x, log(x) * (k - 1), log(x) * k);
    }
  }

  lemma OnceResidue(one: int, k: nat, n: int)
    requires one == 1 && k < n
    ensures (one * k) % n == k
  {
    ResidueUnique(k, 0, k, n);
  }

  lemma NumberedGenerator<T(!new)>(g: Group<T>, multiple: int -> T, log: T -> int, k: nat)
    requires Numbered(g, multiple, log) && k < g.order
    ensures Times(g, g.gen, k) == multiple(k)
  {
    NumberedTimes(g, multiple, log, g.gen, k);
    OnceResidue(log(g.gen), k, g.order);
  }

  lemma NumberedIsCyclic<T(!new)>(g: Group<T>, multiple: int -> T, log: T -> int)
    requires Numbered(g, multiple, log) && Prime(g.order)
    ensures CyclicOfPrimeOrder(g)
  {
    NumberedIsGroup(g, multiple, log);
    NumberedTimes(g, multiple, log, g.gen, g.order);
    ResidueUnique(g.order, 1, 0, g.order);
    forall k | 0 < k < g.order ensures Times(g, g.gen, k) != g.zero {
      NumberedGenerator(g, multiple, log, k);
    }
    forall x | g.has(x) ensures HasExponent(g, x) {
      NumberedGenerator(g, multiple, log, log(x));
    }
  }

  // ---------------------------------------------------------------- the instance

  /** The multiples of the generator (7, 5). */
  function Multiple(k: int): Point {
    if k == 1 then (7, 5) else if k == 2 then (8, 5) else if k == 3 then (11, 8)
    else if k == 4 then (11, 5) else if k == 5 then (8, 8) else if k == 6 then (7, 8)
    else INFINITY
  }

  function Log(pt: Point): (k: int)
    ensures 0 <= k < 7
  {
    if pt == (7, 5) then 1 else if pt == (8, 5) then 2 else if pt == (11, 8) then 3
    else if pt == (11, 5) then 4 else if pt == (8, 8) then 5 else if pt == (7, 8) then 6
    else 0
  }

  const SMALL := Curve(13, 7, (7, 5),
                       (a: Point, b: Point) => Multiple((Log(a) + Log(b)) % 7),
                       (pt: Point, k: int) => Multiple((Log(pt) * k) % 7))

  lemma SquareBelow13(y: int)
    requires 0 <= y < 13
    ensures y * y == [0, 1, 4, 9, 16, 25, 36, 49, 64, 81, 100, 121, 144][y]
  {
    assert y in {0, 1, 2, 3, 4, 5, 6, 7, 8, 9, 10, 11, 12};
  }

  lemma CubeBelow13(x: int)
    requires 0 <= x < 13
    ensures x * x * x == [0, 1, 8, 27, 64, 125, 216, 343, 512, 729, 1000, 1331, 1728][x]
  {
    assert x in {0, 1, 2, 3, 4, 5, 6, 7, 8, 9, 10, 11, 12};
  }

  /** The points of the curve are the multiples of the generator. */
  lemma MemberIsMultiple(pt: Point)
    ensures Member(SMALL, pt) <==> pt == Multiple(Log(pt))
  {
    if 0 <= pt.0 < 13 && 0 <= pt.1 < 13 {
      SquareBelow13(pt.1);
      CubeBelow13(pt.0);
    }
  }

  lemma LogOfMultiple(k: int)
    requires 0 <= k < 7
    ensures Log(Multiple(k)) == k
  {
  }

  lemma SmallIsLabelled()
    ensures Labelled(GroupOf(SMALL), Multiple, Log)
  {
    var g := GroupOf(SMALL);
    forall k | 0 <= k < 7 ensures Log(Multiple(k)) == k { LogOfMultiple(k); }
    forall pt ensures g.has(pt) <==> pt == Multiple(Log(pt)) { MemberIsMultiple(pt); }
  }

  lemma SmallAdds()
    ensures AddsLabels(GroupOf(SMALL), Multiple, Log)
  {
  }

  lemma SevenIsPrime()
    ensures Prime(7)
  {
    forall d | 1 < d < 7 ensures !Divides(d, 7) {
      assert d in {2, 3, 4, 5, 6};
    }
  }

  /** The hypotheses of the Schnorr theorems can be met. */
  lemma SmallIsPrimeOrder()
    ensures PrimeOrderCurve(SMALL)
  {
    SmallIsLabelled();
    SmallAdds();
    SevenIsPrime();
    NumberedIsCyclic(GroupOf(SMALL), Multiple, Log);
    forall pt, k | Member(SMALL, pt) && k >= 0 ensures SMALL.mul(pt, k) == Times(GroupOf(SMALL), pt, k) {
      NumberedTimes(GroupOf(SMALL), Multiple, Log, pt, k);
    }
    SmallFits();
  }

  lemma SmallFits()
    ensures 13 <= Pow256(32)
  {
    Pow256Sum(1, 31);
  }
}
