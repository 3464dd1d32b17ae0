/** Binding, absence and completeness of the sorted Merkle tree. */
module MerkleTheorems {
  import opened Bytes
  import opened Text
  import opened Merkle

  // ---------------------------------------------------------------- what gets hashed

  /** Every node input hashed above a level. */
  function LevelInputs(env: Env, level: seq<Digest>): set<Bytes>
    decreases |level|
  {
    if |level| <= 1 then {}
    else (set j | 0 <= j < (|level| + 1) / 2 :: NodeInput(level[2 * j], level[RightChild(|level|, j)]))
         + LevelInputs(env, NextLevel(env, level))
  }

  /** A set of inputs that holds every node input hashed above a level. */
  ghost predicate Covers(env: Env, q: set<Bytes>, level: seq<Digest>)
    decreases |level|
  {
    |level| > 1 ==>
      && (forall j {:trigger Parent(env, level, j)} :: 0 <= j < (|level| + 1) / 2 ==>
            Queried(q, NodeInput(level[2 * j], level[RightChild(|level|, j)])))
      && Covers(env, q, NextLevel(env, level))
  }

  lemma {:induction false} InputsCovered(env: Env, q: set<Bytes>, level: seq<Digest>)
    requires LevelInputs(env, level) <= q
    ensures Covers(env, q, level)
    decreases |level|
  {
    if |level| > 1 {
      InputsCovered(env, q, NextLevel(env, level));
      forall j | 0 <= j < (|level| + 1) / 2
        ensures Queried(q, NodeInput(level[2 * j], level[RightChild(|level|, j)]))
      {
        assert NodeInput(level[2 * j], level[RightChild(|level|, j)]) in LevelInputs(env, level);
      }
    }
  }

  /** Every input hashed while a tree is built. */
  function TreeInputs(env: Env, names: seq<string>): set<Bytes> {
    (set n | n in SortedSet(Lowered(env, names)) :: LeafInput(env, n)) + LevelInputs(env, Leaves(env, names))
  }

  /** Every node input hashed while a path is checked. */
  function FoldInputs(env: Env, leaf: Bytes, sibs: seq<Sibling>): set<Bytes> {
    if sibs == [] then {}
    else var init := sibs[..|sibs| - 1];
         FoldInputs(env, leaf, init) + {CombineInput(Fold(env, leaf, init), sibs[|sibs| - 1])}
  }

  /** Every input hashed while a named leaf is checked against a root. */
  function CheckInputs(env: Env, name: string, path: seq<Step>): set<Bytes> {
    {LeafInput(env, name)}
    + match Parse(path) case None => {} case Some(sibs) => FoldInputs(env, LeafHash(env, name), sibs)
  }

  // ---------------------------------------------------------------- positions

  function Sides(path: seq<Step>): (sides: seq<bool>)
    ensures |sides| == |path|
  {
    seq(|path|, i requires 0 <= i < |path| => path[i].side == "right")
  }

  /** The position a list of sides spells, least significant bit first: a left sibling is a 1. */
  function Position(sides: seq<bool>): nat {
    if sides == [] then 0 else (if sides[0] then 0 else 1) + 2 * Position(sides[1..])
  }

  /** The leaf a list of sides leads to in a tree of n leaves, walking down from the root. */
  function Decode(n: nat, sides: seq<bool>): (i: nat)
    requires n > 0 && |sides| == Depth(n)
    ensures i < n
    decreases n
  {
    if n == 1 then 0
    else var j := Decode((n + 1) / 2, sides[1..]);
         if sides[0] then 2 * j else RightChild(n, j)
  }

  /** Stepping to the next position moves the decoded leaf forward by at most one. */
  lemma {:induction false} DecodeSteps(n: nat, p: seq<bool>, q: seq<bool>)
    requires n > 0 && |p| == |q| == Depth(n)
    requires Position(q) == Position(p) + 1
    ensures Decode(n, q) <= Decode(n, p) + 1
    decreases n
  {
    if n > 1 {
      if p[0] {
        SamePosition(p[1..], q[1..]);
      } else {
        DecodeSteps((n + 1) / 2, p[1..], q[1..]);
      }
    }
  }

  lemma {:induction false} SamePosition(p: seq<bool>, q: seq<bool>)
    requires |p| == |q| && Position(p) == Position(q)
    ensures p == q
  {
    if p != [] {
      assert p[0] == q[0];
      SamePosition(p[1..], q[1..]);
      assert p == [p[0]] + p[1..] && q == [q[0]] + q[1..];
    }
  }

  // ---------------------------------------------------------------- binding

  /** Equal node inputs have equal parts: the checked side is 32 bytes, so the other one is too. */
  lemma CombineInjective(current: Digest, s: Sibling, left: Digest, right: Digest)
    requires CombineInput(current, s) == NodeInput(left, right)
    ensures current == if s.onRight then left else right
  {
    var a, b := CombineInput(current, s), NodeInput(left, right);
    assert a[5..] == if s.onRight then current + s.bytes else s.bytes + current;
    assert b[5..] == left + right;
    if s.onRight {
      assert a[5..][..32] == current && b[5..][..32] == left;
    } else {
      assert |s.bytes| == 32;
      assert a[5..][32..] == current && b[5..][32..] == right;
    }
  }

  lemma LeafIsNotNode(env: Env, name: string, left: Bytes, right: Bytes)
    ensures LeafInput(env, name) != NodeInput(left, right)
  {
    assert LeafInput(env, name)[0] == 76 && NodeInput(left, right)[0] == 78;
  }

  /** A combination that hashes to node j of the level above started from one of the node's children. */
  lemma StepDown(env: Env, level: seq<Digest>, j: nat, below: Digest, s: Sibling, q: set<Bytes>)
    requires |level| > 1 && 2 * j < |level|
    requires CollisionFree(env.sha, q) && CombineInput(below, s) in q
    requires Queried(q, NodeInput(level[2 * j], level[RightChild(|level|, j)]))
    requires env.sha(CombineInput(below, s)) == Parent(env, level, j)
    ensures below == level[if s.onRight then 2 * j else RightChild(|level|, j)]
  {
    var l, r := level[2 * j], level[RightChild(|level|, j)];
    assert Queried(q, CombineInput(below, s));
    CombineInjective(below, s, l, r);
  }

  lemma CoveredNode(env: Env, q: set<Bytes>, level: seq<Digest>, j: nat)
    requires |level| > 1 && 2 * j < |level| && Covers(env, q, level)
    ensures Queried(q, NodeInput(level[2 * j], level[RightChild(|level|, j)]))
  {
    assert NextLevel(env, level)[j] == Parent(env, level, j);
  }

  /** Walking down from the root: the lower part of the path hashes to the entry the upper part decodes to. */
  lemma {:induction false} PathAtLevel(
      env: Env, level: seq<Digest>, leaf: Digest, lower: seq<Sibling>, upper: seq<Sibling>, q: set<Bytes>)
    requires |level| > 0 && |upper| == Depth(|level|)
    requires CollisionFree(env.sha, q) && Covers(env, q, level)
    requires FoldInputs(env, leaf, lower + upper) <= q
    requires Fold(env, leaf, lower + upper) == Root(env, level)
    ensures Fold(env, leaf, lower) == level[Decode(|level|, OnRight(upper))]
    decreases |level|
  {
    if |level| == 1 {
      assert lower + upper == lower;
    } else {
      var s, next := upper[0], NextLevel(env, level);
      assert lower + upper == (lower + [s]) + upper[1..];
      PathAtLevel(env, next, leaf, lower + [s], upper[1..], q);
      FoldInputsPrefix(env, leaf, lower + [s], upper[1..]);
      LastStepDown(env, level, leaf, lower, upper, q);
    }
  }

  /** The child of the decoded parent is the decoded entry. */
  lemma DecodeLands(level: seq<Digest>, upper: seq<Sibling>, j: nat)
    requires |level| > 1 && |upper| == Depth(|level|) && j == Decode((|level| + 1) / 2, OnRight(upper[1..]))
    ensures level[if upper[0].onRight then 2 * j else RightChild(|level|, j)] == level[Decode(|level|, OnRight(upper))]
  {
    assert OnRight(upper)[1..] == OnRight(upper[1..]);
  }

  lemma FoldSnoc(env: Env, leaf: Bytes, lower: seq<Sibling>, s: Sibling)
    ensures Fold(env, leaf, lower + [s]) == env.sha(CombineInput(Fold(env, leaf, lower), s))
    ensures CombineInput(Fold(env, leaf, lower), s) in FoldInputs(env, leaf, lower + [s])
  {
    assert (lower + [s])[..|lower|] == lower;
  }

  lemma LastStepDown(
      env: Env, level: seq<Digest>, leaf: Digest, lower: seq<Sibling>, upper: seq<Sibling>, q: set<Bytes>)
    requires |level| > 1 && |upper| == Depth(|level|)
    requires CollisionFree(env.sha, q) && Covers(env, q, level)
    requires FoldInputs(env, leaf, lower + [upper[0]]) <= q
    requires Fold(env, leaf, lower + [upper[0]])
          == NextLevel(env, level)[Decode((|level| + 1) / 2, OnRight(upper[1..]))]
    ensures Fold(env, leaf, lower) == level[Decode(|level|, OnRight(upper))]
  {
    var s, j := upper[0], Decode((|level| + 1) / 2, OnRight(upper[1..]));
    FoldSnoc(env, leaf, lower, s);
    CoveredNode(env, q, level, j);
    StepDown(env, level, j, Fold(env, leaf, lower), s, q);
    DecodeLands(level, upper, j);
  }

  function OnRight(sibs: seq<Sibling>): (sides: seq<bool>)
    ensures |sides| == |sibs|
  {
    seq(|sibs|, i requires 0 <= i < |sibs| => sibs[i].onRight)
  }

  lemma {:induction false} FoldInputsPrefix(env: Env, leaf: Bytes, lower: seq<Sibling>, upper: seq<Sibling>)
    ensures FoldInputs(env, leaf, lower) <= FoldInputs(env, leaf, lower + upper)
    decreases |upper|
  {
    if upper == [] {
      assert lower + upper == lower;
    } else {
      FoldInputsPrefix(env, leaf, lower, upper[..|upper| - 1]);
      assert (lower + upper)[..|lower + upper| - 1] == lower + upper[..|upper| - 1];
    }
  }

  /** A path shorter than the depth would make its start a node of the tree. */
  lemma {:induction false} ShortPath(env: Env, level: seq<Digest>, leaf: Digest, sibs: seq<Sibling>, q: set<Bytes>)
      returns (left: Digest, right: Digest)
    requires |level| > 0 && |sibs| < Depth(|level|)
    requires CollisionFree(env.sha, q) && Covers(env, q, level) && FoldInputs(env, leaf, sibs) <= q
    requires Fold(env, leaf, sibs) == Root(env, level)
    ensures Queried(q, NodeInput(left, right)) && leaf == NodeHash(env, left, right)
    decreases |level|
  {
    var next := NextLevel(env, level);
    if |sibs| == Depth(|next|) {
      assert [] + sibs == sibs;
      PathAtLevel(env, next, leaf, [], sibs, q);
      var j := Decode(|next|, OnRight(sibs));
      left, right := level[2 * j], level[RightChild(|level|, j)];
      assert next[j] == Parent(env, level, j);
    } else {
      left, right := ShortPath(env, next, leaf, sibs, q);
    }
  }

  lemma {:induction false} ParsedSides(path: seq<Step>)
    requires Parse(path).Some?
    ensures OnRight(Parse(path).value) == Sides(path)
  {
    if path != [] {
      ParsedSides(path[..|path| - 1]);
      var sibs := Parse(path).value;
      assert sibs[..|sibs| - 1] == Parse(path[..|path| - 1]).value;
      forall i | 0 <= i < |path| ensures sibs[i].onRight == (path[i].side == "right") {
        if i < |path| - 1 {
          assert OnRight(sibs[..|sibs| - 1])[i] == Sides(path[..|path| - 1])[i];
        }
      }
    }
  }

  ghost predicate AcceptedPath(env: Env, name: string, path: seq<Step>, root: Bytes) {
    VerifyPath(env, LeafHash(env, name), path, Hex(root)) == Returned(true)
  }

  /** The name sits in the tree at the position its path spells. */
  ghost predicate SitsAt(env: Env, names: seq<string>, name: string, path: seq<Step>) {
    var stored := StoredNames(env, names);
    && |path| == Depth(|stored|)
    && stored[Decode(|stored|, Sides(path))] == env.lower(name)
  }

  /**
   * Path binding: whatever name and path check against the root of a non-empty list, the path is as
   * long as the tree is deep and the name is the one stored where the sides lead -- or two of the
   * inputs hashed by the builder and the checker collide.
   */
  lemma PathBinding(env: Env, names: seq<string>, name: string, path: seq<Step>)
    requires Lawful(env) && names != []
    requires AcceptedPath(env, name, path, TreeOf(env, names).root)
    ensures SitsAt(env, names, name, path)
         || Collides(env.sha, TreeInputs(env, names) + CheckInputs(env, name, path))
  {
    var q := TreeInputs(env, names) + CheckInputs(env, name, path);
    if CollisionFree(env.sha, q) {
      var leaves := Leaves(env, names);
      var sibs := Parse(path).value;
      var leaf := LeafHash(env, name);
      NonEmptySorted(env, names);
      HexInjective(Fold(env, leaf, sibs), TreeOf(env, names).root);
      ParsedSides(path);
      if |sibs| < Depth(|leaves|) {
        InputsCovered(env, q, leaves);
        var l, r := ShortPath(env, leaves, leaf, sibs, q);
        assert Queried(q, LeafInput(env, name));
        LeafIsNotNode(env, name, l, r);
      } else {
        BoundLeaf(env, names, name, sibs, q);
      }
    }
  }

  lemma NonEmptySorted(env: Env, names: seq<string>)
    requires names != []
    ensures SortedSet(Lowered(env, names)) != []
    ensures StoredNames(env, names) == SortedSet(Lowered(env, names))
    ensures forall n :: n in StoredNames(env, names) <==> n in Lowered(env, names)
    ensures StrictlySorted(StoredNames(env, names))
    ensures Lawful(env) ==> forall n :: n in StoredNames(env, names) ==> env.lower(n) == n
  {
    SortedSetCorrect(Lowered(env, names));
    assert Lowered(env, names)[0] in SortedSet(Lowered(env, names));
  }

  lemma BoundLeaf(env: Env, names: seq<string>, name: string, sibs: seq<Sibling>, q: set<Bytes>)
    requires Lawful(env) && names != []
    requires CollisionFree(env.sha, q) && TreeInputs(env, names) <= q
    requires LeafInput(env, name) in q && FoldInputs(env, LeafHash(env, name), sibs) <= q
    requires |sibs| >= Depth(|Leaves(env, names)|)
    requires Fold(env, LeafHash(env, name), sibs) == Root(env, Leaves(env, names))
    ensures |sibs| == Depth(|Leaves(env, names)|)
    ensures StoredNames(env, names)[Decode(|Leaves(env, names)|, OnRight(sibs))] == env.lower(name)
  {
    var leaves, leaf := Leaves(env, names), LeafHash(env, name);
    var m := |sibs| - Depth(|leaves|);
    InputsCovered(env, q, leaves);
    LeafReached(env, leaves, leaf, sibs, m, q);
    var i := Decode(|leaves|, OnRight(sibs[m..]));
    LeafInputHashed(env, names, i);
    var stored := StoredNames(env, names)[i];
    if m > 0 {
      LeafIsNotFolded(env, stored, leaf, sibs[..m], q);
    } else {
      assert sibs[m..] == sibs && sibs[..m] == [];
      SameLeafSameName(env, name, stored, q);
      NonEmptySorted(env, names);
    }
  }

  /** What the first m steps of a path hash to, when the rest is as long as the tree is deep. */
  lemma LeafReached(env: Env, leaves: seq<Digest>, leaf: Digest, sibs: seq<Sibling>, m: nat, q: set<Bytes>)
    requires |leaves| > 0 && |sibs| == m + Depth(|leaves|)
    requires CollisionFree(env.sha, q) && Covers(env, q, leaves) && FoldInputs(env, leaf, sibs) <= q
    requires Fold(env, leaf, sibs) == Root(env, leaves)
    ensures Fold(env, leaf, sibs[..m]) == leaves[Decode(|leaves|, OnRight(sibs[m..]))]
    ensures FoldInputs(env, leaf, sibs[..m]) <= q
  {
    assert sibs[..m] + sibs[m..] == sibs;
    PathAtLevel(env, leaves, leaf, sibs[..m], sibs[m..], q);
    FoldInputsPrefix(env, leaf, sibs[..m], sibs[m..]);
  }

  lemma LeafInputHashed(env: Env, names: seq<string>, i: nat)
    requires names != [] && i < |StoredNames(env, names)|
    ensures Leaves(env, names)[i] == LeafHash(env, StoredNames(env, names)[i])
    ensures LeafInput(env, StoredNames(env, names)[i]) in TreeInputs(env, names)
  {
    NonEmptySorted(env, names);
  }

  lemma LeafIsNotFolded(env: Env, name: string, leaf: Bytes, sibs: seq<Sibling>, q: set<Bytes>)
    requires CollisionFree(env.sha, q) && LeafInput(env, name) in q
    requires sibs != [] && FoldInputs(env, leaf, sibs) <= q
    ensures Fold(env, leaf, sibs) != LeafHash(env, name)
  {
    var below, s := Fold(env, leaf, sibs[..|sibs| - 1]), sibs[|sibs| - 1];
    assert CombineInput(below, s) in FoldInputs(env, leaf, sibs);
    assert Queried(q, CombineInput(below, s)) && Queried(q, LeafInput(env, name));
    if s.onRight { LeafIsNotNode(env, name, below, s.bytes); } else { LeafIsNotNode(env, name, s.bytes, below); }
  }

  lemma SameLeafSameName(env: Env, name: string, other: string, q: set<Bytes>)
    requires Lawful(env) && CollisionFree(env.sha, q)
    requires LeafInput(env, name) in q && LeafInput(env, other) in q
    requires LeafHash(env, name) == LeafHash(env, other)
    ensures env.lower(name) == env.lower(other)
  {
    assert Queried(q, LeafInput(env, name)) && Queried(q, LeafInput(env, other));
    assert LeafInput(env, name)[5..] == env.utf8(env.lower(name));
    assert LeafInput(env, other)[5..] == env.utf8(env.lower(other));
  }

  // ---------------------------------------------------------------- completeness of paths

  function RawStep(level: seq<Digest>, idx: nat): Sibling
    requires idx < |level|
  {
    if idx % 2 == 0 then Sibling(level[RightChild(|level|, idx / 2)], true) else Sibling(level[idx - 1], false)
  }

  function RawPath(env: Env, level: seq<Digest>, idx: nat): (sibs: seq<Sibling>)
    requires idx < |level|
    ensures |sibs| == Depth(|level|)
    decreases |level|
  {
    if |level| == 1 then [] else [RawStep(level, idx)] + RawPath(env, NextLevel(env, level), idx / 2)
  }

  lemma {:induction false} ParseCons(step: Step, rest: seq<Step>)
    requires FromHex(step.hash).Some? && Parse(rest).Some?
    ensures Parse([step] + rest)
         == Some([Sibling(FromHex(step.hash).value, step.side == "right")] + Parse(rest).value)
  {
    var path := [step] + rest;
    if rest == [] {
      var head := Sibling(FromHex(step.hash).value, step.side == "right");
      assert path[..|path| - 1] == [] && [] + [head] == [head] + Parse(rest).value;
    } else {
      ParseCons(step, rest[..|rest| - 1]);
      assert path[..|path| - 1] == [step] + rest[..|rest| - 1];
      var head, init := Sibling(FromHex(step.hash).value, step.side == "right"), Parse(rest[..|rest| - 1]).value;
      var last := Sibling(FromHex(rest[|rest| - 1].hash).value, rest[|rest| - 1].side == "right");
      assert ([head] + init) + [last] == [head] + (init + [last]);
    }
  }

  lemma StepSpelling(level: seq<Digest>, idx: nat)
    requires idx < |level|
    ensures var raw := RawStep(level, idx);
            StepAt(level, idx) == Step(Hex(raw.bytes), if raw.onRight then "right" else "left")
  {
  }

  lemma {:induction false} PathParses(env: Env, level: seq<Digest>, idx: nat)
    requires idx < |level|
    ensures Parse(PathOf(env, level, idx)) == Some(RawPath(env, level, idx))
    decreases |level|
  {
    if |level| > 1 {
      PathParses(env, NextLevel(env, level), idx / 2);
      StepSpelling(level, idx);
      HexRoundTrip(RawStep(level, idx).bytes);
      ParseCons(StepAt(level, idx), PathOf(env, NextLevel(env, level), idx / 2));
    }
  }

  /** Hashing along a path may start with its first step. */
  lemma {:induction false} FoldCons(env: Env, leaf: Bytes, s: Sibling, rest: seq<Sibling>)
    ensures Fold(env, leaf, [s] + rest) == Fold(env, env.sha(CombineInput(leaf, s)), rest)
    ensures FoldInputs(env, leaf, [s] + rest)
         == {CombineInput(leaf, s)} + FoldInputs(env, env.sha(CombineInput(leaf, s)), rest)
  {
    var sibs := [s] + rest;
    if rest == [] {
      assert sibs[..|sibs| - 1] == [];
    } else {
      FoldCons(env, leaf, s, rest[..|rest| - 1]);
      assert sibs[..|sibs| - 1] == [s] + rest[..|rest| - 1];
    }
  }

  lemma RawStepInput(level: seq<Digest>, idx: nat)
    requires idx < |level|
    ensures CombineInput(level[idx], RawStep(level, idx))
         == NodeInput(level[2 * (idx / 2)], level[RightChild(|level|, idx / 2)])
  {
    if idx % 2 == 0 {
      assert idx == 2 * (idx / 2);
    } else {
      assert idx == 2 * (idx / 2) + 1;
    }
  }

  lemma NodeInputHashed(env: Env, level: seq<Digest>, j: nat)
    requires |level| > 1 && 2 * j < |level|
    ensures NodeInput(level[2 * j], level[RightChild(|level|, j)]) in LevelInputs(env, level)
  {
  }

  lemma {:induction false} RawPathFolds(env: Env, level: seq<Digest>, idx: nat)
    requires idx < |level|
    ensures Fold(env, level[idx], RawPath(env, level, idx)) == Root(env, level)
    ensures FoldInputs(env, level[idx], RawPath(env, level, idx)) <= LevelInputs(env, level)
    decreases |level|
  {
    if |level| > 1 {
      var next, j := NextLevel(env, level), idx / 2;
      RawPathFolds(env, next, j);
      RawStepInput(level, idx);
      NodeInputHashed(env, level, j);
      FoldCons(env, level[idx], RawStep(level, idx), RawPath(env, next, j));
    }
  }

  lemma PositionCons(s: Sibling, rest: seq<Sibling>)
    ensures Position(OnRight([s] + rest)) == (if s.onRight then 0 else 1) + 2 * Position(OnRight(rest))
  {
    assert OnRight([s] + rest)[1..] == OnRight(rest);
  }

  lemma {:induction false} RawPathPosition(env: Env, level: seq<Digest>, idx: nat)
    requires idx < |level|
    ensures Position(OnRight(RawPath(env, level, idx))) == idx
    decreases |level|
  {
    if |level| > 1 {
      RawPathPosition(env, NextLevel(env, level), idx / 2);
      PositionCons(RawStep(level, idx), RawPath(env, NextLevel(env, level), idx / 2));
    }
  }

  /** Path completeness: the path extracted for any stored leaf checks against the root. */
  lemma PathComplete(env: Env, names: seq<string>, i: nat)
    requires Lawful(env) && names != [] && i < |StoredNames(env, names)|
    ensures AcceptedPath(env, StoredNames(env, names)[i], PathOf(env, Leaves(env, names), i), TreeOf(env, names).root)
    ensures Position(Sides(PathOf(env, Leaves(env, names), i))) == i
    ensures CheckInputs(env, StoredNames(env, names)[i], PathOf(env, Leaves(env, names), i)) <= TreeInputs(env, names)
  {
    NonEmptySorted(env, names);
    var leaves, stored := Leaves(env, names), StoredNames(env, names);
    assert leaves[i] == LeafHash(env, stored[i]);
    PathParses(env, leaves, i);
    RawPathFolds(env, leaves, i);
    RawPathPosition(env, leaves, i);
    ParsedSides(PathOf(env, leaves, i));
    assert LeafInput(env, stored[i]) in TreeInputs(env, names);
  }

  // ---------------------------------------------------------------- main theorems

  lemma BoundIn(env: Env, names: seq<string>, name: string, path: seq<Step>, q: set<Bytes>)
    requires Lawful(env) && names != [] && AcceptedPath(env, name, path, TreeOf(env, names).root)
    requires CollisionFree(env.sha, q) && TreeInputs(env, names) + CheckInputs(env, name, path) <= q
    ensures SitsAt(env, names, name, path)
  {
    PathBinding(env, names, name, path);
    CollisionFreeSubset(env.sha, TreeInputs(env, names) + CheckInputs(env, name, path), q);
  }

  /** A name stored in one tree is stored in every tree with the same root, or hash inputs collide. */
  lemma StoredInBoth(env: Env, names: seq<string>, other: seq<string>, n: string)
    requires Lawful(env) && names != [] && other != []
    requires TreeOf(env, names).root == TreeOf(env, other).root
    requires CollisionFree(env.sha, TreeInputs(env, names) + TreeInputs(env, other))
    requires n in StoredNames(env, names)
    ensures n in StoredNames(env, other)
  {
    var stored := StoredNames(env, names);
    var i :| 0 <= i < |stored| && stored[i] == n;
    var path := PathOf(env, Leaves(env, names), i);
    PathComplete(env, names, i);
    BoundIn(env, other, n, path, TreeInputs(env, names) + TreeInputs(env, other));
    NonEmptySorted(env, names);
  }

  /**
   * The root identifies the name set: two non-empty lists with one root have the same lower-cased
   * names in the same order, and so the same size and depth, or hash inputs of the two trees collide.
   */
  lemma RootIdentifiesNames(env: Env, names: seq<string>, other: seq<string>)
    requires Lawful(env) && names != [] && other != []
    requires TreeOf(env, names).root == TreeOf(env, other).root
    ensures
      || Collides(env.sha, TreeInputs(env, names) + TreeInputs(env, other))
      || (&& StoredNames(env, names) == StoredNames(env, other)
          && (set n | n in Lowered(env, names)) == (set n | n in Lowered(env, other)))
  {
    if CollisionFree(env.sha, TreeInputs(env, names) + TreeInputs(env, other)) {
      assert TreeInputs(env, names) + TreeInputs(env, other) == TreeInputs(env, other) + TreeInputs(env, names);
      var a, b := StoredNames(env, names), StoredNames(env, other);
      forall n ensures n in a <==> n in b {
        if n in a { StoredInBoth(env, names, other, n); }
        if n in b { StoredInBoth(env, other, names, n); }
      }
      NonEmptySorted(env, names);
      NonEmptySorted(env, other);
      SortedUnique(a, b);
    }
  }

  /** Conversely the name set determines the whole tree: order, repetitions and letter case do not matter. */
  lemma SameNamesSameTree(env: Env, names: seq<string>, other: seq<string>)
    requires forall n :: n in Lowered(env, names) <==> n in Lowered(env, other)
    ensures TreeOf(env, names) == TreeOf(env, other)
  {
    SortedSetCorrect(Lowered(env, names));
    SortedSetCorrect(Lowered(env, other));
    SortedUnique(SortedSet(Lowered(env, names)), SortedSet(Lowered(env, other)));
  }

  /** Names are stored in the order of Python's strings, each before the next. */
  lemma StoredInOrder(env: Env, names: seq<string>, i: nat, j: nat)
    requires i < j < |StoredNames(env, names)|
    ensures var a, b := StoredNames(env, names)[i], StoredNames(env, names)[j];
            a < b || exists k :: 0 <= k < |a| && k < |b| && a[..k] == b[..k] && a[k] < b[k]
  {
    SortedSetCorrect(Lowered(env, names));
    var a, b := StoredNames(env, names)[i], StoredNames(env, names)[j];
    LessExactly(a, b);
    if !(a < b) { var k :| SmallerAt(a, b, k); }
  }

  /** The check the verifier leaves to its caller: the right path spells the position after the left one. */
  predicate Adjacent(proof: Proof) {
    Position(Sides(proof.rightPath)) == Position(Sides(proof.leftPath)) + 1
  }

  /**
   * Absence: a proof accepted for a tree's root whose two paths spell consecutive positions shows
   * that the queried name is not in the list, or hash inputs collide.
   */
  lemma AdjacentProofShowsAbsence(env: Env, names: seq<string>, proof: Proof)
    requires Lawful(env) && names != []
    requires VerifyNonMembership(env, proof, Hex(TreeOf(env, names).root)) == Returned(true)
    requires Adjacent(proof)
    ensures
      || env.lower(proof.queriedName) !in Lowered(env, names)
      || Collides(env.sha, TreeInputs(env, names) + CheckInputs(env, proof.leftName, proof.leftPath)
                           + CheckInputs(env, proof.rightName, proof.rightPath))
  {
    var q := TreeInputs(env, names) + CheckInputs(env, proof.leftName, proof.leftPath)
             + CheckInputs(env, proof.rightName, proof.rightPath);
    if CollisionFree(env.sha, q) {
      var stored, key := StoredNames(env, names), env.lower(proof.queriedName);
      AcceptedParts(env, proof, TreeOf(env, names).root);
      BoundIn(env, names, proof.leftName, proof.leftPath, q);
      BoundIn(env, names, proof.rightName, proof.rightPath, q);
      var i, j := Decode(|stored|, Sides(proof.leftPath)), Decode(|stored|, Sides(proof.rightPath));
      DecodeSteps(|stored|, Sides(proof.leftPath), Sides(proof.rightPath));
      NonEmptySorted(env, names);
      NothingBetween(stored, key, i, j);
    }
  }

  /** What acceptance says about the names and the two paths. */
  lemma AcceptedParts(env: Env, proof: Proof, root: Bytes)
    requires VerifyNonMembership(env, proof, Hex(root)) == Returned(true)
    ensures Less(env.lower(proof.leftName), env.lower(proof.queriedName))
    ensures Less(env.lower(proof.queriedName), env.lower(proof.rightName))
    ensures AcceptedPath(env, proof.leftName, proof.leftPath, root)
    ensures AcceptedPath(env, proof.rightName, proof.rightPath, root)
  {
    AcceptedExactly(env, proof, Hex(root));
  }

  lemma NothingBetween(s: seq<string>, key: string, i: nat, j: nat)
    requires StrictlySorted(s) && i < |s| && j < |s| && j <= i + 1
    requires Less(s[i], key) && Less(key, s[j])
    ensures j == i + 1 && key !in s
  {
    LessTransitive(s[i], key, s[j]);
    LessIrreflexive(s[i]);
    if j < i { LessAsymmetric(s[i], s[j]); }
    if key in s {
      var k :| 0 <= k < |s| && s[k] == key;
      LessIrreflexive(key);
      if k < i { LessAsymmetric(s[k], s[i]); }
      if j < k { LessAsymmetric(key, s[j]); }
    }
  }

  /** With matching leaf hashes and accepted paths, only the comparison of names is left. */
  lemma VerifyReduces(env: Env, proof: Proof, root: Bytes)
    requires proof.leftHash == Hex(LeafHash(env, proof.leftName)) && proof.rightHash == Hex(LeafHash(env, proof.rightName))
    requires AcceptedPath(env, proof.leftName, proof.leftPath, root)
    requires AcceptedPath(env, proof.rightName, proof.rightPath, root)
    requires proof.root == Hex(root)
    ensures var left, key, right := env.lower(proof.leftName), env.lower(proof.queriedName), env.lower(proof.rightName);
            VerifyNonMembership(env, proof, Hex(root)) == Returned(Less(left, key) && Less(key, right))
  {
    BetweenIffStrict(env.lower(proof.leftName), env.lower(proof.queriedName), env.lower(proof.rightName));
    HexRoundTrip(LeafHash(env, proof.leftName));
    HexRoundTrip(LeafHash(env, proof.rightName));
  }

  /** A proof made from genuine leaves i and j is accepted exactly for keys strictly between them. */
  lemma GenuineProofAccepted(env: Env, names: seq<string>, name: string, i: nat, j: nat)
    requires Lawful(env) && names != []
    requires i < |StoredNames(env, names)| && j < |StoredNames(env, names)|
    ensures var tree := TreeOf(env, names);
            VerifyNonMembership(env, ProofAt(env, tree, name, i, j), Hex(tree.root))
            == Returned(Less(tree.names[i], env.lower(name)) && Less(env.lower(name), tree.names[j]))
  {
    var tree := TreeOf(env, names);
    NonEmptySorted(env, names);
    PathComplete(env, names, i);
    PathComplete(env, names, j);
    VerifyReduces(env, ProofAt(env, tree, name, i, j), tree.root);
  }

  /** A proof about a name from two claimed neighbours and any two paths. */
  function ProofFrom(env: Env, name: string, leftName: string, leftPath: seq<Step>,
                     rightName: string, rightPath: seq<Step>, root: Bytes): Proof {
    Proof(name, leftName, rightName, Hex(LeafHash(env, leftName)), Hex(LeafHash(env, rightName)),
          leftPath, rightPath, Hex(root))
  }

  /** Every name the verifier accepts with these two neighbours and paths is absent. */
  ghost predicate SoundFor(env: Env, names: seq<string>, leftName: string, leftPath: seq<Step>,
                           rightName: string, rightPath: seq<Step>) {
    var root := TreeOf(env, names).root;
    forall name ::
      VerifyNonMembership(env, ProofFrom(env, name, leftName, leftPath, rightName, rightPath, root), Hex(root))
        == Returned(true)
      ==> env.lower(name) !in Lowered(env, names)
  }

  /**
   * The verifier does not compare positions, so acceptance alone does not show absence. For any two
   * names and paths it accepts, hash inputs collide, or both names are stored where their paths decode
   * to and acceptance is right for every queried name exactly when the right one is stored no further
   * than one leaf after the left one -- for names in increasing order, exactly when it is the next leaf.
   */
  lemma StraddleSoundIff(env: Env, names: seq<string>, leftName: string, leftPath: seq<Step>,
                         rightName: string, rightPath: seq<Step>)
    requires Lawful(env) && names != []
    requires AcceptedPath(env, leftName, leftPath, TreeOf(env, names).root)
    requires AcceptedPath(env, rightName, rightPath, TreeOf(env, names).root)
    ensures
      || Collides(env.sha, TreeInputs(env, names) + CheckInputs(env, leftName, leftPath)
                           + CheckInputs(env, rightName, rightPath))
      || (&& SitsAt(env, names, leftName, leftPath) && SitsAt(env, names, rightName, rightPath)
          && var n := |StoredNames(env, names)|;
             var i, j := Decode(n, Sides(leftPath)), Decode(n, Sides(rightPath));
             var sound := SoundFor(env, names, leftName, leftPath, rightName, rightPath);
          && (sound <==> j <= i + 1)
          && (Less(env.lower(leftName), env.lower(rightName)) ==> (sound <==> j == i + 1)))
  {
    var q := TreeInputs(env, names) + CheckInputs(env, leftName, leftPath) + CheckInputs(env, rightName, rightPath);
    if CollisionFree(env.sha, q) {
      BoundIn(env, names, leftName, leftPath, q);
      BoundIn(env, names, rightName, rightPath, q);
      NonEmptySorted(env, names);
      BoundSoundIff(env, names, leftName, leftPath, rightName, rightPath);
      if Less(env.lower(leftName), env.lower(rightName)) {
        var s := StoredNames(env, names);
        OrderOfLeaves(s, Decode(|s|, Sides(leftPath)), Decode(|s|, Sides(rightPath)));
      }
    }
  }

  /** Two names stored where their paths decode to are sound neighbours exactly when no leaf is between them. */
  lemma BoundSoundIff(env: Env, names: seq<string>, leftName: string, leftPath: seq<Step>,
                      rightName: string, rightPath: seq<Step>)
    requires Lawful(env) && names != []
    requires AcceptedPath(env, leftName, leftPath, TreeOf(env, names).root)
    requires AcceptedPath(env, rightName, rightPath, TreeOf(env, names).root)
    requires SitsAt(env, names, leftName, leftPath) && SitsAt(env, names, rightName, rightPath)
    ensures var n := |StoredNames(env, names)|;
            SoundFor(env, names, leftName, leftPath, rightName, rightPath)
            <==> Decode(n, Sides(rightPath)) <= Decode(n, Sides(leftPath)) + 1
  {
    var stored, root := StoredNames(env, names), TreeOf(env, names).root;
    var i, j := Decode(|stored|, Sides(leftPath)), Decode(|stored|, Sides(rightPath));
    NonEmptySorted(env, names);
    if j <= i + 1 {
      forall name
        | VerifyNonMembership(env, ProofFrom(env, name, leftName, leftPath, rightName, rightPath, root), Hex(root))
          == Returned(true)
        ensures env.lower(name) !in Lowered(env, names)
      {
        VerifyReduces(env, ProofFrom(env, name, leftName, leftPath, rightName, rightPath, root), root);
        NothingBetween(stored, env.lower(name), i, j);
      }
    } else {
      var between := stored[i + 1];
      VerifyReduces(env, ProofFrom(env, between, leftName, leftPath, rightName, rightPath, root), root);
      assert env.lower(between) == between && between in Lowered(env, names);
    }
  }

  lemma OrderOfLeaves(s: seq<string>, i: nat, j: nat)
    requires StrictlySorted(s) && i < |s| && j < |s| && Less(s[i], s[j])
    ensures i < j
  {
    LessIrreflexive(s[i]);
    if j < i { LessAsymmetric(s[i], s[j]); }
  }

  /** The proof the binary search answers with, in terms of the insertion point. */
  function AnswerFor(env: Env, names: seq<string>, name: string): Proof {
    var tree := TreeOf(env, names);
    var k := InsertionPoint(tree.names, env.lower(name));
    ProofAt(env, tree, name, if k == 0 then 0 else k - 1, if k < |tree.names| then k else k - 1)
  }

  /** The search refuses to answer exactly for listed names, and for "" in the empty tree. */
  lemma RefusedExactlyWhenListed(env: Env, names: seq<string>, name: string)
    ensures env.lower(name) in TreeOf(env, names).names
       <==> env.lower(name) in Lowered(env, names) || (names == [] && env.lower(name) == "")
  {
    SortedSetCorrect(Lowered(env, names));
    if names != [] { NonEmptySorted(env, names); }
  }

  /**
   * Completeness of absence proofs: for a name that is not stored, the proof the search returns
   * verifies exactly when the name lies strictly between the first and the last stored name, and
   * then its two paths spell consecutive positions.
   */
  lemma AnswerVerifiesInside(env: Env, names: seq<string>, name: string)
    requires Lawful(env) && env.lower(name) !in TreeOf(env, names).names
    ensures var tree := TreeOf(env, names);
            var inside := Less(tree.names[0], env.lower(name)) && Less(env.lower(name), tree.names[|tree.names| - 1]);
            && VerifyNonMembership(env, AnswerFor(env, names, name), Hex(tree.root)) == Returned(inside)
            && (inside ==> Adjacent(AnswerFor(env, names, name)))
  {
    if names == [] {
      assert TreeOf(env, names).names == [""];
      EmptyTreeRejects(env, name);
    } else {
      ListedAnswerVerifies(env, names, name);
    }
  }

  lemma ListedAnswerVerifies(env: Env, names: seq<string>, name: string)
    requires Lawful(env) && names != [] && env.lower(name) !in TreeOf(env, names).names
    ensures var tree := TreeOf(env, names);
            var inside := Less(tree.names[0], env.lower(name)) && Less(env.lower(name), tree.names[|tree.names| - 1]);
            && VerifyNonMembership(env, AnswerFor(env, names, name), Hex(tree.root)) == Returned(inside)
            && (inside ==> Adjacent(AnswerFor(env, names, name)))
  {
    var tree, key := TreeOf(env, names), env.lower(name);
    TreeOfValid(env, names);
    var k, n := InsertionPoint(tree.names, key), |tree.names|;
    SplitsAt(tree.names, key);
    var i, j := if k == 0 then 0 else k - 1, if k < n then k else k - 1;
    GenuineProofAccepted(env, names, name, i, j);
    PathComplete(env, names, i);
    PathComplete(env, names, j);
    if k == 0 { LessAsymmetric(key, tree.names[0]); }
    else if k == n { LessAsymmetric(tree.names[n - 1], key); }
  }

  lemma EmptyTreeRejects(env: Env, name: string)
    ensures VerifyNonMembership(env, AnswerFor(env, [], name), Hex(TreeOf(env, []).root)) == Returned(false)
    ensures !(Less("", env.lower(name)) && Less(env.lower(name), ""))
  {
    var key, empty := env.lower(name), env.lower("");
    LessTotal(key, empty);
    if Less(key, empty) { } else if Less(empty, key) { }
    HexRoundTrip(LeafHash(env, ""));
  }

  /** In a strictly sorted list an absent key splits the names at its insertion point. */
  lemma {:induction false} SplitsAt(s: seq<string>, key: string)
    requires StrictlySorted(s) && key !in s
    ensures var k := InsertionPoint(s, key);
            && (forall i :: 0 <= i < k ==> Less(s[i], key))
            && (forall i :: k <= i < |s| ==> Less(key, s[i]))
  {
    if s != [] {
      LessTotal(s[0], key);
      if Less(s[0], key) {
        SplitsAt(s[1..], key);
        var k := InsertionPoint(s[1..], key);
        forall i | 0 <= i < |s| ensures if i < k + 1 then Less(s[i], key) else Less(key, s[i]) {
          if i > 0 { assert s[i] == s[1..][i - 1]; }
        }
      } else {
        forall i | 0 < i < |s| ensures Less(key, s[i]) { LessTransitive(key, s[0], s[i]); }
      }
    }
  }
}
