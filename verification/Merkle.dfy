/** The sorted Merkle tree of sanctioned names: building, path extraction and path checking. */
module Merkle {
  import opened Bytes
  import opened Text

  /** SHA-256, `str.lower` and UTF-8 encoding: library code the tree is built on. */
  datatype Env = Env(sha: Bytes -> Digest, lower: string -> string, utf8: string -> Bytes)

  /** What the tree needs of the text functions: lower-casing is idempotent, encoding injective. */
  ghost predicate Lawful(env: Env) {
    && (forall s :: env.lower(env.lower(s)) == env.lower(s))
    && (forall s, t :: env.utf8(s) == env.utf8(t) ==> s == t)
  }

  const LEAF: Bytes := [76, 69, 65, 70, 58]
  const NODE: Bytes := [78, 79, 68, 69, 58]

  function LeafInput(env: Env, name: string): Bytes { LEAF + env.utf8(env.lower(name)) }

  function LeafHash(env: Env, name: string): Digest { env.sha(LeafInput(env, name)) }

  function NodeInput(left: Bytes, right: Bytes): Bytes { NODE + left + right }

  function NodeHash(env: Env, left: Bytes, right: Bytes): Digest { env.sha(NodeInput(left, right)) }

  /** What is hashed, byte by byte: the tag in ASCII, then the lower-cased name, or the two children in order. */
  lemma HashInputs(env: Env, name: string, left: Bytes, right: Bytes)
    ensures |LeafInput(env, name)| >= 5 && LeafInput(env, name)[5..] == env.utf8(env.lower(name))
    ensures |NodeInput(left, right)| == 5 + |left| + |right| && NodeInput(left, right)[5..5 + |left|] == left
    ensures NodeInput(left, right)[5 + |left|..] == right
    ensures forall i :: 0 <= i < 5 ==>
              LeafInput(env, name)[i] == "LEAF:"[i] as int && NodeInput(left, right)[i] == "NODE:"[i] as int
    ensures LeafHash(env, name) == env.sha(LeafInput(env, name))
    ensures NodeHash(env, left, right) == env.sha(NodeInput(left, right))
  {
  }

  // ---------------------------------------------------------------- levels

  /** The second child of node j above a level of n entries; the last entry of an odd level pairs with itself. */
  function RightChild(n: nat, j: nat): (c: nat)
    requires 2 * j < n
    ensures c < n && 2 * j <= c <= 2 * j + 1
  {
    if 2 * j + 1 < n then 2 * j + 1 else 2 * j
  }

  function Parent(env: Env, level: seq<Digest>, j: nat): Digest
    requires 2 * j < |level|
  {
    NodeHash(env, level[2 * j], level[RightChild(|level|, j)])
  }

  function NextLevel(env: Env, level: seq<Digest>): (next: seq<Digest>)
    ensures |next| == (|level| + 1) / 2
    ensures forall j :: 0 <= j < |next| ==> next[j] == Parent(env, level, j)
  {
    seq((|level| + 1) / 2, j requires 0 <= 2 * j < |level| => Parent(env, level, j))
  }

  /** A node hashes its two children in order, the last one of an odd level twice. */
  lemma NodesHashChildren(env: Env, level: seq<Digest>, j: nat)
    requires j < |NextLevel(env, level)|
    ensures NextLevel(env, level)[j]
         == env.sha(NodeInput(level[2 * j], if 2 * j + 1 < |level| then level[2 * j + 1] else level[2 * j]))
  {
  }

  function Depth(n: nat): nat {
    if n <= 1 then 0 else 1 + Depth((n + 1) / 2)
  }

  function Root(env: Env, level: seq<Digest>): Digest
    requires |level| > 0
    decreases |level|
  {
    if |level| == 1 then level[0] else Root(env, NextLevel(env, level))
  }

  function Levels(env: Env, level: seq<Digest>): (levels: seq<seq<Digest>>)
    requires |level| > 0
    ensures |levels| == 1 + Depth(|level|)
    ensures levels[0] == level
    decreases |level|
  {
    if |level| == 1 then [level] else [level] + Levels(env, NextLevel(env, level))
  }

  // ---------------------------------------------------------------- trees

  datatype Tree = Tree(names: seq<string>, leaves: seq<Digest>, root: Digest, levels: seq<seq<Digest>>)

  function Lowered(env: Env, names: seq<string>): seq<string> {
    seq(|names|, i requires 0 <= i < |names| => env.lower(names[i]))
  }

  /** The names a tree stores: the lower-cased set in order, or the single "" of the empty tree. */
  function StoredNames(env: Env, names: seq<string>): (stored: seq<string>)
    ensures |stored| > 0
  {
    var s := SortedSet(Lowered(env, names));
    if s == [] then [""] else s
  }

  function Leaves(env: Env, names: seq<string>): (leaves: seq<Digest>)
    ensures |leaves| == |StoredNames(env, names)|
  {
    var s := SortedSet(Lowered(env, names));
    if s == [] then [seq(32, (_: nat) => 0 as Byte)]
    else seq(|s|, i requires 0 <= i < |s| => LeafHash(env, s[i]))
  }

  function TreeOf(env: Env, names: seq<string>): Tree {
    var leaves := Leaves(env, names);
    Tree(StoredNames(env, names), leaves, Root(env, leaves), Levels(env, leaves))
  }

  /** The empty tree: one leaf of 32 zero bytes under the name "", which is also the root. */
  lemma EmptyTree(env: Env)
    ensures var zeros := seq(32, (_: nat) => 0 as Byte);
            TreeOf(env, []) == Tree([""], [zeros], zeros, [[zeros]])
  {
    assert Lowered(env, []) == [];
  }

  method PairUp(env: Env, current: seq<Digest>) returns (next: seq<Digest>)
    ensures next == NextLevel(env, current)
  {
    next := [];
    var i := 0;
    while i < |current|
      invariant i % 2 == 0 && 0 <= i <= |current| + 1
      invariant |next| == i / 2
      invariant forall j :: 0 <= j < i / 2 ==> next[j] == Parent(env, current, j)
    {
      var r := if i + 1 < |current| then current[i + 1] else current[i];
      next := next + [NodeHash(env, current[i], r)];
      i := i + 2;
    }
  }

  method Build(env: Env, names: seq<string>) returns (tree: Tree)
    ensures tree == TreeOf(env, names)
  {
    var sortedNames := SortedSet(Lowered(env, names));
    var leaves: seq<Digest> := seq(|sortedNames|, i requires 0 <= i < |sortedNames| => LeafHash(env, sortedNames[i]));
    if leaves == [] {
      leaves := [seq(32, (_: nat) => 0 as Byte)];
      sortedNames := [""];
    }
    var levels := [leaves];
    var current := leaves;
    while |current| > 1
      invariant |current| > 0 && |levels| > 0 && levels[|levels| - 1] == current
      invariant Root(env, current) == Root(env, leaves)
      invariant levels[..|levels| - 1] + Levels(env, current) == Levels(env, leaves)
      decreases |current|
    {
      var next := PairUp(env, current);
      ghost var before := levels;
      levels := levels + [next];
      assert levels[..|levels| - 1] + Levels(env, next) == before[..|before| - 1] + Levels(env, current);
      current := next;
    }
    assert levels == Levels(env, leaves);
    tree := Tree(sortedNames, leaves, current[0], levels);
  }

  // ---------------------------------------------------------------- paths

  /** One entry of a serialised path; any side other than "right" is read as "left". */
  datatype Step = Step(hash: string, side: string)

  function StepAt(level: seq<Digest>, idx: nat): Step
    requires idx < |level|
  {
    if idx % 2 == 0 then Step(Hex(level[if idx + 1 < |level| then idx + 1 else idx]), "right")
    else Step(Hex(level[idx - 1]), "left")
  }

  function PathOf(env: Env, level: seq<Digest>, idx: nat): (path: seq<Step>)
    requires idx < |level|
    ensures |path| == Depth(|level|)
    decreases |level|
  {
    if |level| == 1 then [] else [StepAt(level, idx)] + PathOf(env, NextLevel(env, level), idx / 2)
  }

  /** Each level but the last has several entries and is followed by the level above it. */
  lemma {:induction false} LevelAbove(env: Env, level: seq<Digest>, k: nat)
    requires |level| > 0 && k < Depth(|level|)
    ensures |Levels(env, level)[k]| > 1
    ensures Levels(env, level)[k + 1] == NextLevel(env, Levels(env, level)[k])
    decreases k
  {
    if k > 0 {
      LevelAbove(env, NextLevel(env, level), k - 1);
    }
  }

  lemma {:induction false} TopLevel(env: Env, level: seq<Digest>)
    requires |level| > 0
    ensures |Levels(env, level)[Depth(|level|)]| == 1
    decreases |level|
  {
    if |level| > 1 {
      TopLevel(env, NextLevel(env, level));
    }
  }

  lemma PathStep(env: Env, level: seq<Digest>, idx: nat, prefix: seq<Step>)
    requires idx < |level| && |level| > 1
    ensures prefix + PathOf(env, level, idx)
         == (prefix + [StepAt(level, idx)]) + PathOf(env, NextLevel(env, level), idx / 2)
  {
  }

  method MerklePath(env: Env, tree: Tree, leafIndex: nat) returns (path: seq<Step>)
    requires leafIndex < |tree.leaves| && tree.levels == Levels(env, tree.leaves)
    ensures path == PathOf(env, tree.leaves, leafIndex)
  {
    path := [];
    var idx, k := leafIndex, 0;
    while k < |tree.levels| - 1
      invariant 0 <= k < |tree.levels|
      invariant 0 <= idx < |tree.levels[k]|
      invariant path + PathOf(env, tree.levels[k], idx) == PathOf(env, tree.leaves, leafIndex)
    {
      var level := tree.levels[k];
      LevelAbove(env, tree.leaves, k);
      PathStep(env, level, idx, path);
      path := path + [StepAt(level, idx)];
      idx := idx / 2;
      k := k + 1;
    }
    TopLevel(env, tree.leaves);
  }

  /** A parsed path entry: the sibling's bytes, and whether it stands on the right. */
  datatype Sibling = Sibling(bytes: Bytes, onRight: bool)

  /** The siblings of a path, or `None` where `bytes.fromhex` raises on one of them. */
  function Parse(path: seq<Step>): (sibs: Option<seq<Sibling>>)
    ensures sibs.Some? ==> |sibs.value| == |path|
  {
    if path == [] then Some([])
    else match (Parse(path[..|path| - 1]), FromHex(path[|path| - 1].hash))
      case (Some(init), Some(b)) => Some(init + [Sibling(b, path[|path| - 1].side == "right")])
      case _ => None
  }

  function CombineInput(current: Bytes, s: Sibling): Bytes {
    if s.onRight then NodeInput(current, s.bytes) else NodeInput(s.bytes, current)
  }

  /** Hashing upwards along a path. */
  function Fold(env: Env, leaf: Bytes, sibs: seq<Sibling>): (top: Bytes)
    ensures |leaf| == 32 ==> |top| == 32
  {
    if sibs == [] then leaf
    else env.sha(CombineInput(Fold(env, leaf, sibs[..|sibs| - 1]), sibs[|sibs| - 1]))
  }

  datatype Outcome = Raised | Returned(accepted: bool)

  function VerifyPath(env: Env, leaf: Bytes, path: seq<Step>, expectedRoot: string): Outcome {
    match Parse(path)
    case None => Raised
    case Some(sibs) => Returned(Hex(Fold(env, leaf, sibs)) == expectedRoot)
  }

  lemma {:induction false} ParsePrefix(path: seq<Step>, k: nat)
    requires k <= |path| && Parse(path).Some?
    ensures Parse(path[..k]) == Some(Parse(path).value[..k])
    decreases |path|
  {
    if k < |path| {
      ParsePrefix(path[..|path| - 1], k);
      assert path[..|path| - 1][..k] == path[..k];
      assert Parse(path).value[..k] == Parse(path[..|path| - 1]).value[..k];
    } else {
      assert path[..k] == path && Parse(path).value[..k] == Parse(path).value;
    }
  }

  /** Checking a path raises exactly when one of its siblings is not hexadecimal. */
  lemma {:induction false} ParseFailsIff(path: seq<Step>)
    ensures Parse(path).None? <==> exists i :: 0 <= i < |path| && FromHex(path[i].hash).None?
  {
    if path != [] {
      var n := |path| - 1;
      ParseFailsIff(path[..n]);
      assert forall i :: 0 <= i < n ==> path[..n][i] == path[i];
      assert FromHex(path[n].hash).None? || Parse(path[..n]).None? <==> Parse(path).None?;
      if Parse(path[..n]).None? {
        var i :| 0 <= i < n && FromHex(path[..n][i].hash).None?;
        assert FromHex(path[i].hash).None?;
      }
    }
  }

  method CheckPath(env: Env, leaf: Bytes, path: seq<Step>, expectedRoot: string) returns (r: Outcome)
    ensures r == VerifyPath(env, leaf, path, expectedRoot)
  {
    var current := leaf;
    ghost var sibs: seq<Sibling> := [];
    var k := 0;
    while k < |path|
      invariant 0 <= k <= |path|
      invariant Parse(path[..k]) == Some(sibs)
      invariant current == Fold(env, leaf, sibs)
    {
      assert path[..k + 1][..k] == path[..k];
      match FromHex(path[k].hash) {
        case None =>
          if Parse(path).Some? { ParsePrefix(path, k + 1); }
          return Raised;
        case Some(sibling) =>
          ghost var more := sibs + [Sibling(sibling, path[k].side == "right")];
          assert more[..|more| - 1] == sibs;
          if path[k].side == "right" {
            current := NodeHash(env, current, sibling);
          } else {
            current := NodeHash(env, sibling, current);
          }
          sibs := more;
      }
      k := k + 1;
    }
    assert path[..k] == path;
    r := Returned(Hex(current) == expectedRoot);
  }

  // ---------------------------------------------------------------- non-membership

  datatype Proof = Proof(
    queriedName: string, leftName: string, rightName: string,
    leftHash: string, rightHash: string,
    leftPath: seq<Step>, rightPath: seq<Step>, root: string)

  /** The proof object made from leaves i and j of a tree. */
  function ProofAt(env: Env, tree: Tree, name: string, i: nat, j: nat): Proof
    requires |tree.names| == |tree.leaves|
    requires i < |tree.leaves| && j < |tree.leaves|
  {
    Proof(name, tree.names[i], tree.names[j], Hex(tree.leaves[i]), Hex(tree.leaves[j]),
          PathOf(env, tree.leaves, i), PathOf(env, tree.leaves, j), Hex(tree.root))
  }

  /** What `build` establishes and the lookups rely on. */
  ghost predicate Valid(env: Env, tree: Tree) {
    && |tree.names| == |tree.leaves| > 0
    && StrictlySorted(tree.names)
    && tree.levels == Levels(env, tree.leaves)
    && tree.root == Root(env, tree.leaves)
  }

  lemma TreeOfValid(env: Env, names: seq<string>)
    ensures Valid(env, TreeOf(env, names))
  {
    SortedSetCorrect(Lowered(env, names));
  }

  /** The binary search: whether a key is stored, and otherwise its insertion point. */
  method Search(names: seq<string>, key: string) returns (found: bool, lo: nat)
    requires StrictlySorted(names)
    ensures found <==> key in names
    ensures !found ==> lo == InsertionPoint(names, key)
  {
    lo := 0;
    var hi := |names| - 1;
    while lo <= hi
      invariant 0 <= lo <= hi + 1 <= |names|
      invariant forall i :: 0 <= i < lo ==> Less(names[i], key)
      invariant forall i :: hi < i < |names| ==> Less(key, names[i])
    {
      var mid := (lo + hi) / 2;
      if names[mid] == key {
        return true, lo;
      } else if Less(names[mid], key) {
        forall i | lo <= i < mid ensures Less(names[i], key) { LessTransitive(names[i], names[mid], key); }
        lo := mid + 1;
      } else {
        LessTotal(names[mid], key);
        forall i | mid < i <= hi ensures Less(key, names[i]) { LessTransitive(key, names[mid], names[i]); }
        hi := mid - 1;
      }
    }
    if lo < |names| { LessAsymmetric(key, names[lo]); }
    InsertionPointUnique(names, key, lo);
    LessIrreflexive(key);
    found := false;
  }

  /** `None` exactly for a stored key, else the proof at the two straddling leaves. */
  method NonMembershipProof(env: Env, tree: Tree, name: string) returns (r: Option<Proof>)
    requires Valid(env, tree)
    ensures r.None? <==> env.lower(name) in tree.names
    ensures r.Some? ==>
      var k := InsertionPoint(tree.names, env.lower(name));
      r.value == ProofAt(env, tree, name, if k == 0 then 0 else k - 1, if k < |tree.names| then k else k - 1)
    ensures r.Some? ==> r.value.queriedName == name && r.value.root == Hex(tree.root)
  {
    var found, lo := Search(tree.names, env.lower(name));
    if found { return None; }
    var leftIdx := if lo - 1 > 0 then lo - 1 else 0;
    var rightIdx := if lo < |tree.names| - 1 then lo else |tree.names| - 1;
    assert leftIdx == if lo == 0 then 0 else lo - 1;
    assert rightIdx == if lo < |tree.names| then lo else lo - 1;
    var proof := MakeProof(env, tree, name, leftIdx, rightIdx);
    r := Some(proof);
  }

  method MakeProof(env: Env, tree: Tree, name: string, i: nat, j: nat) returns (proof: Proof)
    requires |tree.names| == |tree.leaves| && i < |tree.leaves| && j < |tree.leaves|
    requires tree.levels == Levels(env, tree.leaves)
    ensures proof == ProofAt(env, tree, name, i, j)
  {
    var leftPath := MerklePath(env, tree, i);
    var rightPath := MerklePath(env, tree, j);
    proof := Proof(name, tree.names[i], tree.names[j], Hex(tree.leaves[i]), Hex(tree.leaves[j]),
                   leftPath, rightPath, Hex(tree.root));
  }

  function VerifyNonMembership(env: Env, proof: Proof, expectedRoot: string): Outcome {
    var left, right := env.lower(proof.leftName), env.lower(proof.rightName);
    var key := env.lower(proof.queriedName);
    if Hex(LeafHash(env, proof.leftName)) != proof.leftHash then Returned(false)
    else if Hex(LeafHash(env, proof.rightName)) != proof.rightHash then Returned(false)
    else if Less(key, left) || Less(right, key) then Returned(false)
    else if left == key || right == key then Returned(false)
    else match (FromHex(proof.leftHash), FromHex(proof.rightHash))
      case (Some(l), Some(r)) =>
        (match (VerifyPath(env, l, proof.leftPath, expectedRoot), VerifyPath(env, r, proof.rightPath, expectedRoot))
         case (Returned(leftOk), Returned(rightOk)) => Returned(leftOk && rightOk && proof.root == expectedRoot)
         case _ => Raised)
      case _ => Raised
  }

  /**
   * The verifier accepts exactly the proofs whose leaf hashes are those of the named leaves, whose queried
   * name lies strictly between them, whose paths both lead to the expected root, and which carry that root.
   */
  lemma AcceptedExactly(env: Env, proof: Proof, expectedRoot: string)
    ensures VerifyNonMembership(env, proof, expectedRoot) == Returned(true)
       <==> && proof.leftHash == Hex(LeafHash(env, proof.leftName))
            && proof.rightHash == Hex(LeafHash(env, proof.rightName))
            && Less(env.lower(proof.leftName), env.lower(proof.queriedName))
            && Less(env.lower(proof.queriedName), env.lower(proof.rightName))
            && VerifyPath(env, LeafHash(env, proof.leftName), proof.leftPath, expectedRoot) == Returned(true)
            && VerifyPath(env, LeafHash(env, proof.rightName), proof.rightPath, expectedRoot) == Returned(true)
            && proof.root == expectedRoot
  {
    HexRoundTrip(LeafHash(env, proof.leftName));
    HexRoundTrip(LeafHash(env, proof.rightName));
    BetweenIffStrict(env.lower(proof.leftName), env.lower(proof.queriedName), env.lower(proof.rightName));
  }

  /** The comparison of names, as the verifier writes it, is strict betweenness. */
  lemma BetweenIffStrict(left: string, key: string, right: string)
    ensures !(Less(key, left) || Less(right, key)) && left != key && right != key <==> Less(left, key) && Less(key, right)
  {
    LessTotal(left, key);
    LessTotal(key, right);
    if Less(left, key) { LessAsymmetric(left, key); }
    if Less(key, right) { LessAsymmetric(key, right); }
  }

  /** It raises exactly when it gets to the paths and one of them has a sibling that is not hexadecimal. */
  lemma RaisedExactly(env: Env, proof: Proof, expectedRoot: string)
    ensures VerifyNonMembership(env, proof, expectedRoot) == Raised
       <==> && proof.leftHash == Hex(LeafHash(env, proof.leftName))
            && proof.rightHash == Hex(LeafHash(env, proof.rightName))
            && Less(env.lower(proof.leftName), env.lower(proof.queriedName))
            && Less(env.lower(proof.queriedName), env.lower(proof.rightName))
            && (Parse(proof.leftPath).None? || Parse(proof.rightPath).None?)
  {
    HexRoundTrip(LeafHash(env, proof.leftName));
    HexRoundTrip(LeafHash(env, proof.rightName));
    BetweenIffStrict(env.lower(proof.leftName), env.lower(proof.queriedName), env.lower(proof.rightName));
  }
}
