/** The hash tree of core/aether/src/holographic.rs: incremental updates against a full rebuild, and
    membership proofs.  The digests are parameters, and the mixer of the source is one instance. */
module HolographicTree {

  const MAXIMUM_PROOF_DEPTH := 16

  datatype Option<T> = None | Some(value: T)

  datatype Error = InvalidShape | LeafOutOfRange | TreeTooDeep

  type Word = bv64

  /** The two digests, of which nothing is assumed unless stated. */
  datatype Digests = Digests(leaf: (nat, Word) -> Word, branch: (Word, Word) -> Word)

  function TwoTo(d: nat): nat { if d == 0 then 1 else 2 * TwoTo(d - 1) }

  predicate IsPowerOfTwo(n: nat) { n == 1 || (n > 1 && n % 2 == 0 && IsPowerOfTwo(n / 2)) }

  lemma {:induction false} Exponent(n: nat) returns (d: nat)
    requires IsPowerOfTwo(n)
    ensures n == TwoTo(d)
  {
    if n == 1 {
      d := 0;
    } else {
      var e := Exponent(n / 2);
      d := e + 1;
    }
  }

  lemma {:induction false} PowerIsPower(d: nat)
    ensures IsPowerOfTwo(TwoTo(d)) && TwoTo(d) > 0
  {
    if d > 0 { PowerIsPower(d - 1); }
  }

  lemma {:induction false} TwoToOrder(a: nat, b: nat)
    requires a < b
    ensures 2 * TwoTo(a) <= TwoTo(b)
  {
    if a + 1 < b { TwoToOrder(a, b - 1); }
  }

  predicate ValidShape(leaves: nat, nodes: nat) {
    leaves != 0 && IsPowerOfTwo(leaves) && nodes == leaves * 2 && leaves <= 65536
  }

  /** A valid shape has a depth, and it is within the proof size. */
  lemma ShapeDepth(leaves: nat, nodes: nat) returns (d: nat)
    requires ValidShape(leaves, nodes)
    ensures leaves == TwoTo(d) && d <= MAXIMUM_PROOF_DEPTH
  {
    d := Exponent(leaves);
    if d > 16 {
      TwoToOrder(16, d);
      Sixteen();
      assert false;
    }
  }

  /** The shapes a tree may have: a power of two leaves, at most sixteen levels, twice as many nodes. */
  lemma ShapeExactly(leaves: nat, nodes: nat)
    ensures ValidShape(leaves, nodes) <==> nodes == 2 * leaves && exists d :: 0 <= d <= 16 && leaves == TwoTo(d)
  {
    if ValidShape(leaves, nodes) {
      var d := ShapeDepth(leaves, nodes);
    }
    if d :| 0 <= d <= 16 && leaves == TwoTo(d) {
      PowerIsPower(d);
      Sixteen();
      if d < 16 { TwoToOrder(d, 16); }
    }
  }

  lemma Sixteen()
    ensures TwoTo(16) == 65536
  {
    assert TwoTo(4) == 16;
    assert TwoTo(8) == 16 * TwoTo(4);
    assert TwoTo(12) == 16 * TwoTo(8);
    assert TwoTo(16) == 16 * TwoTo(12);
  }

  // ---- the reference tree ------------------------------------------------

  /** The digest of node k computed from the leaves alone. */
  function Digest(d: Digests, nodes: seq<Word>, leaves: nat, k: nat): Word
    requires |nodes| == 2 * leaves && 0 < k < 2 * leaves
    decreases 2 * leaves - k
  {
    if k >= leaves then nodes[k] else d.branch(Digest(d, nodes, leaves, 2 * k), Digest(d, nodes, leaves, 2 * k + 1))
  }

  ghost predicate ConsistentAt(d: Digests, nodes: seq<Word>, k: nat) {
    2 * k + 1 < |nodes| ==> nodes[k] == d.branch(nodes[2 * k], nodes[2 * k + 1])
  }

  /** Every inner node is the digest of its children. */
  ghost predicate Consistent(d: Digests, nodes: seq<Word>, leaves: nat) {
    |nodes| == 2 * leaves && forall k :: 0 < k < leaves ==> ConsistentAt(d, nodes, k)
  }

  /** A consistent tree is the one a rebuild from its leaves would give. */
  lemma {:induction false} ConsistentIsRebuilt(d: Digests, nodes: seq<Word>, leaves: nat, k: nat)
    requires Consistent(d, nodes, leaves) && 0 < k < 2 * leaves
    ensures nodes[k] == Digest(d, nodes, leaves, k)
    decreases 2 * leaves - k
  {
    if k < leaves {
      assert ConsistentAt(d, nodes, k);
      ConsistentIsRebuilt(d, nodes, leaves, 2 * k);
      ConsistentIsRebuilt(d, nodes, leaves, 2 * k + 1);
    }
  }

  lemma {:induction false} DigestFromLeaves(d: Digests, a: seq<Word>, b: seq<Word>, leaves: nat, k: nat)
    requires |a| == |b| == 2 * leaves && a[leaves..] == b[leaves..] && 0 < k < 2 * leaves
    ensures Digest(d, a, leaves, k) == Digest(d, b, leaves, k)
    decreases 2 * leaves - k
  {
    if k < leaves {
      DigestFromLeaves(d, a, b, leaves, 2 * k);
      DigestFromLeaves(d, a, b, leaves, 2 * k + 1);
    } else {
      assert a[k] == a[leaves..][k - leaves] == b[leaves..][k - leaves];
    }
  }

  /** Two consistent trees with the same leaves agree everywhere: incremental equals rebuilt. */
  lemma SameLeavesSameTree(d: Digests, a: seq<Word>, b: seq<Word>, leaves: nat, k: nat)
    requires Consistent(d, a, leaves) && Consistent(d, b, leaves) && a[leaves..] == b[leaves..] && 0 < k < 2 * leaves
    ensures a[k] == b[k]
  {
    ConsistentIsRebuilt(d, a, leaves, k);
    ConsistentIsRebuilt(d, b, leaves, k);
    DigestFromLeaves(d, a, b, leaves, k);
  }

  // ---- paths to the root -------------------------------------------------

  /** k lies strictly above node. */
  predicate Above(k: nat, node: nat) {
    node > 1 && (k == node / 2 || Above(k, node / 2))
  }

  /** Recomputing the parent of node repairs it and disturbs only what lies above it. */
  lemma RepairStep(d: Digests, nodes: seq<Word>, leaves: nat, node: nat)
    requires |nodes| == 2 * leaves && 1 < node < 2 * leaves
    requires forall k :: 0 < k < leaves && !ConsistentAt(d, nodes, k) ==> Above(k, node)
    ensures var p := node / 2;
            var nodes' := nodes[p := d.branch(nodes[2 * p], nodes[2 * p + 1])];
            forall k :: 0 < k < leaves && !ConsistentAt(d, nodes', k) ==> Above(k, p)
  {
    var p := node / 2;
    var nodes' := nodes[p := d.branch(nodes[2 * p], nodes[2 * p + 1])];
    forall k | 0 < k < leaves && !ConsistentAt(d, nodes', k) ensures Above(k, p) {
      if k != p {
        if 2 * k == p || 2 * k + 1 == p {
          assert k == p / 2;
        } else {
          assert !ConsistentAt(d, nodes, k);
        }
      }
    }
  }

  // ---- proofs ------------------------------------------------------------

  function Sibling(node: nat): nat { if node % 2 == 0 then node + 1 else if node > 0 then node - 1 else 0 }

  function Step(d: Digests, node: nat, digest: Word, sibling: Word): Word {
    if node % 2 == 0 then d.branch(digest, sibling) else d.branch(sibling, digest)
  }

  /** The digest reached from node after climbing over the siblings. */
  function Climb(d: Digests, node: nat, digest: Word, siblings: seq<Word>): Word
    decreases |siblings|
  {
    if siblings == [] then digest else Climb(d, node / 2, Step(d, node, digest, siblings[0]), siblings[1..])
  }

  /** The siblings on the way from node to the root. */
  ghost function PathOf(nodes: seq<Word>, node: nat): seq<Word>
    requires 0 < node < |nodes| && |nodes| % 2 == 0
  {
    if node == 1 then [] else [nodes[Sibling(node)]] + PathOf(nodes, node / 2)
  }

  lemma {:induction false} PathDepth(nodes: seq<Word>, node: nat, d: nat)
    requires 0 < node < |nodes| && |nodes| % 2 == 0 && TwoTo(d) <= node < 2 * TwoTo(d)
    ensures |PathOf(nodes, node)| == d
  {
    PowerIsPower(d);
    if d > 0 { PathDepth(nodes, node / 2, d - 1); }
  }

  /** Climbing the true siblings from a true digest reaches the root. */
  lemma {:induction false} ClimbReachesRoot(d: Digests, nodes: seq<Word>, leaves: nat, node: nat)
    requires Consistent(d, nodes, leaves) && 0 < node < 2 * leaves
    ensures Climb(d, node, nodes[node], PathOf(nodes, node)) == nodes[1]
    decreases node
  {
    if node > 1 {
      var p := node / 2;
      assert ConsistentAt(d, nodes, p);
      var path := PathOf(nodes, node);
      assert path[0] == nodes[Sibling(node)] && path[1..] == PathOf(nodes, p);
      assert Step(d, node, nodes[node], path[0]) == nodes[p];
      ClimbReachesRoot(d, nodes, leaves, p);
    }
  }

  // ---- what a proof decides ----------------------------------------------

  /** Each digest changes whenever one of its arguments does. */
  ghost predicate Separating(d: Digests) {
    && (forall a, b, s :: d.branch(a, s) == d.branch(b, s) ==> a == b)
    && (forall a, b, s :: d.branch(s, a) == d.branch(s, b) ==> a == b)
    && (forall i, v, w :: d.leaf(i, v) == d.leaf(i, w) ==> v == w)
  }

  /** Climbs over the same siblings that meet started from one digest. */
  lemma {:induction false} ClimbInjective(d: Digests, node: nat, a: Word, b: Word, s: seq<Word>)
    requires Separating(d) && Climb(d, node, a, s) == Climb(d, node, b, s)
    ensures a == b
    decreases |s|
  {
    if s != [] {
      ClimbInjective(d, node / 2, Step(d, node, a, s[0]), Step(d, node, b, s[0]), s[1..]);
    }
  }

  /** How to find the argument of a digest that gives a wanted result. */
  datatype Solver = Solver(left: (Word, Word) -> Word, right: (Word, Word) -> Word, value: (nat, Word) -> Word)

  ghost predicate Solves(solver: Solver, d: Digests) {
    && (forall b, r :: d.branch(solver.left(b, r), b) == r)
    && (forall a, r :: d.branch(a, solver.right(a, r)) == r)
    && (forall i, r :: d.leaf(i, solver.value(i, r)) == r)
  }

  /** The digest from which climbing over the siblings reaches the root. */
  function Descend(solver: Solver, node: nat, siblings: seq<Word>, root: Word): Word
    decreases |siblings|
  {
    if siblings == [] then root
    else
      var above := Descend(solver, node / 2, siblings[1..], root);
      if node % 2 == 0 then solver.left(siblings[0], above) else solver.right(siblings[0], above)
  }

  lemma {:induction false} ClimbOnto(d: Digests, solver: Solver, node: nat, siblings: seq<Word>, root: Word)
    requires Solves(solver, d)
    ensures Climb(d, node, Descend(solver, node, siblings, root), siblings) == root
    decreases |siblings|
  {
    if siblings != [] {
      ClimbOnto(d, solver, node / 2, siblings[1..], root);
    }
  }

  /** For fixed siblings and a fixed root exactly one value verifies. */
  lemma OneValueVerifies(d: Digests, solver: Solver, node: nat, index: nat, siblings: seq<Word>, root: Word)
    returns (value: Word)
    requires Separating(d) && Solves(solver, d)
    ensures forall v :: Climb(d, node, d.leaf(index, v), siblings) == root <==> v == value
  {
    var digest := Descend(solver, node, siblings, root);
    value := solver.value(index, digest);
    ClimbOnto(d, solver, node, siblings, root);
    forall v ensures Climb(d, node, d.leaf(index, v), siblings) == root <==> v == value {
      if Climb(d, node, d.leaf(index, v), siblings) == root {
        ClimbInjective(d, node, d.leaf(index, v), digest, siblings);
      }
    }
  }

  /** Siblings of a wanted depth that lead from the digest to the root. */
  lemma {:induction false} SiblingsTo(d: Digests, solver: Solver, node: nat, digest: Word, root: Word, depth: nat)
    returns (siblings: seq<Word>)
    requires Solves(solver, d) && depth > 0
    ensures |siblings| == depth && Climb(d, node, digest, siblings) == root
    decreases depth
  {
    if depth == 1 {
      siblings := [if node % 2 == 0 then solver.right(digest, root) else solver.left(digest, root)];
    } else {
      var rest := SiblingsTo(d, solver, node / 2, Step(d, node, digest, 0), root, depth - 1);
      siblings := [0] + rest;
      assert siblings[1..] == rest;
    }
  }

  /** When the siblings are free, a value verifies against a root exactly when there is a sibling to choose,
      or its own digest is the root. */
  lemma FreeSiblingsVerify(d: Digests, solver: Solver, node: nat, digest: Word, root: Word, depth: nat)
    requires Solves(solver, d)
    ensures (exists siblings :: |siblings| == depth && Climb(d, node, digest, siblings) == root) <==>
              depth > 0 || digest == root
  {
    if depth > 0 {
      var siblings := SiblingsTo(d, solver, node, digest, root, depth);
    } else {
      assert Climb(d, node, digest, []) == digest;
    }
  }

  // ---- the mixer ---------------------------------------------------------

  function Turn(w: Word): Word { w.RotateLeft(31) }

  function Unturn(w: Word): Word { w.RotateRight(31) }

  function Multiply(w: Word): Word { w * 0x9e37_79b1_85eb_ca87 }

  /** Multiplies by the inverse of that odd constant modulo 2^64. */
  function Unmultiply(w: Word): Word { w * 0x0887_4934_32ba_db37 }

  function Fold(w: Word): Word { w ^ (w >> 28) }

  function Unfold(w: Word): Word { w ^ (w >> 28) ^ (w >> 56) }

  function Scramble(w: Word): Word { Fold(Multiply(Turn(w))) }

  function Unscramble(w: Word): Word { Unturn(Unmultiply(Unfold(w))) }

  function Mix(state: Word, value: Word): Word { Scramble(Stir(state, value)) }

  function Stir(state: Word, value: Word): Word { state ^ (value + 0x517c_c1b7_2722_0a95) }

  function Unstir(state: Word, w: Word): Word { (state ^ w) - 0x517c_c1b7_2722_0a95 }

  function Spin(w: Word): Word { w.RotateLeft(17) }

  function Unspin(w: Word): Word { w.RotateRight(17) }

  function LeafState(index: nat): Word {
    0x4c45_4146_5f53_5441 ^ ((index % 0x1_0000_0000_0000_0000) as Word)
  }

  function BranchState(left: Word): Word { left ^ 0x4252_414e_4348_5f31 }

  function LeafDigest(index: nat, value: Word): Word { Mix(LeafState(index), value) }

  function BranchDigest(left: Word, right: Word): Word { Mix(BranchState(left), Spin(right)) }

  const MIXED := Digests(LeafDigest, BranchDigest)

  lemma TurnInverse(w: Word)
    ensures Unturn(Turn(w)) == w && Turn(Unturn(w)) == w
  {
  }

  lemma MultiplyIs(w: Word)
    ensures Multiply(w) == w * 0x9e37_79b1_85eb_ca87 && Unmultiply(w) == w * 0x0887_4934_32ba_db37
  {
  }

  /** The two constants are inverse to each other. */
  lemma InverseConstants(w: Word)
    ensures Unmultiply(w * 0x9e37_79b1_85eb_ca87) == w && Multiply(w * 0x0887_4934_32ba_db37) == w
  {
  }

  lemma MultiplyInverse(w: Word)
    ensures Unmultiply(Multiply(w)) == w && Multiply(Unmultiply(w)) == w
  {
    hide Multiply;
    hide Unmultiply;
    MultiplyIs(w);
    InverseConstants(w);
  }

  lemma FoldIs(w: Word)
    ensures Fold(w) == w ^ (w >> 28) && Unfold(w) == w ^ (w >> 28) ^ (w >> 56)
  {
  }

  lemma InverseShifts(w: Word)
    ensures Unfold(w ^ (w >> 28)) == w && Fold(w ^ (w >> 28) ^ (w >> 56)) == w
  {
  }

  lemma FoldInverse(w: Word)
    ensures Unfold(Fold(w)) == w && Fold(Unfold(w)) == w
  {
    hide Fold;
    hide Unfold;
    FoldIs(w);
    InverseShifts(w);
  }

  lemma SpinInverse(w: Word)
    ensures Unspin(Spin(w)) == w && Spin(Unspin(w)) == w
  {
  }

  lemma StirIs(state: Word, w: Word)
    ensures Stir(state, w) == state ^ (w + 0x517c_c1b7_2722_0a95)
    ensures Unstir(state, w) == (state ^ w) - 0x517c_c1b7_2722_0a95
  {
  }

  lemma InverseSums(state: Word, w: Word)
    ensures Stir(state, (state ^ w) - 0x517c_c1b7_2722_0a95) == w
    ensures Unstir(state, state ^ (w + 0x517c_c1b7_2722_0a95)) == w
    ensures Stir(state ^ (w + 0x517c_c1b7_2722_0a95), w) == state
  {
  }

  lemma StirBack(state: Word, w: Word)
    ensures Stir(state, Unstir(state, w)) == w && Unstir(state, Stir(state, w)) == w && Stir(Stir(state, w), w) == state
  {
    hide Stir;
    hide Unstir;
    StirIs(state, w);
    InverseSums(state, w);
  }

  lemma StirInverse(state: Word, value: Word, w: Word)
    ensures Stir(state, value) == w <==> value == Unstir(state, w)
    ensures Stir(state, value) == w <==> state == Stir(w, value)
  {
    hide Stir;
    hide Unstir;
    StirBack(state, value);
    StirBack(state, w);
    StirBack(w, value);
  }

  lemma BranchStateInverse(left: Word)
    ensures BranchState(BranchState(left)) == left
  {
  }

  lemma ScrambleInverse(w: Word)
    ensures Unscramble(Scramble(w)) == w && Scramble(Unscramble(w)) == w
  {
    hide Turn;
    hide Unturn;
    hide Multiply;
    hide Unmultiply;
    hide Fold;
    hide Unfold;
    TurnInverse(w);
    MultiplyInverse(Turn(w));
    FoldInverse(Multiply(Turn(w)));
    FoldInverse(w);
    MultiplyInverse(Unfold(w));
    TurnInverse(Unmultiply(Unfold(w)));
  }

  /** The argument of the mixer for a given state and result, and the state for a given argument. */
  lemma MixInverse(state: Word, value: Word, r: Word)
    ensures Mix(state, value) == r <==> value == Unstir(state, Unscramble(r))
    ensures Mix(state, value) == r <==> state == Stir(Unscramble(r), value)
  {
    hide Scramble;
    hide Unscramble;
    hide Stir;
    hide Unstir;
    ScrambleInverse(Stir(state, value));
    ScrambleInverse(r);
    StirInverse(state, value, Unscramble(r));
  }

  function MixedLeft(right: Word, r: Word): Word { BranchState(Stir(Unscramble(r), Spin(right))) }

  function MixedRight(left: Word, r: Word): Word { Unspin(Unstir(BranchState(left), Unscramble(r))) }

  function MixedValue(index: nat, r: Word): Word { Unstir(LeafState(index), Unscramble(r)) }

  const MIXED_SOLVER := Solver(MixedLeft, MixedRight, MixedValue)

  lemma BranchExactly(a: Word, b: Word, r: Word)
    ensures BranchDigest(a, b) == r <==> a == MixedLeft(b, r)
    ensures BranchDigest(a, b) == r <==> b == MixedRight(a, r)
  {
    hide Mix;
    hide Unscramble;
    hide Stir;
    hide Unstir;
    hide Spin;
    hide Unspin;
    hide BranchState;
    MixInverse(BranchState(a), Spin(b), r);
    BranchStateInverse(a);
    BranchStateInverse(Stir(Unscramble(r), Spin(b)));
    SpinInverse(b);
    SpinInverse(Unstir(BranchState(a), Unscramble(r)));
  }

  lemma LeafExactly(index: nat, v: Word, r: Word)
    ensures LeafDigest(index, v) == r <==> v == MixedValue(index, r)
  {
    hide Mix;
    hide Unscramble;
    hide Stir;
    hide Unstir;
    hide LeafState;
    MixInverse(LeafState(index), v, r);
  }

  /** The mixer separates values and can be solved for either argument. */
  lemma MixerSeparatesAndSolves()
    ensures Separating(MIXED) && Solves(MIXED_SOLVER, MIXED)
  {
    hide LeafDigest;
    hide BranchDigest;
    hide MixedLeft;
    hide MixedRight;
    hide MixedValue;
    forall a, r
      ensures MIXED.branch(MIXED_SOLVER.left(a, r), a) == r && MIXED.branch(a, MIXED_SOLVER.right(a, r)) == r
    {
      BranchExactly(MixedLeft(a, r), a, r);
      BranchExactly(a, MixedRight(a, r), r);
    }
    forall i, r ensures MIXED.leaf(i, MIXED_SOLVER.value(i, r)) == r {
      LeafExactly(i, MixedValue(i, r), r);
    }
    forall a, b, c | MIXED.branch(a, c) == MIXED.branch(b, c) ensures a == b {
      BranchExactly(a, c, BranchDigest(a, c));
      BranchExactly(b, c, BranchDigest(a, c));
    }
    forall a, b, c | MIXED.branch(c, a) == MIXED.branch(c, b) ensures a == b {
      BranchExactly(c, a, BranchDigest(c, a));
      BranchExactly(c, b, BranchDigest(c, a));
    }
    forall i, v, w | MIXED.leaf(i, v) == MIXED.leaf(i, w) ensures v == w {
      LeafExactly(i, v, LeafDigest(i, v));
      LeafExactly(i, w, LeafDigest(i, v));
    }
  }

  // ---- the tree ----------------------------------------------------------

  datatype Proof = Proof(siblings: seq<Word>)

  /** The next epoch of a 64-bit counter that skips zero. */
  function After(epoch: nat): nat {
    var next := (epoch + 1) % 0x1_0000_0000_0000_0000;
    if next == 0 then 1 else next
  }

  /** Epochs count up, and past the last comes one, so that zero stays the epoch of a tree never built. */
  lemma EpochsCount(epoch: nat)
    requires epoch <= 0xFFFF_FFFF_FFFF_FFFF
    ensures After(epoch) == if epoch < 0xFFFF_FFFF_FFFF_FFFF then epoch + 1 else 1
  {
  }

  class Tree {
    const digests: Digests
    const leaves: nat
    const nodes: array<Word>
    var epoch: nat
    /** The value last written to each leaf, if any. */
    ghost var values: seq<Option<Word>>

    ghost predicate Valid()
      reads this, nodes
    {
      && |values| == leaves
      && (ValidShape(leaves, nodes.Length) ==>
            forall i :: 0 <= i < leaves && values[i].Some? ==> nodes[leaves + i] == digests.leaf(i, values[i].value))
    }

    /** The inner nodes match the leaves. */
    ghost predicate Settled()
      reads this, nodes
    {
      Consistent(digests, nodes[..], leaves)
    }

    constructor (digests: Digests, leaves: nat, nodeCount: nat)
      ensures Valid() && fresh(nodes) && nodes.Length == nodeCount && this.leaves == leaves && this.digests == digests
      ensures values == seq(leaves, _ => None) && epoch == 0 && nodes[..] == seq(nodeCount, _ => 0)
    {
      this.digests := digests;
      this.leaves := leaves;
      nodes := new Word[nodeCount](_ => 0);
      epoch := 0;
      values := seq(leaves, _ => None);
    }

    method WriteLeaf(index: nat, value: Word) returns (error: Option<Error>)
      requires Valid()
      modifies this`values, nodes
      ensures Valid()
      ensures error ==
                if !ValidShape(leaves, nodes.Length) then Some(InvalidShape)
                else if index >= leaves then Some(LeafOutOfRange) else None
      ensures error.Some? ==> nodes[..] == old(nodes[..]) && values == old(values)
      ensures error.None? ==>
                && leaves + index < nodes.Length
                && nodes[..] == old(nodes[..])[leaves + index := digests.leaf(index, value)]
                && values == old(values)[index := Some(value)]
    {
      if !ValidShape(leaves, nodes.Length) { return Some(InvalidShape); }
      if index >= leaves { return Some(LeafOutOfRange); }
      nodes[leaves + index] := digests.leaf(index, value);
      values := values[index := Some(value)];
      return None;
    }

    method NextEpoch()
      modifies this`epoch
      ensures epoch == After(old(epoch))
    {
      epoch := After(epoch);
    }

    method Rebuild() returns (root: Word, error: Option<Error>)
      requires Valid()
      modifies this`epoch, nodes
      ensures Valid()
      ensures error == if ValidShape(leaves, nodes.Length) then None else Some(InvalidShape)
      ensures error.Some? ==> nodes[..] == old(nodes[..])
      ensures error.None? ==>
                && 1 < nodes.Length == 2 * leaves && Settled() && nodes[leaves..] == old(nodes[leaves..])
                && root == nodes[1]
      ensures epoch == if error.None? then After(old(epoch)) else old(epoch)
    {
      if !ValidShape(leaves, nodes.Length) { return 0, Some(InvalidShape); }
      var node := leaves;
      while node > 1
        invariant 1 <= node <= leaves && nodes[leaves..] == old(nodes[leaves..]) && epoch == old(epoch)
        invariant forall k :: node <= k < leaves ==> ConsistentAt(digests, nodes[..], k)
      {
        node := node - 1;
        ghost var before := nodes[..];
        nodes[node] := digests.branch(nodes[node * 2], nodes[node * 2 + 1]);
        forall k | node <= k < leaves ensures ConsistentAt(digests, nodes[..], k) {
          assert k > node ==> ConsistentAt(digests, before, k);
        }
      }
      LeavesKept(old(nodes[..]), nodes[..], leaves);
      NextEpoch();
      return nodes[1], None;
    }

    /** On a settled tree, an update leaves what writing the leaf and rebuilding everything would leave. */
    method Update(index: nat, value: Word) returns (root: Word, error: Option<Error>)
      requires Valid()
      modifies this`epoch, this`values, nodes
      ensures Valid()
      ensures error ==
                if !ValidShape(leaves, nodes.Length) then Some(InvalidShape)
                else if index >= leaves then Some(LeafOutOfRange) else None
      ensures error.Some? ==> nodes[..] == old(nodes[..]) && values == old(values)
      ensures error.None? ==>
                && 1 < nodes.Length == 2 * leaves && root == nodes[1] && values == old(values)[index := Some(value)]
                && nodes[leaves..] == old(nodes[leaves..])[index := digests.leaf(index, value)]
                && (old(Settled()) ==> Settled())
      ensures epoch == if error.None? then After(old(epoch)) else old(epoch)
    {
      hide Consistent;
      hide ConsistentAt;
      hide Above;
      hide After;
      root := 0;
      ghost var settled := Settled();
      ghost var was := nodes[..];
      error := WriteLeaf(index, value);
      if error.Some? { return; }
      assert nodes[leaves..] == was[leaves..][index := digests.leaf(index, value)];
      if settled { LeafDisturbs(digests, was, nodes[..], leaves, index, digests.leaf(index, value)); }
      ghost var base := nodes[leaves..];
      Propagate(leaves + index);
      ValuesKept(digests, nodes[..], leaves, base, values);
      NextEpoch();
      root := nodes[1];
    }

    /** Recomputes every node above start. */
    method Propagate(start: nat)
      requires nodes.Length == 2 * leaves && 1 <= start < 2 * leaves && start >= leaves
      modifies nodes
      ensures nodes[leaves..] == old(nodes[leaves..])
      ensures (forall k :: 0 < k < leaves && !ConsistentAt(digests, old(nodes[..]), k) ==> Above(k, start)) ==>
                Settled()
    {
      ghost var settled := forall k :: 0 < k < leaves && !ConsistentAt(digests, nodes[..], k) ==> Above(k, start);
      var node := start;
      while node > 1
        invariant 1 <= node < 2 * leaves && nodes[leaves..] == old(nodes[leaves..])
        invariant settled ==> forall k :: 0 < k < leaves && !ConsistentAt(digests, nodes[..], k) ==> Above(k, node)
      {
        if settled { RepairStep(digests, nodes[..], leaves, node); }
        ghost var before := nodes[..];
        node := node / 2;
        nodes[node] := digests.branch(nodes[node * 2], nodes[node * 2 + 1]);
        assert nodes[..] == before[node := digests.branch(before[2 * node], before[2 * node + 1])];
      }
    }

    /** The siblings of the path, exactly as many as the tree is deep; the depth error never occurs. */
    method MakeProof(index: nat) returns (proof: Proof, error: Option<Error>)
      ensures error ==
                if !ValidShape(leaves, nodes.Length) then Some(InvalidShape)
                else if index >= leaves then Some(LeafOutOfRange) else None
      ensures error.None? ==>
                && leaves == TwoTo(|proof.siblings|) && |proof.siblings| <= MAXIMUM_PROOF_DEPTH
                && leaves + index < nodes.Length && nodes.Length % 2 == 0
      ensures error.None? ==> proof.siblings == PathOf(nodes[..], leaves + index)
    {
      proof := Proof([]);
      if !ValidShape(leaves, nodes.Length) { return proof, Some(InvalidShape); }
      if index >= leaves { return proof, Some(LeafOutOfRange); }
      ghost var d := ShapeDepth(leaves, nodes.Length);
      var node := leaves + index;
      PathDepth(nodes[..], node, d);
      var siblings: seq<Word> := [];
      while node > 1
        invariant 1 <= node < nodes.Length
        invariant siblings + PathOf(nodes[..], node) == PathOf(nodes[..], leaves + index)
      {
        if |siblings| == MAXIMUM_PROOF_DEPTH { return proof, Some(TreeTooDeep); }
        siblings := siblings + [nodes[Sibling(node)]];
        node := node / 2;
      }
      return Proof(siblings), None;
    }

    /** Climbs from the claimed leaf over the given siblings. */
    method Verify(index: nat, value: Word, proof: Proof, expected: Word) returns (ok: bool, error: Option<Error>)
      ensures error ==
                (if !ValidShape(leaves, nodes.Length) then Some(InvalidShape)
                 else if index >= leaves then Some(LeafOutOfRange)
                        else if |proof.siblings| > MAXIMUM_PROOF_DEPTH then Some(TreeTooDeep) else None)
      ensures error.None? ==>
                ok == (Climb(digests, leaves + index, digests.leaf(index, value), proof.siblings) == expected)
    {
      ok := false;
      if !ValidShape(leaves, nodes.Length) { return ok, Some(InvalidShape); }
      if index >= leaves { return ok, Some(LeafOutOfRange); }
      if |proof.siblings| > MAXIMUM_PROOF_DEPTH { return ok, Some(TreeTooDeep); }
      var node: nat := leaves + index;
      var digest := digests.leaf(index, value);
      var i := 0;
      while i < |proof.siblings|
        invariant 0 <= i <= |proof.siblings|
        invariant Climb(digests, node, digest, proof.siblings[i..]) ==
                    Climb(digests, leaves + index, digests.leaf(index, value), proof.siblings)
      {
        assert proof.siblings[i..][0] == proof.siblings[i] && proof.siblings[i..][1..] == proof.siblings[i + 1..];
        digest := Step(digests, node, digest, proof.siblings[i]);
        node := node / 2;
        i := i + 1;
      }
      return digest == expected, None;
    }
  }

  /** In a settled tree the proof of a leaf verifies for the value last written to it and, when the digests
      separate, for no other. */
  lemma ProofsDecideMembership(d: Digests, nodes: seq<Word>, leaves: nat, index: nat, value: Word, other: Word)
    requires Consistent(d, nodes, leaves) && index < leaves && nodes[leaves + index] == d.leaf(index, value)
    ensures Climb(d, leaves + index, d.leaf(index, value), PathOf(nodes, leaves + index)) == nodes[1]
    ensures Separating(d) ==>
              (Climb(d, leaves + index, d.leaf(index, other), PathOf(nodes, leaves + index)) == nodes[1] <==>
                 other == value)
  {
    hide Climb;
    hide Separating;
    ClimbReachesRoot(d, nodes, leaves, leaves + index);
    hide PathOf;
    if Separating(d) && Climb(d, leaves + index, d.leaf(index, other), PathOf(nodes, leaves + index)) == nodes[1] {
      ClimbInjective(d, leaves + index, d.leaf(index, other), d.leaf(index, value), PathOf(nodes, leaves + index));
      LeafInjective(d, index, other, value);
    }
  }

  lemma LeafInjective(d: Digests, i: nat, v: Word, w: Word)
    requires Separating(d) && d.leaf(i, v) == d.leaf(i, w)
    ensures v == w
  {
  }

  /** With the mixer of the source: the siblings of the tree decide the value, and siblings chosen freely decide
      nothing, since some of any depth above zero lead every value to every root. */
  lemma MixerDecides(nodes: seq<Word>, leaves: nat, index: nat, value: Word, other: Word, depth: nat, root: Word)
    requires Consistent(MIXED, nodes, leaves) && index < leaves && nodes[leaves + index] == MIXED.leaf(index, value)
    ensures Climb(MIXED, leaves + index, MIXED.leaf(index, other), PathOf(nodes, leaves + index)) == nodes[1] <==>
              other == value
    ensures (exists siblings :: && |siblings| == depth
                                && Climb(MIXED, leaves + index, MIXED.leaf(index, other), siblings) == root) <==>
              depth > 0 || MIXED.leaf(index, other) == root
  {
    hide Climb;
    hide Separating;
    hide Solves;
    hide PathOf;
    hide Consistent;
    hide LeafDigest;
    hide BranchDigest;
    MixerSeparatesAndSolves();
    ConsistentSize(MIXED, nodes, leaves);
    ProofsDecideMembership(MIXED, nodes, leaves, index, value, other);
    FreeSiblingsVerify(MIXED, MIXED_SOLVER, leaves + index, MIXED.leaf(index, other), root, depth);
  }

  lemma ConsistentSize(d: Digests, nodes: seq<Word>, leaves: nat)
    requires Consistent(d, nodes, leaves)
    ensures |nodes| == 2 * leaves
  {
  }

  lemma LeavesKept(a: seq<Word>, b: seq<Word>, leaves: nat)
    requires |a| == |b| == 2 * leaves && a[leaves..] == b[leaves..]
    ensures forall k :: leaves <= k < 2 * leaves ==> a[k] == b[k]
  {
    forall k | leaves <= k < 2 * leaves ensures a[k] == b[k] {
      assert a[k] == a[leaves..][k - leaves];
    }
  }

  lemma ValuesKept(d: Digests, nodes: seq<Word>, leaves: nat, base: seq<Word>, values: seq<Option<Word>>)
    requires |nodes| == 2 * leaves && nodes[leaves..] == base && |values| == leaves
    requires forall i :: 0 <= i < leaves && values[i].Some? ==> base[i] == d.leaf(i, values[i].value)
    ensures forall i :: 0 <= i < leaves && values[i].Some? ==> nodes[leaves + i] == d.leaf(i, values[i].value)
  {
  }

  /** Writing a leaf disturbs only the nodes above it. */
  lemma LeafDisturbs(d: Digests, nodes: seq<Word>, nodes': seq<Word>, leaves: nat, index: nat, v: Word)
    requires && |nodes| == 2 * leaves && index < leaves && nodes' == nodes[leaves + index := v]
             && Consistent(d, nodes, leaves)
    ensures forall k :: 0 < k < leaves && !ConsistentAt(d, nodes', k) ==> Above(k, leaves + index)
  {
    forall k | 0 < k < leaves && !ConsistentAt(d, nodes', k) ensures Above(k, leaves + index) {
      assert ConsistentAt(d, nodes, k);
      assert 2 * k == leaves + index || 2 * k + 1 == leaves + index;
    }
  }
}
