/** The Merkle tree of manifest/merkle.go and its inclusion proofs
    (manifest/proof.go).

    SHA-256 is a parameter `sha`, any function into 32 bytes.  Every such
    function has collisions, so "unless there is a collision" is never stated as a
    bare existence: the colliding inputs are named among the finitely many inputs
    hashed to build the tree or to check the proof.

    The code builds the tree level by level, as lists of digests, duplicating
    the last node of an odd level.  `TreeOf` is the reference: the same shape as
    a binary tree of digests, with `Hash` its root digest.
 */
module Merkle {
  import opened Bytes
  import opened Results

  const HASH_SIZE := 32

  type Digest = b: bytes | |b| == HASH_SIZE witness seq(HASH_SIZE, _ => 0)
  type Sha = bytes -> Digest

  // ---- levels, as the code builds them ----

  datatype Tree = Tree(leaves: seq<Digest>, levels: seq<seq<Digest>>)
  {
    function LeafCount(): nat { |leaves| }

    function Depth(): nat { |levels| }

    function Root(): Digest
      requires |levels| > 0 && |levels[|levels| - 1]| > 0
    {
      levels[|levels| - 1][0]
    }
  }

  /** The right neighbour of an even position, or the position itself at the odd end. */
  function Sibling(n: nat, i: nat): nat
    requires i < n
  {
    if i + 1 < n then i + 1 else i
  }

  function Joined(left: bytes, right: bytes): bytes { left + right }

  function Parent(sha: Sha, left: bytes, right: bytes): Digest { sha(left + right) }

  function NextLevel(sha: Sha, level: seq<Digest>): (next: seq<Digest>)
    ensures |next| == (|level| + 1) / 2
  {
    seq<Digest>((|level| + 1) / 2, i requires 0 <= i < (|level| + 1) / 2 =>
      Parent(sha, level[2 * i], level[Sibling(|level|, 2 * i)]))
  }

  function Levels(sha: Sha, level: seq<Digest>): (r: seq<seq<Digest>>)
    requires level != []
    ensures |r| > 0 && r[0] == level && |r[|r| - 1]| == 1
    decreases |level|
  {
    if |level| == 1 then [level] else [level] + Levels(sha, NextLevel(sha, level))
  }

  function Root(sha: Sha, leaves: seq<Digest>): Digest
    requires leaves != []
  {
    var ls := Levels(sha, leaves);
    ls[|ls| - 1][0]
  }

  ghost predicate ValidTree(sha: Sha, t: Tree) {
    t.leaves != [] && t.levels == Levels(sha, t.leaves)
  }

  // ---- reference tree ----

  datatype Node = Leaf(d: Digest) | Fork(l: Node, r: Node)

  function Hash(sha: Sha, t: Node): Digest {
    match t
    case Leaf(d) => d
    case Fork(l, r) => Parent(sha, Hash(sha, l), Hash(sha, r))
  }

  function LeafList(t: Node): seq<Digest> {
    match t
    case Leaf(d) => [d]
    case Fork(l, r) => LeafList(l) + LeafList(r)
  }

  ghost predicate Perfect(t: Node, h: nat) {
    match t
    case Leaf(_) => h == 0
    case Fork(l, r) => h > 0 && Perfect(l, h - 1) && Perfect(r, h - 1)
  }

  /** Neighbours paired up, the last one with itself when it has none. */
  function Pairs(ts: seq<Node>): (r: seq<Node>)
    ensures |r| == (|ts| + 1) / 2
  {
    seq((|ts| + 1) / 2, i requires 0 <= i < (|ts| + 1) / 2 => Fork(ts[2 * i], ts[Sibling(|ts|, 2 * i)]))
  }

  function Build(ts: seq<Node>): Node
    requires ts != []
    decreases |ts|
  {
    if |ts| == 1 then ts[0] else Build(Pairs(ts))
  }

  function LeafNodes(ds: seq<Digest>): (r: seq<Node>)
    ensures |r| == |ds|
  {
    seq(|ds|, i requires 0 <= i < |ds| => Leaf(ds[i]))
  }

  function TreeOf(ds: seq<Digest>): Node
    requires ds != []
  {
    Build(LeafNodes(ds))
  }

  // ---- the level list computes the reference tree ----

  function Hashes(sha: Sha, ts: seq<Node>): (r: seq<Digest>)
    ensures |r| == |ts|
  {
    seq(|ts|, i requires 0 <= i < |ts| => Hash(sha, ts[i]))
  }

  lemma HashesOfPairs(sha: Sha, ts: seq<Node>)
    ensures Hashes(sha, Pairs(ts)) == NextLevel(sha, Hashes(sha, ts))
  {
    var a, b := Hashes(sha, Pairs(ts)), NextLevel(sha, Hashes(sha, ts));
    forall i | 0 <= i < |a| ensures a[i] == b[i] {
      assert Pairs(ts)[i] == Fork(ts[2 * i], ts[Sibling(|ts|, 2 * i)]);
    }
  }

  /** The levels above `Hashes(ts)`, and the perfect tree `Build(ts)` they compute. */
  lemma {:induction false} LevelsBuild(sha: Sha, ts: seq<Node>, h: nat)
    requires ts != [] && forall i :: 0 <= i < |ts| ==> Perfect(ts[i], h)
    ensures var ls := Levels(sha, Hashes(sha, ts));
            && ls[|ls| - 1] == [Hash(sha, Build(ts))]
            && Perfect(Build(ts), h + |ls| - 1)
    decreases |ts|
  {
    if |ts| == 1 {
      assert Hashes(sha, ts) == [Hash(sha, ts[0])];
    } else {
      HashesOfPairs(sha, ts);
      PairsPerfect(ts, h);
      LevelsBuild(sha, Pairs(ts), h + 1);
      TopOfLevels(sha, Hashes(sha, ts));
    }
  }

  lemma PairsPerfect(ts: seq<Node>, h: nat)
    requires forall i :: 0 <= i < |ts| ==> Perfect(ts[i], h)
    ensures forall i :: 0 <= i < |Pairs(ts)| ==> Perfect(Pairs(ts)[i], h + 1)
  {
  }

  /** Leaving out the lowest level leaves the top where it is. */
  lemma TopOfLevels(sha: Sha, level: seq<Digest>)
    requires |level| > 1
    ensures var ls, up := Levels(sha, level), Levels(sha, NextLevel(sha, level));
            |ls| == |up| + 1 && ls[|ls| - 1] == up[|up| - 1]
  {
    var ls, up := Levels(sha, level), Levels(sha, NextLevel(sha, level));
    assert ls == [level] + up;
  }

  /** The root the code computes is the root digest of the reference tree, which is
      perfect of height Depth() - 1. */
  lemma RootIsTreeHash(sha: Sha, ds: seq<Digest>)
    requires ds != []
    ensures Root(sha, ds) == Hash(sha, TreeOf(ds))
    ensures Perfect(TreeOf(ds), |Levels(sha, ds)| - 1)
  {
    var ts := LeafNodes(ds);
    assert Hashes(sha, ts) == ds;
    LevelsBuild(sha, ts, 0);
  }

  /** One level above another in plain terms: digests hashed two by two, the last of an odd level with itself. */
  lemma NextInPairs(sha: Sha, low: seq<Digest>)
    ensures var high, n := NextLevel(sha, low), |low|;
            && |high| == (n + 1) / 2
            && (forall i :: 0 <= i < n / 2 ==> high[i] == sha(Joined(low[2 * i], low[2 * i + 1])))
            && (n % 2 == 1 ==> high[n / 2] == sha(Joined(low[n - 1], low[n - 1])))
  {
  }

  /** All levels: the leaves first, one digest last, that digest the root, and each level in between hashed so from
      the one below it. */
  lemma {:induction false} LevelsInPairs(sha: Sha, ds: seq<Digest>, k: nat)
    requires ds != []
    ensures var ls := Levels(sha, ds);
            && ls[0] == ds && |ls[|ls| - 1]| == 1 && Root(sha, ds) == ls[|ls| - 1][0]
            && (k + 1 < |ls| ==>
                  var low, high, n := ls[k], ls[k + 1], |ls[k]|;
                  && n > 1 && |high| == (n + 1) / 2
                  && (forall i :: 0 <= i < n / 2 ==> high[i] == sha(Joined(low[2 * i], low[2 * i + 1])))
                  && (n % 2 == 1 ==> high[n / 2] == sha(Joined(low[n - 1], low[n - 1]))))
    decreases k
  {
    hide NextLevel;
    FirstLevel(sha, ds);
    if |ds| > 1 {
      var up := NextLevel(sha, ds);
      if k > 0 {
        LevelsInPairs(sha, up, k - 1);
      } else {
        NextInPairs(sha, ds);
        FirstLevel(sha, up);
      }
    }
  }

  lemma {:induction false} LeavesOfBuild(ts: seq<Node>, x: Digest)
    requires ts != [] && x in LeafList(Build(ts))
    ensures exists i :: 0 <= i < |ts| && x in LeafList(ts[i])
    decreases |ts|
  {
    if |ts| > 1 {
      LeavesOfBuild(Pairs(ts), x);
      var i :| 0 <= i < |Pairs(ts)| && x in LeafList(Pairs(ts)[i]);
      assert Pairs(ts)[i] == Fork(ts[2 * i], ts[Sibling(|ts|, 2 * i)]);
      assert x in LeafList(ts[2 * i]) || x in LeafList(ts[Sibling(|ts|, 2 * i)]);
    }
  }

  lemma LeavesOfTree(ds: seq<Digest>, x: Digest)
    requires ds != [] && x in LeafList(TreeOf(ds))
    ensures x in ds
  {
    LeavesOfBuild(LeafNodes(ds), x);
    var i :| 0 <= i < |ds| && x in LeafList(LeafNodes(ds)[i]);
    assert LeafNodes(ds)[i] == Leaf(ds[i]);
  }

  // ---- collisions ----

  /** Everything hashed to compute the root of `t`. */
  function Inputs(sha: Sha, t: Node): set<bytes> {
    match t
    case Leaf(_) => {}
    case Fork(l, r) => {Hash(sha, l) + Hash(sha, r)} + Inputs(sha, l) + Inputs(sha, r)
  }

  /** A collision with one input from each of two given finite sets. */
  ghost predicate Collision(sha: Sha, A: set<bytes>, B: set<bytes>) {
    exists a, b :: a in A && b in B && a != b && sha(a) == sha(b)
  }

  lemma CollisionMonotone(sha: Sha, A: set<bytes>, B: set<bytes>, A': set<bytes>, B': set<bytes>)
    requires Collision(sha, A, B) && A <= A' && B <= B'
    ensures Collision(sha, A', B')
  {
    var a, b :| a in A && b in B && a != b && sha(a) == sha(b);
    assert a in A' && b in B';
  }

  /** Perfect trees of one height with one root digest are equal, or hashing them
      met a collision. */
  lemma {:induction false} HashBinds(sha: Sha, s: Node, t: Node, h: nat)
    requires Perfect(s, h) && Perfect(t, h) && Hash(sha, s) == Hash(sha, t)
    ensures s == t || Collision(sha, Inputs(sha, s), Inputs(sha, t))
  {
    if s.Fork? {
      var a, b := Hash(sha, s.l) + Hash(sha, s.r), Hash(sha, t.l) + Hash(sha, t.r);
      if a == b {
        SplitEqual(Hash(sha, s.l), Hash(sha, s.r), Hash(sha, t.l), Hash(sha, t.r));
        HashBinds(sha, s.l, t.l, h - 1);
        HashBinds(sha, s.r, t.r, h - 1);
        if s.l != t.l {
          CollisionMonotone(sha, Inputs(sha, s.l), Inputs(sha, t.l), Inputs(sha, s), Inputs(sha, t));
        } else if s.r != t.r {
          CollisionMonotone(sha, Inputs(sha, s.r), Inputs(sha, t.r), Inputs(sha, s), Inputs(sha, t));
        }
      } else {
        assert a in Inputs(sha, s) && b in Inputs(sha, t);
      }
    }
  }

  lemma {:induction false} BuildInjective(ss: seq<Node>, ts: seq<Node>)
    requires |ss| == |ts| > 0 && Build(ss) == Build(ts)
    ensures ss == ts
    decreases |ss|
  {
    if |ss| == 1 {
      assert ss == [ss[0]] && ts == [ts[0]];
    } else {
      BuildInjective(Pairs(ss), Pairs(ts));
      forall i | 0 <= i < |ss| ensures ss[i] == ts[i] {
        var k := i / 2;
        assert Pairs(ss)[k] == Pairs(ts)[k];
        assert Pairs(ss)[k] == Fork(ss[2 * k], ss[Sibling(|ss|, 2 * k)]);
        assert Pairs(ts)[k] == Fork(ts[2 * k], ts[Sibling(|ts|, 2 * k)]);
        assert i == 2 * k || i == Sibling(|ss|, 2 * k);
      }
    }
  }

  lemma {:induction false} LevelCount(sha: Sha, xs: seq<Digest>, ys: seq<Digest>)
    requires |xs| == |ys| > 0
    ensures |Levels(sha, xs)| == |Levels(sha, ys)|
    decreases |xs|
  {
    if |xs| > 1 { LevelCount(sha, NextLevel(sha, xs), NextLevel(sha, ys)); }
  }

  /** Two leaf lists of one depth share a root exactly when their duplicate-last trees coincide, unless
      hashing them met a collision. */
  lemma RootBindsDepth(sha: Sha, xs: seq<Digest>, ys: seq<Digest>)
    requires xs != [] && ys != [] && |Levels(sha, xs)| == |Levels(sha, ys)|
    ensures TreeOf(xs) == TreeOf(ys) ==> Root(sha, xs) == Root(sha, ys)
    ensures Root(sha, xs) == Root(sha, ys) ==>
              TreeOf(xs) == TreeOf(ys) || Collision(sha, Inputs(sha, TreeOf(xs)), Inputs(sha, TreeOf(ys)))
  {
    RootIsTreeHash(sha, xs);
    RootIsTreeHash(sha, ys);
    if Root(sha, xs) == Root(sha, ys) {
      HashBinds(sha, TreeOf(xs), TreeOf(ys), |Levels(sha, xs)| - 1);
    }
  }

  /** Leaves and inner nodes are hashed alike, so the level above the leaves, taken as leaves, has the
      same root, for every list of two or more. */
  lemma InnerLevelSharesRoot(sha: Sha, xs: seq<Digest>)
    requires |xs| >= 2
    ensures Root(sha, NextLevel(sha, xs)) == Root(sha, xs)
    ensures |NextLevel(sha, xs)| < |xs|
  {
    TopOfLevels(sha, xs);
  }

  lemma FirstLevel(sha: Sha, xs: seq<Digest>)
    requires xs != []
    ensures Levels(sha, xs) == if |xs| == 1 then [xs] else [xs] + Levels(sha, NextLevel(sha, xs))
  {
  }

  /** Every level of a tree, taken as leaves, has the root of the tree and the levels above it. */
  lemma {:induction false} LevelIsTree(sha: Sha, xs: seq<Digest>, k: nat)
    requires xs != [] && k < |Levels(sha, xs)|
    ensures var l := Levels(sha, xs)[k];
            l != [] && Levels(sha, l) == Levels(sha, xs)[k..] && Root(sha, l) == Root(sha, xs)
    decreases k
  {
    hide Levels, NextLevel, Root;
    var ls := Levels(sha, xs);
    FirstLevel(sha, xs);
    if k == 0 {
      assert ls[0..] == ls;
    } else {
      var up := NextLevel(sha, xs);
      LevelIsTree(sha, up, k - 1);
      InnerLevelSharesRoot(sha, xs);
      assert ls[k..] == Levels(sha, up)[k - 1..];
    }
  }

  lemma {:induction false} InputsOfBuild(sha: Sha, ts: seq<Node>, i: nat)
    requires i < |ts|
    ensures Inputs(sha, ts[i]) <= Inputs(sha, Build(ts))
    decreases |ts|
  {
    if |ts| > 1 {
      assert Pairs(ts)[i / 2] == Fork(ts[i / 2 * 2], ts[Sibling(|ts|, i / 2 * 2)]);
      assert i == i / 2 * 2 || i == Sibling(|ts|, i / 2 * 2);
      InputsOfBuild(sha, Pairs(ts), i / 2);
    }
  }

  /** The first node of a level above the leaves is the hash of two digests that were hashed for the root. */
  lemma {:induction false} UpperNode(sha: Sha, ts: seq<Node>, k: nat) returns (b: bytes)
    requires ts != [] && 0 < k < |Levels(sha, Hashes(sha, ts))|
    ensures Levels(sha, Hashes(sha, ts))[k] != []
    ensures b in Inputs(sha, Build(ts)) && |b| == 2 * HASH_SIZE && sha(b) == Levels(sha, Hashes(sha, ts))[k][0]
    decreases k
  {
    HashesOfPairs(sha, ts);
    FirstLevel(sha, Hashes(sha, ts));
    FirstLevel(sha, Hashes(sha, Pairs(ts)));
    hide Levels, NextLevel;
    if k == 1 {
      var l, r := ts[0], ts[Sibling(|ts|, 0)];
      b := Hash(sha, l) + Hash(sha, r);
      assert Pairs(ts)[0] == Fork(l, r);
      InputsOfBuild(sha, Pairs(ts), 0);
    } else {
      b := UpperNode(sha, Pairs(ts), k - 1);
    }
  }

  lemma {:induction false} InputsMonotone(sha: Sha, us: seq<Node>, ts: seq<Node>)
    requires |us| == |ts| > 0
    requires forall i :: 0 <= i < |ts| ==> Hash(sha, us[i]) == Hash(sha, ts[i]) && Inputs(sha, us[i]) <= Inputs(sha, ts[i])
    ensures Inputs(sha, Build(us)) <= Inputs(sha, Build(ts))
    decreases |ts|
  {
    if |ts| > 1 {
      var a, b := Pairs(us), Pairs(ts);
      forall i | 0 <= i < |b| ensures Hash(sha, a[i]) == Hash(sha, b[i]) && Inputs(sha, a[i]) <= Inputs(sha, b[i]) {
        PairMonotone(sha, us[2 * i], us[Sibling(|us|, 2 * i)], ts[2 * i], ts[Sibling(|ts|, 2 * i)]);
      }
      InputsMonotone(sha, a, b);
    }
  }

  lemma PairMonotone(sha: Sha, l: Node, r: Node, l': Node, r': Node)
    requires Hash(sha, l) == Hash(sha, l') && Hash(sha, r) == Hash(sha, r')
    requires Inputs(sha, l) <= Inputs(sha, l') && Inputs(sha, r) <= Inputs(sha, r')
    ensures Hash(sha, Fork(l, r)) == Hash(sha, Fork(l', r')) && Inputs(sha, Fork(l, r)) <= Inputs(sha, Fork(l', r'))
  {
  }

  /** Whatever is hashed for the tree over a level was hashed for the tree itself. */
  lemma {:induction false} InputsOfLevel(sha: Sha, ts: seq<Node>, k: nat)
    requires ts != [] && k < |Levels(sha, Hashes(sha, ts))|
    ensures var l := Levels(sha, Hashes(sha, ts))[k]; l != [] && Inputs(sha, TreeOf(l)) <= Inputs(sha, Build(ts))
    decreases k
  {
    FirstLevel(sha, Hashes(sha, ts));
    hide Levels, NextLevel;
    if k == 0 {
      InputsMonotone(sha, LeafNodes(Hashes(sha, ts)), ts);
    } else {
      HashesOfPairs(sha, ts);
      InputsOfLevel(sha, Pairs(ts), k - 1);
    }
  }

  /** Main result: what a root commits to, for any two leaf lists.  The deeper tree has one level as far
      from the root as the other's leaves are; the roots are equal exactly when the tree over that level
      is the other tree, unless hashing the two met a collision. */
  lemma RootBinds(sha: Sha, xs: seq<Digest>, ys: seq<Digest>)
    requires xs != [] && ys != [] && |Levels(sha, xs)| >= |Levels(sha, ys)|
    ensures var l := Levels(sha, xs)[|Levels(sha, xs)| - |Levels(sha, ys)|];
            && l != [] && Inputs(sha, TreeOf(l)) <= Inputs(sha, TreeOf(xs))
            && (TreeOf(l) == TreeOf(ys) ==> Root(sha, xs) == Root(sha, ys))
            && (Root(sha, xs) == Root(sha, ys) ==>
                  TreeOf(l) == TreeOf(ys) || Collision(sha, Inputs(sha, TreeOf(l)), Inputs(sha, TreeOf(ys))))
  {
    hide Levels, Root, Build;
    var k := |Levels(sha, xs)| - |Levels(sha, ys)|;
    LevelIsTree(sha, xs, k);
    assert Hashes(sha, LeafNodes(xs)) == xs;
    InputsOfLevel(sha, LeafNodes(xs), k);
    RootBindsDepth(sha, Levels(sha, xs)[k], ys);
  }

  /** With the leaf count fixed the root commits to the leaves themselves. */
  lemma RootBindsLeaves(sha: Sha, xs: seq<Digest>, ys: seq<Digest>)
    requires |xs| == |ys| > 0 && Root(sha, xs) == Root(sha, ys)
    ensures xs == ys || Collision(sha, Inputs(sha, TreeOf(xs)), Inputs(sha, TreeOf(ys)))
  {
    LevelCount(sha, xs, ys);
    RootBindsDepth(sha, xs, ys);
    if TreeOf(xs) == TreeOf(ys) {
      BuildInjective(LeafNodes(xs), LeafNodes(ys));
      forall i | 0 <= i < |xs| ensures xs[i] == ys[i] {
        assert LeafNodes(xs)[i] == LeafNodes(ys)[i];
      }
    }
  }

  /** Without the count it does not: every odd list of three or more leaves shares its
      root with the longer list that repeats its last leaf, and no collision is
      needed for it. */
  lemma DuplicateLastSharesRoot(sha: Sha, xs: seq<Digest>)
    requires |xs| % 2 == 1 && |xs| >= 3
    ensures var ys := xs + [xs[|xs| - 1]];
            TreeOf(xs) == TreeOf(ys) && Root(sha, xs) == Root(sha, ys)
  {
    var ys := xs + [xs[|xs| - 1]];
    var a, b := Pairs(LeafNodes(xs)), Pairs(LeafNodes(ys));
    assert |a| == |b|;
    forall i | 0 <= i < |a| ensures a[i] == b[i] {
      assert a[i] == Fork(Leaf(xs[2 * i]), Leaf(xs[Sibling(|xs|, 2 * i)]));
      assert b[i] == Fork(Leaf(ys[2 * i]), Leaf(ys[Sibling(|ys|, 2 * i)]));
    }
    assert a == b;
    RootIsTreeHash(sha, xs);
    RootIsTreeHash(sha, ys);
  }

  // ---- proofs ----

  datatype ProofStep = ProofStep(hash: bytes, right: bool)
  datatype Proof = Proof(steps: seq<ProofStep>, index: int, count: int)

  function StepInput(current: bytes, s: ProofStep): bytes {
    if s.right then current + s.hash else s.hash + current
  }

  function Fold(sha: Sha, leaf: bytes, steps: seq<ProofStep>): bytes {
    if steps == [] then leaf
    else sha(StepInput(Fold(sha, leaf, steps[..|steps| - 1]), steps[|steps| - 1]))
  }

  /** Everything hashed while folding a proof. */
  function FoldInputs(sha: Sha, leaf: bytes, steps: seq<ProofStep>): set<bytes> {
    if steps == [] then {}
    else
      var front := steps[..|steps| - 1];
      FoldInputs(sha, leaf, front) + {StepInput(Fold(sha, leaf, front), steps[|steps| - 1])}
  }

  predicate StepsSized(steps: seq<ProofStep>) {
    forall i :: 0 <= i < |steps| ==> |steps[i].hash| == HASH_SIZE
  }

  /** What `VerifyProof` accepts. */
  predicate Accepts(sha: Sha, root: bytes, leaf: bytes, p: Proof) {
    && |root| == HASH_SIZE && |leaf| == HASH_SIZE
    && 0 <= p.index < p.count
    && StepsSized(p.steps)
    && Fold(sha, leaf, p.steps) == root
  }

  /** The digests met on the way up: each hashed with the sibling of its step, on the side the step names. */
  ghost predicate Climbs(sha: Sha, leaf: bytes, steps: seq<ProofStep>, path: seq<bytes>) {
    && |path| == |steps| + 1 && path[0] == leaf
    && (forall i :: 0 <= i < |steps| ==>
          path[i + 1] == sha(if steps[i].right then path[i] + steps[i].hash else steps[i].hash + path[i]))
  }

  lemma {:induction false} FoldClimbs(sha: Sha, leaf: bytes, steps: seq<ProofStep>, path: seq<bytes>)
    requires Climbs(sha, leaf, steps, path)
    ensures Fold(sha, leaf, steps) == path[|steps|]
  {
    if steps != [] { FoldClimbs(sha, leaf, steps[..|steps| - 1], path[..|steps|]); }
  }

  /** What is accepted, in plain terms: digests of 32 bytes, an index within the count, and a way up that ends in
      the root. */
  lemma AcceptedExactly(sha: Sha, root: bytes, leaf: bytes, p: Proof, path: seq<bytes>)
    requires Climbs(sha, leaf, p.steps, path)
    ensures Accepts(sha, root, leaf, p) <==>
              && |root| == 32 && |leaf| == 32 && 0 <= p.index < p.count
              && (forall i :: 0 <= i < |p.steps| ==> |p.steps[i].hash| == 32)
              && path[|p.steps|] == root
  {
    FoldClimbs(sha, leaf, p.steps, path);
  }

  /** A fold that reaches the digest of a perfect tree of its own height starts at one
      of its leaves, or met a collision on the way. */
  lemma {:induction false} FoldSound(sha: Sha, leaf: Digest, steps: seq<ProofStep>, t: Node)
    requires StepsSized(steps) && Perfect(t, |steps|)
    requires Fold(sha, leaf, steps) == Hash(sha, t)
    ensures leaf in LeafList(t) || Collision(sha, FoldInputs(sha, leaf, steps), Inputs(sha, t))
    decreases |steps|
  {
    if steps != [] {
      var front, s := steps[..|steps| - 1], steps[|steps| - 1];
      var current := Fold(sha, leaf, front);
      var a, b := StepInput(current, s), Hash(sha, t.l) + Hash(sha, t.r);
      if a != b {
        assert a in FoldInputs(sha, leaf, steps) && b in Inputs(sha, t);
      } else {
        var child := if s.right then t.l else t.r;
        if s.right {
          SplitEqual(current, s.hash, Hash(sha, t.l), Hash(sha, t.r));
        } else {
          SplitEqual(s.hash, current, Hash(sha, t.l), Hash(sha, t.r));
        }
        FoldSound(sha, leaf, front, child);
        if leaf !in LeafList(child) {
          CollisionMonotone(sha, FoldInputs(sha, leaf, front), Inputs(sha, child),
                            FoldInputs(sha, leaf, steps), Inputs(sha, t));
        }
      }
    }
  }

  /** Main result, soundness: a proof accepted against the root of a tree, with as many
      steps as the tree has levels above the leaves, proves membership, or an input
      hashed by the verifier collides with one hashed to build the tree. */
  lemma ProofSound(sha: Sha, t: Tree, leaf: bytes, p: Proof)
    requires ValidTree(sha, t) && |p.steps| == t.Depth() - 1
    requires Accepts(sha, t.Root(), leaf, p)
    ensures leaf in t.leaves || Collision(sha, FoldInputs(sha, leaf, p.steps), Inputs(sha, TreeOf(t.leaves)))
  {
    RootIsTreeHash(sha, t.leaves);
    FoldSound(sha, leaf, p.steps, TreeOf(t.leaves));
    if leaf in LeafList(TreeOf(t.leaves)) { LeavesOfTree(t.leaves, leaf); }
  }

  // ---- the position a proof speaks of ----

  /** The directions of the steps as binary digits, the first step lowest: a sibling on the right means
      the node was a left child. */
  function PathIndex(steps: seq<ProofStep>): (r: nat)
    ensures r < Pow2(|steps|)
  {
    if steps == [] then 0
    else
      var n := |steps| - 1;
      PathIndex(steps[..n]) + if steps[n].right then 0 else Pow2(n)
  }

  lemma {:induction false} PerfectLeafCount(t: Node, h: nat)
    requires Perfect(t, h)
    ensures |LeafList(t)| == Pow2(h)
  {
    if t.Fork? {
      PerfectLeafCount(t.l, h - 1);
      PerfectLeafCount(t.r, h - 1);
    }
  }

  /** A fold that reaches the digest of a perfect tree of its own height starts at the leaf its
      directions point to, or met a collision on the way. */
  lemma {:induction false} FoldPosition(sha: Sha, leaf: Digest, steps: seq<ProofStep>, t: Node)
    requires StepsSized(steps) && Perfect(t, |steps|)
    requires Fold(sha, leaf, steps) == Hash(sha, t)
    ensures |LeafList(t)| == Pow2(|steps|)
    ensures LeafList(t)[PathIndex(steps)] == leaf
            || Collision(sha, FoldInputs(sha, leaf, steps), Inputs(sha, t))
    decreases |steps|
  {
    hide Collision;
    PerfectLeafCount(t, |steps|);
    if steps != [] {
      var front, s := steps[..|steps| - 1], steps[|steps| - 1];
      PerfectLeafCount(t.l, |front|);
      PerfectLeafCount(t.r, |front|);
      var child := if s.right then t.l else t.r;
      if StepInput(Fold(sha, leaf, front), s) == Hash(sha, t.l) + Hash(sha, t.r) {
        ChildDigest(sha, Fold(sha, leaf, front), s, t);
        FoldPosition(sha, leaf, front, child);
        if LeafList(child)[PathIndex(front)] != leaf {
          CollisionMonotone(sha, FoldInputs(sha, leaf, front), Inputs(sha, child),
                            FoldInputs(sha, leaf, steps), Inputs(sha, t));
        }
      } else {
        TopCollision(sha, leaf, steps, t);
      }
    }
  }

  lemma ChildDigest(sha: Sha, current: bytes, s: ProofStep, t: Node)
    requires t.Fork? && |current| == |s.hash| == HASH_SIZE
    requires StepInput(current, s) == Hash(sha, t.l) + Hash(sha, t.r)
    ensures current == Hash(sha, if s.right then t.l else t.r)
  {
    if s.right {
      SplitEqual(current, s.hash, Hash(sha, t.l), Hash(sha, t.r));
    } else {
      SplitEqual(s.hash, current, Hash(sha, t.l), Hash(sha, t.r));
    }
  }

  lemma TopCollision(sha: Sha, leaf: bytes, steps: seq<ProofStep>, t: Node)
    requires steps != [] && t.Fork? && Fold(sha, leaf, steps) == Hash(sha, t)
    requires StepInput(Fold(sha, leaf, steps[..|steps| - 1]), steps[|steps| - 1]) != Hash(sha, t.l) + Hash(sha, t.r)
    ensures Collision(sha, FoldInputs(sha, leaf, steps), Inputs(sha, t))
  {
    var a := StepInput(Fold(sha, leaf, steps[..|steps| - 1]), steps[|steps| - 1]);
    var b := Hash(sha, t.l) + Hash(sha, t.r);
    assert a in FoldInputs(sha, leaf, steps) && b in Inputs(sha, t);
  }

  /** The leaf that stands at position `k` of the duplicate-last tree over `n` leaves: `k` itself for the
      leaves, and behind them the leaf that was repeated there. */
  function Placed(n: nat, k: nat): (r: nat)
    requires n > 0
    ensures r < n && (k < n ==> r == k)
    decreases n
  {
    if n == 1 then 0
    else
      var p := Placed((n + 1) / 2, k / 2);
      if k % 2 == 0 then 2 * p else Sibling(n, 2 * p)
  }

  /** Building puts node `Placed(k)` at block `k`. */
  lemma {:induction false} PlaceInBuild(ts: seq<Node>, h: nat, k: nat, j: nat)
    requires ts != [] && j < Pow2(h) && forall i :: 0 <= i < |ts| ==> Perfect(ts[i], h)
    requires k * Pow2(h) + j < |LeafList(Build(ts))|
    ensures |LeafList(ts[Placed(|ts|, k)])| == Pow2(h)
    ensures LeafList(Build(ts))[k * Pow2(h) + j] == LeafList(ts[Placed(|ts|, k)])[j]
    decreases |ts|
  {
    hide LeafList, Perfect, Placed, Pow2, Pairs;
    PerfectLeafCount(ts[Placed(|ts|, k)], h);
    DoublePow(h);
    if |ts| == 1 {
      FirstBlock(k, Pow2(h), j);
    } else {
      PairsPerfect(ts, h);
      BlockPlace(k, Pow2(h), j);
      PlaceInPair(ts, h, k, j);
      PlaceInBuild(Pairs(ts), h + 1, k / 2, k % 2 * Pow2(h) + j);
    }
  }

  lemma FirstBlock(k: nat, p: nat, j: nat)
    requires k * p + j < p
    ensures k == 0 && k * p == 0
  {
    assert k == 0 || k * p >= p;
  }

  lemma BlockPlace(k: nat, p: nat, j: nat)
    ensures k / 2 * (2 * p) + (k % 2 * p + j) == k * p + j
  {
    assert k == k / 2 * 2 + k % 2;
  }

  lemma PlacedStep(n: nat, k: nat)
    requires n > 1
    ensures var p := Placed((n + 1) / 2, k / 2); Placed(n, k) == if k % 2 == 0 then 2 * p else Sibling(n, 2 * p)
  {
  }

  lemma DoublePow(h: nat)
    ensures Pow2(h + 1) == 2 * Pow2(h)
  {
  }

  lemma PlaceInPair(ts: seq<Node>, h: nat, k: nat, j: nat)
    requires |ts| > 1 && j < Pow2(h) && forall i :: 0 <= i < |ts| ==> Perfect(ts[i], h)
    ensures k % 2 * Pow2(h) + j < Pow2(h + 1)
    ensures var i := Placed(|Pairs(ts)|, k / 2);
            && |LeafList(ts[Placed(|ts|, k)])| == Pow2(h) && |LeafList(Pairs(ts)[i])| == Pow2(h + 1)
            && LeafList(Pairs(ts)[i])[k % 2 * Pow2(h) + j] == LeafList(ts[Placed(|ts|, k)])[j]
  {
    hide Perfect, Placed, Pow2, LeafList, Pairs;
    var i := Placed(|Pairs(ts)|, k / 2);
    DoublePow(h);
    PlacedStep(|ts|, k);
    PairAt(ts, i);
    var l, r := ts[2 * i], ts[Sibling(|ts|, 2 * i)];
    PerfectLeafCount(l, h);
    PerfectLeafCount(r, h);
    HalfOfConcat(LeafList(l), LeafList(r), k % 2, Pow2(h), j);
  }

  lemma PairAt(ts: seq<Node>, i: nat)
    requires i < |Pairs(ts)|
    ensures 2 * i < |ts| && LeafList(Pairs(ts)[i]) == LeafList(ts[2 * i]) + LeafList(ts[Sibling(|ts|, 2 * i)])
  {
    assert Pairs(ts)[i] == Fork(ts[2 * i], ts[Sibling(|ts|, 2 * i)]);
  }

  lemma HalfOfConcat<T>(l: seq<T>, r: seq<T>, bit: nat, p: nat, j: nat)
    requires |l| == |r| == p && bit < 2 && j < p
    ensures bit * p + j < 2 * p && (l + r)[bit * p + j] == if bit == 0 then l[j] else r[j]
  {
    if bit == 0 { assert bit * p == 0; } else { assert bit * p == p; }
  }

  /** A tree has room for its leaves. */
  lemma {:induction false} LeavesFit(ts: seq<Node>, h: nat)
    requires ts != [] && forall i :: 0 <= i < |ts| ==> Perfect(ts[i], h)
    ensures |ts| * Pow2(h) <= |LeafList(Build(ts))|
    decreases |ts|
  {
    hide LeafList, Perfect;
    if |ts| == 1 {
      PerfectLeafCount(ts[0], h);
    } else {
      PairsPerfect(ts, h);
      LeavesFit(Pairs(ts), h + 1);
      Halves(|ts|, Pow2(h));
    }
  }

  lemma Halves(n: nat, p: nat)
    ensures n * p <= (n + 1) / 2 * (2 * p)
  {
    assert n <= (n + 1) / 2 * 2;
    assert n * p <= ((n + 1) / 2 * 2) * p;
  }

  /** What stands where in the tree of a list: the leaves at their own places, repeats behind them. */
  lemma PlaceInTree(ds: seq<Digest>, k: nat)
    requires ds != [] && k < |LeafList(TreeOf(ds))|
    ensures LeafList(TreeOf(ds))[k] == ds[Placed(|ds|, k)]
  {
    PlaceInBuild(LeafNodes(ds), 0, k, 0);
  }

  /** The tree of a list starts with its first leaf and has room for all of them. */
  lemma FirstPlace(ds: seq<Digest>)
    requires ds != []
    ensures |ds| <= |LeafList(TreeOf(ds))| && LeafList(TreeOf(ds))[0] == ds[0]
  {
    LeavesFit(LeafNodes(ds), 0);
    PlaceInTree(ds, 0);
  }

  /** A list with the tree of an upper level of another begins with a digest of two digests of that one. */
  lemma NodeAsLeaf(sha: Sha, xs: seq<Digest>, k: nat, ys: seq<Digest>) returns (b: bytes)
    requires xs != [] && ys != [] && 0 < k < |Levels(sha, xs)|
    requires Levels(sha, xs)[k] != [] && TreeOf(Levels(sha, xs)[k]) == TreeOf(ys)
    ensures b in Inputs(sha, TreeOf(xs)) && |b| == 2 * HASH_SIZE && sha(b) == ys[0]
  {
    hide Levels, Build, LeafList;
    assert Hashes(sha, LeafNodes(xs)) == xs;
    b := UpperNode(sha, LeafNodes(xs), k);
    FirstPlace(Levels(sha, xs)[k]);
    FirstPlace(ys);
  }

  /** Equal trees over lists of different length: the longer list holds a digest twice. */
  lemma LongerRepeats(xs: seq<Digest>, ys: seq<Digest>)
    requires xs != [] && |ys| > |xs| && TreeOf(xs) == TreeOf(ys)
    ensures var j := Placed(|xs|, |xs|); j < |xs| && ys[j] == ys[|xs|]
  {
    hide TreeOf, LeafList, Placed;
    var j := Placed(|xs|, |xs|);
    FirstPlace(ys);
    PlaceInTree(xs, |xs|);
    PlaceInTree(ys, |xs|);
    PlaceInTree(ys, j);
    PlaceInTree(xs, j);
  }

  /** Main result, soundness with the position: an accepted proof of Depth - 1 steps is a proof of the leaf
      that stands where its directions point, or a collision is named. */
  lemma ProofPosition(sha: Sha, t: Tree, leaf: bytes, p: Proof)
    requires ValidTree(sha, t) && |p.steps| == t.Depth() - 1
    requires Accepts(sha, t.Root(), leaf, p)
    ensures leaf == t.leaves[Placed(t.LeafCount(), PathIndex(p.steps))]
            || Collision(sha, FoldInputs(sha, leaf, p.steps), Inputs(sha, TreeOf(t.leaves)))
  {
    hide PathIndex, LeafList, TreeOf, Fold, Placed;
    RootIsTreeHash(sha, t.leaves);
    FoldPosition(sha, leaf, p.steps, TreeOf(t.leaves));
    PlaceInTree(t.leaves, PathIndex(p.steps));
  }

  /** So the claimed index is right exactly when the leaf there is the leaf the directions point to, in
      particular when the two agree. */
  lemma IndexRight(sha: Sha, t: Tree, leaf: bytes, p: Proof)
    requires ValidTree(sha, t) && |p.steps| == t.Depth() - 1
    requires Accepts(sha, t.Root(), leaf, p) && p.index < t.LeafCount()
    ensures (leaf == t.leaves[p.index] <==> t.leaves[Placed(t.LeafCount(), PathIndex(p.steps))] == t.leaves[p.index])
            || Collision(sha, FoldInputs(sha, leaf, p.steps), Inputs(sha, TreeOf(t.leaves)))
  {
    ProofPosition(sha, t, leaf, p);
  }

  lemma {:induction false} PathPrepend(s: ProofStep, rest: seq<ProofStep>)
    ensures PathIndex([s] + rest) == (if s.right then 0 else 1) + 2 * PathIndex(rest)
  {
    var steps := [s] + rest;
    if rest == [] {
      assert steps == [s] && steps[..0] == [];
    } else {
      var n := |rest| - 1;
      PathPrepend(s, rest[..n]);
      assert steps[..|steps| - 1] == [s] + rest[..n] && steps[|steps| - 1] == rest[n];
    }
  }

  /** The step count is not checked by `VerifyProof`, and it is needed: with no steps at
      all the root of any tree is accepted as a leaf. */
  lemma RootAcceptedAsLeaf(sha: Sha, t: Tree)
    requires ValidTree(sha, t)
    ensures Accepts(sha, t.Root(), t.Root(), Proof([], 0, t.LeafCount()))
  {
  }

  /** Nor is the index: an accepted proof is accepted under any index in range. */
  lemma IndexNotBound(sha: Sha, root: bytes, leaf: bytes, p: Proof, index: int)
    requires 0 <= index < p.count
    requires Accepts(sha, root, leaf, p)
    ensures Accepts(sha, root, leaf, p.(index := index))
  {
  }

  /** The step `Proof` records at one level. */
  function StepAt(level: seq<Digest>, pos: nat): ProofStep
    requires pos < |level|
  {
    if pos % 2 == 0 then ProofStep(level[Sibling(|level|, pos)], true) else ProofStep(level[pos - 1], false)
  }

  /** The steps from one level up to the root. */
  function StepsFrom(sha: Sha, level: seq<Digest>, pos: nat): seq<ProofStep>
    requires pos < |level|
    decreases |level|
  {
    if |level| == 1 then [] else [StepAt(level, pos)] + StepsFrom(sha, NextLevel(sha, level), pos / 2)
  }

  /** One recorded step climbs from a node to its parent. */
  lemma StepClimbs(sha: Sha, level: seq<Digest>, pos: nat)
    requires pos < |level|
    ensures sha(StepInput(level[pos], StepAt(level, pos))) == NextLevel(sha, level)[pos / 2]
  {
  }

  lemma {:induction false} FoldPrepend(sha: Sha, leaf: bytes, s: ProofStep, rest: seq<ProofStep>)
    ensures Fold(sha, leaf, [s] + rest) == Fold(sha, sha(StepInput(leaf, s)), rest)
  {
    var steps := [s] + rest;
    if rest == [] {
      assert steps == [s];
      assert Fold(sha, leaf, steps[..0]) == leaf;
    } else {
      FoldPrepend(sha, leaf, s, rest[..|rest| - 1]);
      assert steps[..|steps| - 1] == [s] + rest[..|rest| - 1];
    }
  }

  lemma {:induction false} StepsReachRoot(sha: Sha, level: seq<Digest>, pos: nat)
    requires pos < |level|
    ensures var steps := StepsFrom(sha, level, pos);
            && |steps| == |Levels(sha, level)| - 1 && StepsSized(steps)
            && Fold(sha, level[pos], steps) == Root(sha, level)
    decreases |level|
  {
    if |level| > 1 {
      var next := NextLevel(sha, level);
      StepsReachRoot(sha, next, pos / 2);
      StepClimbs(sha, level, pos);
      FoldPrepend(sha, level[pos], StepAt(level, pos), StepsFrom(sha, next, pos / 2));
      TopOfLevels(sha, level);
    }
  }

  /** The steps recorded for a position point back to it. */
  lemma {:induction false} StepsPointBack(sha: Sha, level: seq<Digest>, pos: nat)
    requires pos < |level|
    ensures PathIndex(StepsFrom(sha, level, pos)) == pos
    decreases |level|
  {
    if |level| > 1 {
      var rest := StepsFrom(sha, NextLevel(sha, level), pos / 2);
      StepsPointBack(sha, NextLevel(sha, level), pos / 2);
      PathPrepend(StepAt(level, pos), rest);
    }
  }

  /** Main result, completeness: every leaf of every tree has a proof that is accepted. */
  lemma ProofComplete(sha: Sha, t: Tree, index: nat)
    requires ValidTree(sha, t) && index < t.LeafCount()
    ensures var p := Proof(StepsFrom(sha, t.leaves, index), index, t.LeafCount());
            |p.steps| == t.Depth() - 1 && Accepts(sha, t.Root(), t.leaves[index], p) && PathIndex(p.steps) == index
  {
    StepsReachRoot(sha, t.leaves, index);
    StepsPointBack(sha, t.leaves, index);
  }

  /** Directions that point behind the leaves are accepted too, with no collision: the last leaf of every odd
      tree of three or more has a second proof, whose directions give the number of leaves. */
  lemma LastLeafTwice(sha: Sha, t: Tree)
    requires ValidTree(sha, t) && t.LeafCount() % 2 == 1 && t.LeafCount() >= 3
    ensures var n := t.LeafCount();
            var steps := StepsFrom(sha, t.leaves, n - 1);
            && steps != []
            && var p := Proof(steps[0 := ProofStep(t.leaves[n - 1], false)], n - 1, n);
               && |p.steps| == t.Depth() - 1 && Accepts(sha, t.Root(), t.leaves[n - 1], p)
               && PathIndex(p.steps) == n && Placed(n, n) == n - 1
  {
    hide Placed, PathIndex, Fold, Levels, NextLevel, StepsFrom, Parent;
    var n, leaf := t.LeafCount(), t.leaves[t.LeafCount() - 1];
    var rest := StepsFrom(sha, NextLevel(sha, t.leaves), (n - 1) / 2);
    var right, left := ProofStep(leaf, true), ProofStep(leaf, false);
    var steps := StepsFrom(sha, t.leaves, n - 1);
    FirstStep(sha, t.leaves, n - 1);
    assert steps[0 := left] == [left] + rest;
    StepsReachRoot(sha, t.leaves, n - 1);
    StepsPointBack(sha, t.leaves, n - 1);
    FoldPrepend(sha, leaf, right, rest);
    FoldPrepend(sha, leaf, left, rest);
    PathPrepend(right, rest);
    PathPrepend(left, rest);
    PlacedBehind(n);
    assert StepsSized(steps[0 := left]);
  }

  lemma FirstStep(sha: Sha, level: seq<Digest>, pos: nat)
    requires pos < |level| && |level| > 1
    ensures StepsFrom(sha, level, pos) == [StepAt(level, pos)] + StepsFrom(sha, NextLevel(sha, level), pos / 2)
  {
  }

  lemma PlacedBehind(n: nat)
    requires n % 2 == 1 && n >= 3
    ensures Placed(n, n) == n - 1
  {
    assert n / 2 < (n + 1) / 2 && Placed((n + 1) / 2, n / 2) == n / 2;
  }

  // ---- the code ----

  datatype Error = NoLeaves | BadLength | OutOfRange | NilProof | RootMismatch

  predicate AllDigests(ls: seq<bytes>) {
    forall i :: 0 <= i < |ls| ==> |ls[i]| == HASH_SIZE
  }

  function AsDigests(ls: seq<bytes>): (ds: seq<Digest>)
    requires AllDigests(ls)
    ensures |ds| == |ls| && forall i :: 0 <= i < |ls| ==> ds[i] == ls[i]
  {
    seq(|ls|, i requires 0 <= i < |ls| => ls[i])
  }

  method HashLevel(sha: Sha, current: seq<Digest>) returns (next: seq<Digest>)
    ensures next == NextLevel(sha, current)
    ensures |next| == (|current| + 1) / 2
    ensures forall i :: 0 <= i < |current| / 2 ==> next[i] == sha(Joined(current[2 * i], current[2 * i + 1]))
    ensures var n := |current|; n % 2 == 1 ==> next[n / 2] == sha(Joined(current[n - 1], current[n - 1]))
  {
    next := [];
    var i := 0;
    while i < |current|
      invariant 0 <= i <= |current| + 1 && i % 2 == 0
      invariant |next| == i / 2
      invariant forall k :: 0 <= k < |next| ==> next[k] == NextLevel(sha, current)[k]
    {
      var left := current[i];
      var right := if i + 1 < |current| then current[i + 1] else left;
      next := next + [Parent(sha, left, right)];
      i := i + 2;
    }
  }

  method NewTree(sha: Sha, leaves: seq<bytes>) returns (r: Result<Tree, Error>)
    ensures leaves == [] ==> r == Err(NoLeaves)
    ensures leaves != [] && !AllDigests(leaves) ==> r == Err(BadLength)
    ensures r.Ok? ==> leaves == r.value.leaves && forall i :: 0 <= i < |leaves| ==> |leaves[i]| == 32
    ensures leaves != [] && AllDigests(leaves) ==>
              r.Ok? && r.value.leaves == AsDigests(leaves) && ValidTree(sha, r.value)
  {
    if |leaves| == 0 { return Err(NoLeaves); }
    for i := 0 to |leaves|
      invariant AllDigests(leaves[..i])
    {
      if |leaves[i]| != HASH_SIZE { return Err(BadLength); }
    }
    var cp := AsDigests(leaves);
    var levels := [cp];
    var current := cp;
    ghost var below: seq<seq<Digest>> := [];
    while |current| > 1
      invariant current != []
      invariant levels == below + [current]
      invariant below + Levels(sha, current) == Levels(sha, cp)
      decreases |current|
    {
      var next := HashLevel(sha, current);
      LevelsTurn(sha, below, current);
      below := levels;
      levels := levels + [next];
      current := next;
    }
    return Ok(Tree(cp, levels));
  }

  lemma LevelsTurn(sha: Sha, below: seq<seq<Digest>>, current: seq<Digest>)
    requires |current| > 1
    ensures below + Levels(sha, current) == below + [current] + Levels(sha, NextLevel(sha, current))
  {
  }

  method MakeProof(sha: Sha, t: Tree, index: int) returns (r: Result<Proof, Error>)
    requires ValidTree(sha, t)
    ensures !(0 <= index < t.LeafCount()) ==> r == Err(OutOfRange)
    ensures 0 <= index < t.LeafCount() ==>
              && r.Ok? && r.value.index == index && r.value.count == t.LeafCount()
              && |r.value.steps| == t.Depth() - 1
              && Accepts(sha, t.Root(), t.leaves[index], r.value)
              && PathIndex(r.value.steps) == index
  {
    hide Levels, StepsFrom, Fold, PathIndex;
    if index < 0 || index >= t.LeafCount() { return Err(OutOfRange); }
    var steps: seq<ProofStep> := [];
    var pos := index;
    var lvl := 0;
    StepsReachRoot(sha, t.leaves, index);
    StepsPointBack(sha, t.leaves, index);
    while lvl < |t.levels| - 1
      invariant 0 <= lvl < |t.levels| && t.levels[lvl] != []
      invariant t.levels[lvl..] == Levels(sha, t.levels[lvl])
      invariant 0 <= pos < |t.levels[lvl]|
      invariant steps + StepsFrom(sha, t.levels[lvl], pos) == StepsFrom(sha, t.leaves, index)
    {
      var level := t.levels[lvl];
      LevelAbove(sha, t.levels, lvl);
      StepsTurn(sha, steps, level, pos);
      var hash, right;
      if pos % 2 == 0 {
        hash := if pos + 1 < |level| then level[pos + 1] else level[pos];
        right := true;
      } else {
        hash := level[pos - 1];
        right := false;
      }
      steps := steps + [ProofStep(hash, right)];
      pos := pos / 2;
      lvl := lvl + 1;
    }
    LastLevel(sha, t.levels[lvl], pos);
    assert steps == steps + [];
    return Ok(Proof(steps, index, t.LeafCount()));
  }

  lemma LevelAbove(sha: Sha, levels: seq<seq<Digest>>, lvl: nat)
    requires lvl + 1 < |levels| && levels[lvl] != [] && levels[lvl..] == Levels(sha, levels[lvl])
    ensures |levels[lvl]| > 1 && levels[lvl + 1] == NextLevel(sha, levels[lvl])
    ensures levels[lvl + 1..] == Levels(sha, levels[lvl + 1])
  {
    var ls := Levels(sha, levels[lvl]);
    assert |ls| > 1;
    assert levels[lvl..][1..] == levels[lvl + 1..] && levels[lvl..][1] == levels[lvl + 1];
    assert ls[1..] == Levels(sha, NextLevel(sha, levels[lvl]));
  }

  lemma LastLevel(sha: Sha, level: seq<Digest>, pos: nat)
    requires pos < |level| && |Levels(sha, level)| == 1
    ensures StepsFrom(sha, level, pos) == []
  {
  }

  lemma StepsTurn(sha: Sha, steps: seq<ProofStep>, level: seq<Digest>, pos: nat)
    requires pos < |level| && |level| > 1
    ensures steps + StepsFrom(sha, level, pos) ==
            steps + [StepAt(level, pos)] + StepsFrom(sha, NextLevel(sha, level), pos / 2)
  {
  }

  method VerifyProof(sha: Sha, root: bytes, leaf: bytes, proof: Option<Proof>) returns (r: Outcome<Error>)
    ensures r.Pass? <==> proof.Some? && Accepts(sha, root, leaf, proof.value)
    ensures r == Fail(RootMismatch) ==>
              proof.Some? && StepsSized(proof.value.steps) && Fold(sha, leaf, proof.value.steps) != root
  {
    if proof.None? { return Fail(NilProof); }
    var p := proof.value;
    if |root| != HASH_SIZE || |leaf| != HASH_SIZE { return Fail(BadLength); }
    if p.index < 0 || p.index >= p.count { return Fail(OutOfRange); }
    for i := 0 to |p.steps|
      invariant StepsSized(p.steps[..i])
    {
      if |p.steps[i].hash| != HASH_SIZE { return Fail(BadLength); }
    }
    var current := leaf;
    for i := 0 to |p.steps|
      invariant current == Fold(sha, leaf, p.steps[..i])
    {
      var step := p.steps[i];
      assert p.steps[..i + 1][..i] == p.steps[..i];
      current := if step.right then sha(current + step.hash) else sha(step.hash + current);
    }
    assert p.steps[..|p.steps|] == p.steps;
    if current != root { return Fail(RootMismatch); }
    return Pass;
  }
}
