/** The dependence graph the list scheduler builds over the syllables of one block. */
module SchedDag {
  import opened Opcodes
  import opened Mir

  datatype MemoryBucket = StackBucket | GlobalBucket | UnknownBucket

  function MemoryBaseValue(syl: Syllable): Option<Value> {
    if (IsLoad(syl.opcode) || IsStore(syl.opcode)) && syl.srcs != [] then Some(syl.srcs[0]) else None
  }

  function BucketOf(syl: Syllable): MemoryBucket {
    match MemoryBaseValue(syl)
    case None => UnknownBucket
    case Some(Stack(_)) => StackBucket
    case Some(Imm(_)) => GlobalBucket
    case Some(RegValue(_)) => UnknownBucket
  }

  predicate MayAlias(a: MemoryBucket, b: MemoryBucket) {
    a == UnknownBucket || b == UnknownBucket || a == b
  }

  /** A memory operation whose address the scheduler does not know orders itself against everything. */
  predicate IsBarrier(syl: Syllable) {
    IsMemoryOpcode(syl.opcode) && BucketOf(syl) == UnknownBucket
  }

  // ----- What must stay in order -----

  /** Syllables i < j of a block whose order the scheduler has to keep. */
  ghost predicate Conflict(syls: seq<Syllable>, i: int, j: int) {
    0 <= i < j < |syls| &&
    (|| (exists k :: KeyConflict(syls[i], syls[j], k))
     || (IsMemoryOpcode(syls[i].opcode) && IsMemoryOpcode(syls[j].opcode)
         && MayAlias(BucketOf(syls[i]), BucketOf(syls[j])))
     || IsBarrier(syls[i]) || IsBarrier(syls[j]))
  }

  /** Read after write, write after read, or write after write of one register. */
  predicate KeyConflict(x: Syllable, y: Syllable, k: RegKey) {
    (WritesKey(x, k) && ReadsKey(y, k)) || (ReadsKey(x, k) && WritesKey(y, k)) || (WritesKey(x, k) && WritesKey(y, k))
  }

  // ----- Which edges are recorded -----

  predicate IsLastWriter(syls: seq<Syllable>, k: RegKey, j: int, w: int) {
    0 <= w < j <= |syls| && WritesKey(syls[w], k) && forall w' :: w < w' < j ==> !WritesKey(syls[w'], k)
  }

  predicate IsReaderSinceWrite(syls: seq<Syllable>, k: RegKey, j: int, r: int) {
    0 <= r < j <= |syls| && ReadsKey(syls[r], k) && forall w :: r <= w < j ==> !WritesKey(syls[w], k)
  }

  predicate IsLastBarrier(syls: seq<Syllable>, j: int, b: int) {
    0 <= b < j <= |syls| && IsBarrier(syls[b]) && forall b' :: b < b' < j ==> !IsBarrier(syls[b'])
  }

  ghost predicate SourceEdge(syls: seq<Syllable>, i: int, j: int) {
    0 <= i < j < |syls| && exists k :: ReadsKey(syls[j], k) && IsLastWriter(syls, k, j, i)
  }

  ghost predicate DestEdge(syls: seq<Syllable>, i: int, j: int) {
    && 0 <= i < j < |syls|
    && DestRegKey(syls[j]).Some?
    && var k := DestRegKey(syls[j]).value;
       IsLastWriter(syls, k, j, i) || IsReaderSinceWrite(syls, k, j, i)
  }

  predicate MemoryEdge(syls: seq<Syllable>, i: int, j: int) {
    && 0 <= i < j < |syls|
    && IsMemoryOpcode(syls[j].opcode)
    && (BucketOf(syls[j]) == UnknownBucket
        || (IsMemoryOpcode(syls[i].opcode) && MayAlias(BucketOf(syls[i]), BucketOf(syls[j]))))
  }

  ghost predicate Edge(syls: seq<Syllable>, i: int, j: int) {
    0 <= i < j < |syls| &&
    (IsLastBarrier(syls, j, i) || SourceEdge(syls, i, j) || DestEdge(syls, i, j) || MemoryEdge(syls, i, j))
  }

  // ----- Paths -----

  /** A graph is given by the successor set of each node. */
  type Graph = seq<set<nat>>

  predicate IsPath(g: Graph, p: seq<nat>) {
    && |p| > 0
    && (forall i :: 0 <= i < |p| ==> p[i] < |g|)
    && forall i :: 0 <= i < |p| - 1 ==> p[i + 1] in g[p[i]]
  }

  predicate IsPathBetween(g: Graph, p: seq<nat>, i: int, j: int) {
    IsPath(g, p) && p[0] == i && p[|p| - 1] == j
  }

  ghost predicate Joined(g: Graph, i: int, j: int) {
    exists p :: IsPathBetween(g, p, i, j)
  }

  ghost predicate IsSchedDag(syls: seq<Syllable>, g: Graph) {
    |g| == |syls| && forall i, j :: 0 <= i < |g| ==> (j in g[i] <==> Edge(syls, i, j))
  }

  lemma {:induction false} EdgeJoins(g: Graph, i: nat, j: nat)
    requires i < |g| && j < |g| && j in g[i]
    ensures Joined(g, i, j)
  {
    assert IsPathBetween(g, [i, j], i, j);
  }

  lemma {:induction false} ExtendPath(g: Graph, i: nat, w: nat, j: nat)
    requires Joined(g, i, w) && w < |g| && j < |g| && j in g[w]
    ensures Joined(g, i, j)
  {
    var p :| IsPathBetween(g, p, i, w);
    assert IsPathBetween(g, p + [j], i, j);
  }

  lemma {:induction false} LastWriterExists(syls: seq<Syllable>, k: RegKey, i: nat, j: nat) returns (w: nat)
    requires i < j <= |syls| && WritesKey(syls[i], k)
    ensures i <= w && IsLastWriter(syls, k, j, w)
  {
    w := j - 1;
    while !WritesKey(syls[w], k)
      invariant i <= w < j
      invariant forall w' :: w < w' < j ==> !WritesKey(syls[w'], k)
      decreases w
    {
      w := w - 1;
    }
  }

  /**
   * Completeness: although only the last writer, the readers since the last write, aliasing accesses
   * and the last barrier are linked, every two syllables whose order matters are joined by a path.
   */
  lemma {:induction false} ConflictsAreJoined(syls: seq<Syllable>, g: Graph, i: nat, j: nat)
    requires IsSchedDag(syls, g)
    requires Conflict(syls, i, j)
    ensures Joined(g, i, j)
    decreases j
  {
    if Edge(syls, i, j) {
      EdgeJoins(g, i, j);
    } else if exists k :: KeyConflict(syls[i], syls[j], k) {
      var k :| KeyConflict(syls[i], syls[j], k);
      KeyConflictsAreJoined(syls, g, i, j, k);
    } else {
      BarriersAreJoined(syls, g, i, j);
    }
  }

  lemma {:induction false} KeyConflictsAreJoined(syls: seq<Syllable>, g: Graph, i: nat, j: nat, k: RegKey)
    requires IsSchedDag(syls, g)
    requires i < j < |syls| && KeyConflict(syls[i], syls[j], k)
    ensures Joined(g, i, j)
    decreases j
  {
    if exists w :: i <= w < j && WritesKey(syls[w], k) {
      var w0 :| i <= w0 < j && WritesKey(syls[w0], k);
      var w := LastWriterExists(syls, k, w0, j);
      assert Edge(syls, w, j) by {
        assert SourceEdge(syls, w, j) || DestEdge(syls, w, j);
      }
      if w == i {
        EdgeJoins(g, i, j);
      } else {
        assert KeyConflict(syls[i], syls[w], k);
        KeyConflictsAreJoined(syls, g, i, w, k);
        ExtendPath(g, i, w, j);
      }
    } else {
      assert IsReaderSinceWrite(syls, k, j, i);
      assert DestEdge(syls, i, j);
      assert Edge(syls, i, j);
      EdgeJoins(g, i, j);
    }
  }

  lemma {:induction false} BarriersAreJoined(syls: seq<Syllable>, g: Graph, i: nat, j: nat)
    requires IsSchedDag(syls, g)
    requires i < j < |syls| && (IsBarrier(syls[i]) || IsBarrier(syls[j]))
    ensures Joined(g, i, j)
  {
    if IsBarrier(syls[j]) {
      assert MemoryEdge(syls, i, j);
      assert Edge(syls, i, j);
      EdgeJoins(g, i, j);
    } else {
      var b := j - 1;
      while !IsBarrier(syls[b])
        invariant i <= b < j
        invariant forall b' :: b < b' < j ==> !IsBarrier(syls[b'])
        decreases b
      {
        b := b - 1;
      }
      assert IsLastBarrier(syls, j, b);
      assert Edge(syls, b, j);
      EdgeJoins(g, b, j);
      if i < b {
        assert MemoryEdge(syls, i, b);
        assert Edge(syls, i, b);
        EdgeJoins(g, i, b);
        ExtendPath(g, i, b, j);
      }
    }
  }
}
