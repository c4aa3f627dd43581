/** The one-pass construction of the dependence graph, with its last-writer and reader tables. */
module DagBuilder {
  import opened Opcodes
  import opened Mir
  import opened SchedDag

  /** g' is g with an edge to j added from exactly the nodes in `from`. */
  ghost predicate EdgesAdded(g: Graph, g': Graph, from: seq<nat>, j: nat) {
    && |g'| == |g|
    && forall i :: 0 <= i < |g| ==> g'[i] == if i in from then g[i] + {j} else g[i]
  }

  method InsertEdges(g: Graph, from: seq<nat>, j: nat) returns (g': Graph)
    requires forall i :: i in from ==> i < |g|
    ensures EdgesAdded(g, g', from, j)
  {
    g' := g;
    for n := 0 to |from|
      invariant EdgesAdded(g, g', from[..n], j)
    {
      assert from[n] in from;
      g' := g'[from[n] := g'[from[n]] + {j}];
      assert from[..n + 1] == from[..n] + [from[n]];
    }
    assert from[..|from|] == from;
  }

  ghost predicate WriterTable(syls: seq<Syllable>, idx: nat, lastWriter: map<RegKey, nat>)
    requires idx <= |syls|
  {
    && (forall k :: k in lastWriter ==> IsLastWriter(syls, k, idx, lastWriter[k]))
    && (forall k, w :: 0 <= w < idx && WritesKey(syls[w], k) ==> k in lastWriter)
  }

  ghost predicate InTable(readers: map<RegKey, seq<nat>>, k: RegKey, r: int) {
    k in readers && r in readers[k]
  }

  ghost predicate ReaderTable(syls: seq<Syllable>, idx: nat, readers: map<RegKey, seq<nat>>) {
    forall k, r :: InTable(readers, k, r) <==> IsReaderSinceWrite(syls, k, idx, r)
  }

  ghost predicate BarrierMark(syls: seq<Syllable>, idx: nat, barrier: Option<nat>)
    requires idx <= |syls|
  {
    match barrier
    case Some(b) => IsLastBarrier(syls, idx, b)
    case None => forall b :: 0 <= b < idx ==> !IsBarrier(syls[b])
  }

  ghost predicate MemoryLog(syls: seq<Syllable>, idx: nat, log: seq<(nat, MemoryBucket)>)
    requires idx <= |syls|
  {
    && (forall e :: e in log ==> e.0 < idx && IsMemoryOpcode(syls[e.0].opcode) && e.1 == BucketOf(syls[e.0]))
    && (forall i :: 0 <= i < idx && IsMemoryOpcode(syls[i].opcode) ==> (i, BucketOf(syls[i])) in log)
  }

  /** The edges into every node below idx are complete and no other edges are present. */
  ghost predicate EdgesUpTo(syls: seq<Syllable>, idx: nat, g: Graph) {
    && |g| == |syls|
    && forall i, j :: 0 <= i < |g| ==> (j in g[i] <==> j < idx && Edge(syls, i, j))
  }

  lemma {:induction false} ReadersStep(syls: seq<Syllable>, k: RegKey, idx: nat, r: int)
    requires idx < |syls|
    ensures IsReaderSinceWrite(syls, k, idx + 1, r) <==>
              !WritesKey(syls[idx], k) && (IsReaderSinceWrite(syls, k, idx, r) || (ReadsKey(syls[idx], k) && r == idx))
  {
    if IsReaderSinceWrite(syls, k, idx + 1, r) {
      assert !WritesKey(syls[idx], k);
    }
  }

  lemma {:induction false} EdgesStep(syls: seq<Syllable>, idx: nat, g: Graph, g': Graph, into: seq<nat>)
    requires idx < |syls| && EdgesUpTo(syls, idx, g) && EdgesAdded(g, g', into, idx)
    requires forall i :: 0 <= i < |syls| ==> (i in into <==> Edge(syls, i, idx))
    ensures EdgesUpTo(syls, idx + 1, g')
  {
  }

  lemma {:induction false} SourcesFromTable(syls: seq<Syllable>, idx: nat, lastWriter: map<RegKey, nat>, keys: seq<RegKey>, i: int)
    requires idx < |syls| && WriterTable(syls, idx, lastWriter)
    requires forall k :: k in keys <==> ReadsKey(syls[idx], k)
    ensures (exists k :: k in keys && k in lastWriter && lastWriter[k] == i) <==> SourceEdge(syls, i, idx)
  {
  }

  /** Link the last writer of each source to idx and enter idx as a reader of it. */
  method LinkSources(keys: seq<RegKey>, idx: nat, lastWriter: map<RegKey, nat>, readers: map<RegKey, seq<nat>>)
    returns (from: seq<nat>, readers': map<RegKey, seq<nat>>)
    ensures forall i :: i in from <==> exists k :: k in keys && k in lastWriter && lastWriter[k] == i
    ensures forall k, r :: InTable(readers', k, r) <==> InTable(readers, k, r) || (k in keys && r == idx)
  {
    from := [];
    readers' := readers;
    for n := 0 to |keys|
      invariant forall i :: i in from <==> exists k :: k in keys[..n] && k in lastWriter && lastWriter[k] == i
      invariant forall k, r :: InTable(readers', k, r) <==> InTable(readers, k, r) || (k in keys[..n] && r == idx)
    {
      var src := keys[n];
      assert keys[..n + 1] == keys[..n] + [src];
      if src in lastWriter {
        from := from + [lastWriter[src]];
      }
      readers' := readers'[src := (if src in readers' then readers'[src] else []) + [idx]];
    }
    assert keys[..|keys|] == keys;
  }

  /** The earlier memory accesses that may touch the same bytes. */
  method AliasingPriors(log: seq<(nat, MemoryBucket)>, bucket: MemoryBucket) returns (from: seq<nat>)
    ensures forall i :: i in from <==> exists e :: e in log && e.0 == i && MayAlias(e.1, bucket)
  {
    from := [];
    for n := 0 to |log|
      invariant forall i :: i in from <==> exists e :: e in log[..n] && e.0 == i && MayAlias(e.1, bucket)
    {
      assert log[..n + 1] == log[..n] + [log[n]];
      if MayAlias(log[n].1, bucket) {
        from := from + [log[n].0];
      }
    }
    assert log[..|log|] == log;
  }

  /** The edges into idx from the destination register: its last writer and the readers since. */
  method LinkDest(syls: seq<Syllable>, idx: nat, lastWriter: map<RegKey, nat>, readers: map<RegKey, seq<nat>>)
    returns (from: seq<nat>, lastWriter': map<RegKey, nat>, readers': map<RegKey, seq<nat>>)
    requires idx < |syls|
    requires WriterTable(syls, idx, lastWriter)
    requires forall k, r :: InTable(readers, k, r) <==>
               IsReaderSinceWrite(syls, k, idx, r) || (ReadsKey(syls[idx], k) && r == idx)
    ensures forall i :: i in from <==> DestEdge(syls, i, idx)
    ensures WriterTable(syls, idx + 1, lastWriter')
    ensures ReaderTable(syls, idx + 1, readers')
  {
    from, lastWriter', readers' := [], lastWriter, readers;
    if DestRegKey(syls[idx]).Some? {
      var dst := DestRegKey(syls[idx]).value;
      if dst in lastWriter {
        from := [lastWriter[dst]];
      }
      lastWriter' := lastWriter[dst := idx];
      if dst in readers {
        var rs := readers[dst];
        readers' := readers - {dst};
        for n := 0 to |rs|
          invariant forall i :: i in from <==>
                      (dst in lastWriter && i == lastWriter[dst]) || (i in rs[..n] && i != idx)
        {
          assert rs[..n + 1] == rs[..n] + [rs[n]];
          if rs[n] != idx {
            from := from + [rs[n]];
          }
        }
        assert rs[..|rs|] == rs;
      }
      forall i
        ensures i in from <==> DestEdge(syls, i, idx)
      {
        assert InTable(readers, dst, i) <==> IsReaderSinceWrite(syls, dst, idx, i) || (ReadsKey(syls[idx], dst) && i == idx);
      }
    }
    forall k, r
      ensures InTable(readers', k, r) <==> IsReaderSinceWrite(syls, k, idx + 1, r)
    {
      ReadersStep(syls, k, idx, r);
      assert InTable(readers', k, r) <==> InTable(readers, k, r) && !WritesKey(syls[idx], k);
    }
  }

  method LinkMemory(syls: seq<Syllable>, idx: nat, barrier: Option<nat>, log: seq<(nat, MemoryBucket)>)
    returns (from: seq<nat>, barrier': Option<nat>, log': seq<(nat, MemoryBucket)>)
    requires idx < |syls| && BarrierMark(syls, idx, barrier) && MemoryLog(syls, idx, log)
    ensures forall i :: i in from <==> MemoryEdge(syls, i, idx)
    ensures BarrierMark(syls, idx + 1, barrier') && MemoryLog(syls, idx + 1, log')
  {
    from, barrier', log' := [], barrier, log;
    var syl := syls[idx];
    if IsMemoryOpcode(syl.opcode) {
      var bucket := BucketOf(syl);
      if bucket == UnknownBucket {
        from := seq(idx, i => i);
        assert forall i :: 0 <= i < idx ==> from[i] == i;
        assert forall i :: MemoryEdge(syls, i, idx) ==> from[i] in from;
        barrier' := Some(idx);
      } else {
        from := AliasingPriors(log, bucket);
        forall i
          ensures i in from <==> MemoryEdge(syls, i, idx)
        {
          if MemoryEdge(syls, i, idx) {
            assert (i, BucketOf(syls[i])) in log;
          }
        }
      }
      log' := log + [(idx, bucket)];
    }
  }

  method BuildGraph(syls: seq<Syllable>) returns (g: Graph)
    ensures IsSchedDag(syls, g)
  {
    g := seq(|syls|, _ => {});
    var lastWriter: map<RegKey, nat> := map[];
    var readers: map<RegKey, seq<nat>> := map[];
    var barrier: Option<nat> := None;
    var log: seq<(nat, MemoryBucket)> := [];
    for idx := 0 to |syls|
      invariant EdgesUpTo(syls, idx, g)
      invariant WriterTable(syls, idx, lastWriter) && ReaderTable(syls, idx, readers)
      invariant BarrierMark(syls, idx, barrier) && MemoryLog(syls, idx, log)
    {
      var fromBarrier := if barrier.Some? then [barrier.value] else [];
      var keys := SourceRegKeys(syls[idx]);
      var fromSources, readers1 := LinkSources(keys, idx, lastWriter, readers);
      var fromDest, lastWriter1, readers2 := LinkDest(syls, idx, lastWriter, readers1);
      var fromMemory, barrier1, log1 := LinkMemory(syls, idx, barrier, log);
      var into := fromBarrier + fromSources + fromDest + fromMemory;
      forall i
        ensures i in into <==> Edge(syls, i, idx)
      {
        assert i in fromBarrier <==> IsLastBarrier(syls, idx, i);
        SourcesFromTable(syls, idx, lastWriter, keys, i);
      }
      var g1 := InsertEdges(g, into, idx);
      EdgesStep(syls, idx, g, g1, into);
      g := g1;
      lastWriter, readers, barrier, log := lastWriter1, readers2, barrier1, log1;
    }
  }
}
