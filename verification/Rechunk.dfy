/**
 `rechunk.py`: the memories whose chunks an older chunker made, and one normalization queued for
 each. The queue's dedupe index, not the loop, is what keeps it to one.
 */
module Rechunk {
  import opened Options
  import opened JobRows
  import opened JobQueue

  type MemoryId = s: string | s != "" witness "m"

  const NORMALIZE := "normalize_memory"

  datatype MemoryRow = MemoryRow(id: MemoryId, externalKey: string, source: string, isCurrent: bool, deleted: bool)

  datatype ChunkRow = ChunkRow(memoryId: MemoryId, chunkerVersion: string)

  // ---------------------------------------------------------------------------------------
  // find_stale
  // ---------------------------------------------------------------------------------------

  predicate IsStaleVersion(version: string, current: string, stale: Option<string>) {
    if stale.None? then version != current else version == stale.value
  }

  predicate IsChunkOf(c: ChunkRow, id: MemoryId, current: string, stale: Option<string>) {
    c.memoryId == id && IsStaleVersion(c.chunkerVersion, current, stale)
  }

  predicate IsStale(m: MemoryRow, chunks: seq<ChunkRow>, current: string, source: Option<string>,
        stale: Option<string>) {
    && m.isCurrent && !m.deleted && (source.Some? ==> m.source == source.value)
    && exists k :: 0 <= k < |chunks| && IsChunkOf(chunks[k], m.id, current, stale)
  }

  predicate HasStale(id: MemoryId, memories: seq<MemoryRow>, chunks: seq<ChunkRow>, current: string,
        source: Option<string>, stale: Option<string>) {
    exists m :: m in memories && m.id == id && m.isCurrent && !m.deleted && source in {None, Some(m.source)}
                && HasStaleChunk(id, chunks, current, stale)
  }

  /** A chunk of the memory is of the version that is named or, if none is, of any but the current one. */
  predicate HasStaleChunk(id: MemoryId, chunks: seq<ChunkRow>, current: string, stale: Option<string>) {
    exists k :: 0 <= k < |chunks| && chunks[k].memoryId == id
                && (chunks[k].chunkerVersion != current || stale.Some?)
                && stale in {None, Some(chunks[k].chunkerVersion)}
  }

  lemma StaleIff(m: MemoryRow, chunks: seq<ChunkRow>, current: string, source: Option<string>, stale: Option<string>)
    ensures IsStale(m, chunks, current, source, stale) <==>
              && m.isCurrent && !m.deleted && source in {None, Some(m.source)}
              && HasStaleChunk(m.id, chunks, current, stale)
  {
    if k :| 0 <= k < |chunks| && IsChunkOf(chunks[k], m.id, current, stale) {
      assert chunks[k].memoryId == m.id;
    }
    if k :| 0 <= k < |chunks| && chunks[k].memoryId == m.id
            && (chunks[k].chunkerVersion != current || stale.Some?) && stale in {None, Some(chunks[k].chunkerVersion)} {
      assert IsChunkOf(chunks[k], m.id, current, stale);
    }
  }

  /** The ids `find_stale` lists, in table order. */
  function FindStale(memories: seq<MemoryRow>, chunks: seq<ChunkRow>, current: string, source: Option<string>,
        stale: Option<string>): (r: seq<MemoryId>)
    ensures forall id :: id in r <==> HasStale(id, memories, chunks, current, source, stale)
  {
    if memories == [] then []
    else
      var rest := FindStale(memories[1..], chunks, current, source, stale);
      StaleIff(memories[0], chunks, current, source, stale);
      assert memories == [memories[0]] + memories[1..];
      if IsStale(memories[0], chunks, current, source, stale) then [memories[0].id] + rest else rest
  }

  /** One row after the other is listed, if it is stale, or not: the order is that of the rows. */
  lemma {:induction false} ListedInOrder(memories: seq<MemoryRow>, more: seq<MemoryRow>, chunks: seq<ChunkRow>,
        current: string, source: Option<string>, stale: Option<string>)
    ensures FindStale(memories + more, chunks, current, source, stale)
         == FindStale(memories, chunks, current, source, stale) + FindStale(more, chunks, current, source, stale)
    ensures |memories| == 1 ==>
              FindStale(memories, chunks, current, source, stale)
              == if IsStale(memories[0], chunks, current, source, stale) then [memories[0].id] else []
  {
    if memories == [] {
      assert memories + more == more;
    } else {
      assert (memories + more)[0] == memories[0] && (memories + more)[1..] == memories[1..] + more;
      ListedInOrder(memories[1..], more, chunks, current, source, stale);
    }
  }

  /** A memory the search is about that has a chunk of a version. */
  predicate HasChunkOf(m: MemoryRow, chunks: seq<ChunkRow>, source: Option<string>, version: string) {
    && m.isCurrent && !m.deleted && (source.Some? ==> m.source == source.value)
    && exists k :: 0 <= k < |chunks| && chunks[k].memoryId == m.id && chunks[k].chunkerVersion == version
  }

  /** Naming a version selects only memories that are stale anyway. */
  predicate Narrows(memories: seq<MemoryRow>, chunks: seq<ChunkRow>, current: string, source: Option<string>,
        version: string) {
    forall id :: id in FindStale(memories, chunks, current, source, Some(version)) ==>
      id in FindStale(memories, chunks, current, source, None)
  }

  predicate HasChunkOtherThan(chunks: seq<ChunkRow>, id: MemoryId, version: string) {
    exists k :: 0 <= k < |chunks| && chunks[k].memoryId == id && chunks[k].chunkerVersion != version
  }

  /**
   `stale_version` narrows the search if and only if it is not the current version, or every memory the
   search is about with a chunk of the current version has a chunk of another version as well.
   */
  lemma StaleVersionNarrowsIff(memories: seq<MemoryRow>, chunks: seq<ChunkRow>, current: string,
        source: Option<string>, version: string)
    ensures Narrows(memories, chunks, current, source, version)
       <==> version != current
            || forall m :: m in memories && HasChunkOf(m, chunks, source, current) ==>
                 HasChunkOtherThan(chunks, m.id, current)
  {
    forall m | m in memories
      ensures IsStale(m, chunks, current, source, Some(version)) <==> HasChunkOf(m, chunks, source, version)
    {
    }
    if version != current {
      forall m | m in memories && HasChunkOf(m, chunks, source, version)
        ensures IsStale(m, chunks, current, source, None)
      {
      }
    } else {
      forall m | m in memories && HasChunkOf(m, chunks, source, current)
        ensures HasStale(m.id, memories, chunks, current, source, None) <==> HasChunkOtherThan(chunks, m.id, current)
      {
        OtherChunkIsStale(memories, chunks, current, source, m);
      }
      if Narrows(memories, chunks, current, source, version) {
        forall m | m in memories && HasChunkOf(m, chunks, source, current)
          ensures HasChunkOtherThan(chunks, m.id, current)
        {
          assert m.id in FindStale(memories, chunks, current, source, Some(version));
        }
      }
    }
  }

  lemma OtherChunkIsStale(memories: seq<MemoryRow>, chunks: seq<ChunkRow>, current: string, source: Option<string>,
        m: MemoryRow)
    requires m in memories && HasChunkOf(m, chunks, source, current)
    ensures HasStale(m.id, memories, chunks, current, source, None) <==> HasChunkOtherThan(chunks, m.id, current)
  {
    if k :| 0 <= k < |chunks| && chunks[k].memoryId == m.id && chunks[k].chunkerVersion != current {
      assert IsChunkOf(chunks[k], m.id, current, None);
      assert IsStale(m, chunks, current, source, None);
    }
    if m' :| m' in memories && m'.id == m.id && IsStale(m', chunks, current, source, None) {
      var k :| 0 <= k < |chunks| && IsChunkOf(chunks[k], m'.id, current, None);
      assert chunks[k].memoryId == m.id && chunks[k].chunkerVersion != current;
    }
  }

  /** Naming the current version selects a memory that has nothing older. */
  lemma CurrentVersionIsSelected()
    ensures var memories := [MemoryRow("m", "notes.md", "disk", true, false)];
            var chunks := [ChunkRow("m", "v2")];
            && "m" in FindStale(memories, chunks, "v2", None, Some("v2"))
            && FindStale(memories, chunks, "v2", None, None) == []
  {
    var m := MemoryRow("m", "notes.md", "disk", true, false);
    var chunks := [ChunkRow("m", "v2")];
    assert chunks[0].memoryId == m.id;
    assert IsStale(m, chunks, "v2", None, Some("v2")) && !IsStale(m, chunks, "v2", None, None);
    assert [m][1..] == [] && m in [m];
  }

  // ---------------------------------------------------------------------------------------
  // enqueue_rechunk
  // ---------------------------------------------------------------------------------------

  function SpecFor(m: MemoryId): JobSpec {
    Spec(NORMALIZE, Some(m), 0, 5, None)
  }

  /** The jobs in flight that will normalize a memory. */
  function InFlightFor(jobs: Jobs, m: MemoryId): set<JobId> {
    set i | i in jobs && jobs[i].status in {Pending, Running} && jobs[i].jobType == "normalize_memory"
            && jobs[i].dedupeKey == Some(m)
  }

  /** The table after the first `n` of `stale`; `ids` are the ids drawn for the rows. */
  function Requeued(jobs: Jobs, stale: seq<MemoryId>, ids: seq<JobId>, now: int, n: nat): Jobs
    requires n <= |stale| == |ids|
  {
    if n == 0 then jobs else Enqueued(Requeued(jobs, stale, ids, now, n - 1), ids[n - 1], SpecFor(stale[n - 1]), now)
  }

  predicate FreshIds(jobs: Jobs, ids: seq<JobId>) {
    && (forall k :: 0 <= k < |ids| ==> ids[k] !in jobs)
    && (forall k, l :: 0 <= k < l < |ids| ==> ids[k] != ids[l])
  }

  /** The memories, each counted once, that had no job in flight. */
  function Uncovered(jobs: Jobs, stale: seq<MemoryId>): set<MemoryId> {
    set m | m in stale && InFlightFor(jobs, m) == {}
  }

  lemma RefusedIffInFlight(jobs: Jobs, m: MemoryId, now: int)
    ensures IsRefused(jobs, SpecFor(m), now) <==> InFlightFor(jobs, m) != {}
  {
    if IsRefused(jobs, SpecFor(m), now) {
      var i :| i in jobs && Clash(jobs[i], NewRow(SpecFor(m), now));
      assert i in InFlightFor(jobs, m);
    }
    if InFlightFor(jobs, m) != {} {
      var i :| i in InFlightFor(jobs, m);
      assert Clash(jobs[i], NewRow(SpecFor(m), now));
    }
  }

  /** An enqueue leaves its own memory with a job in flight and every other memory's jobs as they were. */
  lemma EnqueueCovers(jobs: Jobs, id: JobId, m: MemoryId, now: int, other: MemoryId)
    requires id !in jobs
    ensures InFlightFor(Enqueued(jobs, id, SpecFor(m), now), other)
         == if other == m && InFlightFor(jobs, m) == {} then {id} else InFlightFor(jobs, other)
  {
    RefusedIffInFlight(jobs, m, now);
    var jobs' := Enqueued(jobs, id, SpecFor(m), now);
    forall i ensures i in InFlightFor(jobs', other)
                <==> i in (if other == m && InFlightFor(jobs, m) == {} then {id} else InFlightFor(jobs, other))
    {
    }
  }

  /** Two jobs in flight for one memory are one job. */
  lemma AtMostOneInFlight(jobs: Jobs, m: MemoryId)
    requires Deduped(jobs)
    ensures |InFlightFor(jobs, m)| <= 1
  {
    if InFlightFor(jobs, m) != {} {
      var i :| i in InFlightFor(jobs, m);
      assert InFlightFor(jobs, m) == {i};
    }
  }

  /** No row is changed or dropped, and the ids still to be used are in no row. */
  lemma {:induction false} RowsAreAdded(jobs: Jobs, stale: seq<MemoryId>, ids: seq<JobId>, now: int, n: nat)
    requires n <= |stale| == |ids| && FreshIds(jobs, ids)
    ensures forall i :: i in jobs ==>
              i in Requeued(jobs, stale, ids, now, n) && Requeued(jobs, stale, ids, now, n)[i] == jobs[i]
    ensures forall k :: n <= k < |ids| ==> ids[k] !in Requeued(jobs, stale, ids, now, n)
  {
    if n > 0 {
      RowsAreAdded(jobs, stale, ids, now, n - 1);
    }
  }

  lemma {:induction false} StaysDeduped(jobs: Jobs, stale: seq<MemoryId>, ids: seq<JobId>, now: int, n: nat)
    requires n <= |stale| == |ids| && FreshIds(jobs, ids) && Deduped(jobs)
    ensures Deduped(Requeued(jobs, stale, ids, now, n))
  {
    if n > 0 {
      StaysDeduped(jobs, stale, ids, now, n - 1);
      RowsAreAdded(jobs, stale, ids, now, n - 1);
      EnqueueIsRefusedIff(Requeued(jobs, stale, ids, now, n - 1), ids[n - 1], SpecFor(stale[n - 1]), now);
    }
  }

  lemma PrefixGrows(s: seq<MemoryId>, n: nat)
    requires 0 < n <= |s|
    ensures s[..n] == s[..n - 1] + [s[n - 1]]
  {
  }

  lemma StepCovers(jobs: Jobs, stale: seq<MemoryId>, ids: seq<JobId>, now: int, n: nat, m: MemoryId)
    requires 0 < n <= |stale| == |ids| && FreshIds(jobs, ids)
    ensures var before := InFlightFor(Requeued(jobs, stale, ids, now, n - 1), m);
            InFlightFor(Requeued(jobs, stale, ids, now, n), m)
            == if m == stale[n - 1] && before == {} then {ids[n - 1]} else before
  {
    RowsAreAdded(jobs, stale, ids, now, n - 1);
    EnqueueCovers(Requeued(jobs, stale, ids, now, n - 1), ids[n - 1], stale[n - 1], now, m);
  }

  /** What becomes of one memory's jobs as the loop works through `listed`. */
  predicate IsCovered(before: set<JobId>, after: set<JobId>, listed: bool) {
    if listed && before == {} then after != {} else after == before
  }

  lemma {:induction false} CoveredSoFar(jobs: Jobs, stale: seq<MemoryId>, ids: seq<JobId>, now: int, n: nat,
        m: MemoryId)
    requires n <= |stale| == |ids| && FreshIds(jobs, ids)
    ensures IsCovered(InFlightFor(jobs, m), InFlightFor(Requeued(jobs, stale, ids, now, n), m), m in stale[..n])
  {
    if n > 0 {
      CoveredSoFar(jobs, stale, ids, now, n - 1, m);
      StepCovers(jobs, stale, ids, now, n, m);
      OneMoreCovered(InFlightFor(jobs, m), InFlightFor(Requeued(jobs, stale, ids, now, n - 1), m),
                     InFlightFor(Requeued(jobs, stale, ids, now, n), m), stale, ids[n - 1], n, m);
    }
  }

  lemma OneMoreCovered(start: set<JobId>, before: set<JobId>, after: set<JobId>, stale: seq<MemoryId>, id: JobId,
        n: nat, m: MemoryId)
    requires 0 < n <= |stale| && IsCovered(start, before, m in stale[..n - 1])
    requires after == if m == stale[n - 1] && before == {} then {id} else before
    ensures IsCovered(start, after, m in stale[..n])
  {
    PrefixGrows(stale, n);
  }

  /** A row that the loop added is a fresh normalization of a listed memory, with the defaults of a job. */
  predicate IsRequested(row: Job, stale: seq<MemoryId>, now: int) {
    exists m :: m in stale
                && row == Job("normalize_memory", Some(m), Pending, 0, 0, 5, now, None, None, None, None, None)
  }

  lemma {:induction false} NewRowsAreRequested(jobs: Jobs, stale: seq<MemoryId>, ids: seq<JobId>, now: int, n: nat,
        i: JobId)
    requires n <= |stale| == |ids| && i in Requeued(jobs, stale, ids, now, n) && i !in jobs
    ensures IsRequested(Requeued(jobs, stale, ids, now, n)[i], stale, now)
  {
    var before := Requeued(jobs, stale, ids, now, n - 1);
    if Requeued(jobs, stale, ids, now, n) == before || i != ids[n - 1] {
      NewRowsAreRequested(jobs, stale, ids, now, n - 1, i);
    } else {
      assert stale[n - 1] in stale;
    }
  }

  lemma PrefixUncovered(jobs: Jobs, stale: seq<MemoryId>, n: nat)
    requires 0 < n <= |stale|
    ensures |Uncovered(jobs, stale[..n])|
         == |Uncovered(jobs, stale[..n - 1])|
            + if InFlightFor(jobs, stale[n - 1]) == {} && stale[n - 1] !in stale[..n - 1] then 1 else 0
  {
    PrefixGrows(stale, n);
    OneMoreUncovered(jobs, stale[..n - 1], stale[n - 1]);
  }

  lemma OneMoreUncovered(jobs: Jobs, stale: seq<MemoryId>, m: MemoryId)
    ensures |Uncovered(jobs, stale + [m])|
         == |Uncovered(jobs, stale)| + if InFlightFor(jobs, m) == {} && m !in stale then 1 else 0
  {
    var was := Uncovered(jobs, stale);
    assert Uncovered(jobs, stale + [m]) == if InFlightFor(jobs, m) == {} then was + {m} else was;
  }

  /**
   `enqueue_rechunk` leaves exactly one job in flight for every listed memory, however often the
   list names it. Rows are only added, each a fresh normalization of a listed memory that had no job
   in flight; every other memory's jobs are as they were.
   */
  lemma RechunkLeavesOneEach(jobs: Jobs, stale: seq<MemoryId>, ids: seq<JobId>, now: int)
    requires |stale| == |ids| && FreshIds(jobs, ids) && Deduped(jobs)
    ensures var jobs' := Requeued(jobs, stale, ids, now, |stale|);
            && Deduped(jobs')
            && (forall i :: i in jobs ==> i in jobs' && jobs'[i] == jobs[i])
            && (forall i :: i in jobs' && i !in jobs ==> IsRequested(jobs'[i], stale, now))
            && (forall m :: m in stale ==> |InFlightFor(jobs', m)| == 1)
            && (forall m :: m !in stale || InFlightFor(jobs, m) != {} ==> InFlightFor(jobs', m) == InFlightFor(jobs, m))
  {
    StaysDeduped(jobs, stale, ids, now, |stale|);
    RowsAreAdded(jobs, stale, ids, now, |stale|);
    var jobs' := Requeued(jobs, stale, ids, now, |stale|);
    assert stale[..|stale|] == stale;
    forall i | i in jobs' && i !in jobs ensures IsRequested(jobs'[i], stale, now) {
      NewRowsAreRequested(jobs, stale, ids, now, |stale|, i);
    }
    forall m | m in stale ensures |InFlightFor(jobs', m)| == 1 {
      CoveredSoFar(jobs, stale, ids, now, |stale|, m);
      AtMostOneInFlight(jobs', m);
    }
    forall m | m !in stale || InFlightFor(jobs, m) != {} ensures InFlightFor(jobs', m) == InFlightFor(jobs, m) {
      CoveredSoFar(jobs, stale, ids, now, |stale|, m);
    }
  }

  lemma OneIteration(jobs: Jobs, stale: seq<MemoryId>, ids: seq<JobId>, now: int, n: nat)
    requires n < |stale| == |ids| && FreshIds(jobs, ids)
    ensures ids[n] !in Requeued(jobs, stale, ids, now, n)
    ensures |Uncovered(jobs, stale[..n + 1])| == |Uncovered(jobs, stale[..n])|
              + (if IsRefused(Requeued(jobs, stale, ids, now, n), SpecFor(stale[n]), now) then 0 else 1)
  {
    RowsAreAdded(jobs, stale, ids, now, n);
    CoveredSoFar(jobs, stale, ids, now, n, stale[n]);
    RefusedIffInFlight(Requeued(jobs, stale, ids, now, n), stale[n], now);
    PrefixUncovered(jobs, stale, n + 1);
  }

  method EnqueueRechunk(queue: PostgresJobQueue, stale: seq<MemoryId>, ids: seq<JobId>, now: int)
    returns (enqueued: nat)
    requires |stale| == |ids| && FreshIds(queue.jobs, ids)
    modifies queue
    ensures queue.jobs == Requeued(old(queue.jobs), stale, ids, now, |stale|)
    ensures enqueued == |Uncovered(old(queue.jobs), stale)|
  {
    ghost var jobs := queue.jobs;
    enqueued := 0;
    for n := 0 to |stale|
      invariant queue.jobs == Requeued(jobs, stale, ids, now, n) && enqueued == |Uncovered(jobs, stale[..n])|
    {
      OneIteration(jobs, stale, ids, now, n);
      var id := queue.Enqueue(ids[n], SpecFor(stale[n]), now);
      if id.Some? {
        enqueued := enqueued + 1;
      }
    }
    assert stale[..|stale|] == stale;
  }
}
