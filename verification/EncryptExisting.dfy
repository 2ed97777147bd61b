/**
 The pass of `encrypt-existing`: every listed memory in its own transaction, stopping at the first
 that raises. What a finished pass leaves, where it stops, and what it counts down.
 */
module EncryptExisting {
  import opened Options
  import opened Encodings
  import opened Aead
  import opened Cipher
  import opened EncryptedStore
  import opened EncryptedMemory
  import opened EncryptedRuns

  /** The system after the first `n` of `ids`, and the exception that ended the pass, if one did. */
  datatype Pass = Pass(s: System, stopped: Option<Abort>, changed: nat, idle: nat)

  /** `encrypt_memory` for any id, a missing memory included. */
  function Try(w: World, s: Store, id: Id, d: Draws): Attempt
    requires id in s.memories
  {
    EncryptMemory(w, s.master, id, s.memories[id], d)
  }

  function PassOver(w: World, s: System, ids: seq<Id>, draws: seq<Draws>, n: nat): Pass
    requires n <= |ids| == |draws|
  {
    if n == 0 then Pass(s, None, 0, 0)
    else
      var p := PassOver(w, s, ids, draws, n - 1);
      var id, d := ids[n - 1], draws[n - 1];
      if p.stopped.Some? then p
      else if id !in p.s.store.memories then p.(idle := p.idle + 1)
      else
        match Try(w, p.s.store, id, d)
        case Aborted(why) => p.(stopped := Some(why))
        case Done(_, changed) =>
          Pass(Encrypted(w, p.s, id, d), None,
               p.changed + (if changed then 1 else 0), p.idle + (if changed then 0 else 1))
  }

  /** `encrypt_memory` raises for this memory. */
  predicate BlockedAt(w: World, s: Store, id: Id) {
    id in s.memories && Blocked(w, s.master, id, s.memories[id])
  }

  /** Each listed memory brings a key of its own, drawn never before. */
  predicate FreshDraws(s: System, draws: seq<Draws>) {
    && (forall i :: 0 <= i < |draws| ==> draws[i].key !in s.issued)
    && forall i, j :: 0 <= i < j < |draws| ==> draws[i].key != draws[j].key
  }

  lemma TransactionTouchesOne(w: World, s: System, id: Id, d: Draws)
    requires id in s.store.memories
    ensures var s' := Encrypted(w, s, id, d);
            && s'.originals == s.originals && s'.store.memories.Keys == s.store.memories.Keys
            && s'.store.master == s.store.master
            && (forall other :: other in s.store.memories && other != id ==>
                  s'.store.memories[other] == s.store.memories[other])
  {
  }

  /** One transaction leaves every other memory, and everything but one memory's rows, alone. */
  lemma OneTransaction(w: World, s: System, id: Id, d: Draws)
    requires Ideal(w.aead) && Inv(w, s) && IsFresh(s, id, d) && id in s.store.memories
    ensures Inv(w, Encrypted(w, s, id, d))
    ensures var s' := Encrypted(w, s, id, d);
            && s'.originals == s.originals && s'.store.memories.Keys == s.store.memories.Keys
            && s'.store.master == s.store.master
            && (forall other :: other in s.store.memories && other != id ==>
                  s'.store.memories[other] == s.store.memories[other])
    ensures Try(w, s.store, id, d).Aborted? <==> BlockedAt(w, s.store, id)
    ensures Try(w, s.store, id, d).Aborted? ==> Try(w, s.store, id, d).why == WhyBlocked(s.store.memories[id])
    ensures BlockedAt(w, s.store, id) || s.store.memories[id].content.None? ==> Encrypted(w, s, id, d) == s
    ensures !BlockedAt(w, s.store, id) && s.store.memories[id].content.Some? ==>
              var m := Encrypted(w, s, id, d).store.memories[id];
              IsExact(w, m, s.originals[id]) && m.content.Some? && !BlockedAt(w, Encrypted(w, s, id, d).store, id)
  {
    TransactionTouchesOne(w, s, id, d);
    EncryptKeeps(w, s, id, d);
    var m := s.store.memories[id];
    assert FitsAt(w, s, id) && IsNewKey(m, d.key, s.written);
    EncryptMemoryKeeps(w, s.store.master, id, m, s.originals[id], d, s.written, s.issued);
    assert Try(w, s.store, id, d) == EncryptMemory(w, s.store.master, id, m, d);
  }

  /** What the pass makes of one memory that it has reached, or has not. */
  ghost predicate Settled(w: World, s: System, s': System, reached: seq<Id>, id: Id)
    requires id in s.store.memories && id in s'.store.memories && id in s.originals
  {
    if id in reached && s.store.memories[id].content.Some? then
      && IsExact(w, s'.store.memories[id], s.originals[id])
      && s'.store.memories[id].content.Some? && !BlockedAt(w, s'.store, id)
    else s'.store.memories[id] == s.store.memories[id]
  }

  ghost predicate AllSettled(w: World, s: System, s': System, reached: seq<Id>) {
    && s.store.memories.Keys == s.originals.Keys == s'.store.memories.Keys && s'.originals == s.originals
    && s'.store.master == s.store.master
    && forall id :: id in s.store.memories ==> Settled(w, s, s', reached, id)
  }

  lemma OneMoreSettled(w: World, s: System, s': System, reached: seq<Id>, id: Id, d: Draws)
    requires Ideal(w.aead) && Inv(w, s') && IsFresh(s', id, d) && AllSettled(w, s, s', reached)
    requires id in s.store.memories && !BlockedAt(w, s.store, id)
    ensures id in s'.store.memories && Try(w, s'.store, id, d).Done? && Inv(w, Encrypted(w, s', id, d))
    ensures AllSettled(w, s, Encrypted(w, s', id, d), reached + [id])
  {
    assert Settled(w, s, s', reached, id);
    OneTransaction(w, s', id, d);
    var s'' := Encrypted(w, s', id, d);
    forall other | other in s.store.memories ensures Settled(w, s, s'', reached + [id], other) {
      assert Settled(w, s, s', reached, other);
    }
  }

  lemma MissingSettled(w: World, s: System, s': System, reached: seq<Id>, id: Id)
    requires AllSettled(w, s, s', reached) && id !in s.store.memories
    ensures AllSettled(w, s, s', reached + [id])
  {
    forall other | other in s.store.memories ensures Settled(w, s, s', reached + [id], other) {
      assert Settled(w, s, s', reached, other);
    }
  }

  predicate NoneBlocked(w: World, s: Store, ids: seq<Id>) {
    forall i :: 0 <= i < |ids| ==> !BlockedAt(w, s, ids[i])
  }

  function DrawnKeys(draws: seq<Draws>, n: nat): set<Bytes>
    requires n <= |draws|
  {
    set i | 0 <= i < n :: draws[i].key
  }

  lemma {:induction false} IssuedInPass(w: World, s: System, ids: seq<Id>, draws: seq<Draws>, n: nat)
    requires n <= |ids| == |draws|
    ensures PassOver(w, s, ids, draws, n).s.issued <= s.issued + DrawnKeys(draws, n)
  {
    if n > 0 {
      IssuedInPass(w, s, ids, draws, n - 1);
      assert draws[n - 1].key in DrawnKeys(draws, n);
      assert DrawnKeys(draws, n - 1) <= DrawnKeys(draws, n);
    }
  }

  /** So every step of the pass is one that a run may take. */
  lemma FreshInPass(w: World, s: System, ids: seq<Id>, draws: seq<Draws>, n: nat)
    requires n < |ids| == |draws| && FreshDraws(s, draws)
    ensures IsFresh(PassOver(w, s, ids, draws, n).s, ids[n], draws[n])
  {
    IssuedInPass(w, s, ids, draws, n);
  }

  /** Before the first blocked memory the pass goes through, and settles what it reaches. */
  lemma {:induction false} PassGoesThrough(w: World, s: System, ids: seq<Id>, draws: seq<Draws>, n: nat)
    requires Ideal(w.aead) && Inv(w, s) && n <= |ids| == |draws| && FreshDraws(s, draws)
    requires NoneBlocked(w, s.store, ids[..n])
    ensures var p := PassOver(w, s, ids, draws, n);
            p.stopped.None? && Inv(w, p.s) && AllSettled(w, s, p.s, ids[..n]) && p.changed + p.idle == n
  {
    if n > 0 {
      assert ids[..n] == ids[..n - 1] + [ids[n - 1]];
      assert NoneBlocked(w, s.store, ids[..n - 1]) && ids[..n][n - 1] == ids[n - 1];
      PassGoesThrough(w, s, ids, draws, n - 1);
      var p := PassOver(w, s, ids, draws, n - 1);
      FreshInPass(w, s, ids, draws, n - 1);
      if ids[n - 1] in s.store.memories {
        OneMoreSettled(w, s, p.s, ids[..n - 1], ids[n - 1], draws[n - 1]);
      } else {
        MissingSettled(w, s, p.s, ids[..n - 1], ids[n - 1]);
      }
    }
  }

  lemma {:induction false} PassMeetsBlocked(w: World, s: System, ids: seq<Id>, draws: seq<Draws>, at: nat)
    requires Ideal(w.aead) && Inv(w, s) && at < |ids| == |draws| && FreshDraws(s, draws)
    requires NoneBlocked(w, s.store, ids[..at]) && BlockedAt(w, s.store, ids[at])
    ensures var p := PassOver(w, s, ids, draws, at);
            && p.stopped.None? && ids[at] in p.s.store.memories
            && Try(w, p.s.store, ids[at], draws[at]) == Aborted(WhyBlocked(s.store.memories[ids[at]]))
  {
    PassGoesThrough(w, s, ids, draws, at);
    FreshInPass(w, s, ids, draws, at);
    var p := PassOver(w, s, ids, draws, at);
    assert Settled(w, s, p.s, ids[..at], ids[at]);
    assert ids[at] !in ids[..at];
    OneTransaction(w, p.s, ids[at], draws[at]);
  }

  /** At the first blocked memory the pass ends for good, whatever is listed after it. */
  lemma {:induction false} PassStops(w: World, s: System, ids: seq<Id>, draws: seq<Draws>, at: nat, n: nat)
    requires Ideal(w.aead) && Inv(w, s) && at < n <= |ids| == |draws| && FreshDraws(s, draws)
    requires NoneBlocked(w, s.store, ids[..at]) && BlockedAt(w, s.store, ids[at])
    ensures PassOver(w, s, ids, draws, n)
         == PassOver(w, s, ids, draws, at).(stopped := Some(WhyBlocked(s.store.memories[ids[at]])))
  {
    if n == at + 1 {
      PassMeetsBlocked(w, s, ids, draws, at);
    } else {
      PassStops(w, s, ids, draws, at, n - 1);
    }
  }

  /** The index of the first blocked memory, or the length of the list. */
  function FirstBlocked(w: World, s: Store, ids: seq<Id>): (k: nat)
    ensures k <= |ids| && NoneBlocked(w, s, ids[..k]) && (k < |ids| ==> BlockedAt(w, s, ids[k]))
  {
    if ids == [] then 0
    else if BlockedAt(w, s, ids[0]) then 0
    else
      var k := FirstBlocked(w, s, ids[1..]);
      assert ids[..k + 1] == [ids[0]] + ids[1..][..k];
      k + 1
  }

  /**
   A pass from any state that a run can reach finishes if and only if none of its memories with content
   was shredded or holds a chunk that is stuck: an envelope that its own key does not open, beside a
   vector that has to be rebuilt from it. Otherwise it ends at the first of those, with KeyDestroyed
   or Undecryptable: the memories listed before it are encrypted, and nothing after it is touched.
   */
  lemma {:induction false} PassFinishesIff(w: World, s: System, ids: seq<Id>, draws: seq<Draws>)
    requires Ideal(w.aead) && Inv(w, s) && |ids| == |draws| && FreshDraws(s, draws)
    ensures var p, k := PassOver(w, s, ids, draws, |ids|), FirstBlocked(w, s.store, ids);
            && (p.stopped.None? <==> NoneBlocked(w, s.store, ids)) && (p.stopped.Some? <==> k < |ids|)
            && (p.stopped.Some? ==> p.stopped.value == WhyBlocked(s.store.memories[ids[k]]))
            && Inv(w, p.s) && AllSettled(w, s, p.s, ids[..k]) && p.changed + p.idle == k
  {
    var k := FirstBlocked(w, s.store, ids);
    PassGoesThrough(w, s, ids, draws, k);
    assert ids[..|ids|] == ids;
    if k < |ids| {
      PassStops(w, s, ids, draws, k, |ids|);
    }
  }

  /** A pass keeps the invariant, wherever it ends. */
  lemma {:induction false} PassKeepsInv(w: World, s: System, ids: seq<Id>, draws: seq<Draws>, n: nat)
    requires Ideal(w.aead) && Inv(w, s) && n <= |ids| == |draws| && FreshDraws(s, draws)
    ensures Inv(w, PassOver(w, s, ids, draws, n).s)
  {
    if n > 0 {
      FreshInPass(w, s, ids, draws, n - 1);
      PassKeepsInv(w, s, ids, draws, n - 1);
      EncryptKeeps(w, PassOver(w, s, ids, draws, n - 1).s, ids[n - 1], draws[n - 1]);
    }
  }

  lemma {:induction false} IdleAt(w: World, s: System, id: Id, d: Draws)
    requires Ideal(w.aead) && Inv(w, s) && id in s.store.memories && !BlockedAt(w, s.store, id)
    requires s.store.memories[id].content.Some? ==> IsExact(w, s.store.memories[id], s.originals[id])
    ensures Try(w, s.store, id, d).Done? && Encrypted(w, s, id, d).store == s.store
    ensures Encrypted(w, s, id, d).originals == s.originals && Inv(w, Encrypted(w, s, id, d))
  {
    assert FitsAt(w, s, id);
    var m := s.store.memories[id];
    if m.content.Some? {
      assert m.key.Some? by {
        assert CellFits(w, s.store.master, id, m.key, m.content.value, s.originals[id].content.value, s.written);
      }
      EncryptingAgainIsIdle(w, s.store.master, id, m, s.originals[id], d, s.written, s.issued);
      assert s.store.memories[id := m] == s.store.memories;
      EncryptKeeps(w, s, id, d);
    }
  }

  ghost predicate AllExact(w: World, s: System, ids: seq<Id>)
    requires s.store.memories.Keys == s.originals.Keys
  {
    forall id :: id in ids && id in s.store.memories ==>
      && !BlockedAt(w, s.store, id)
      && (s.store.memories[id].content.Some? ==> IsExact(w, s.store.memories[id], s.originals[id]))
  }

  lemma {:induction false} PassIsIdle(w: World, s: System, ids: seq<Id>, draws: seq<Draws>, n: nat)
    requires Ideal(w.aead) && Inv(w, s) && n <= |ids| == |draws| && AllExact(w, s, ids)
    ensures var p := PassOver(w, s, ids, draws, n);
            p.stopped.None? && p.s.store == s.store && p.s.originals == s.originals && Inv(w, p.s)
  {
    if n > 0 {
      PassIsIdle(w, s, ids, draws, n - 1);
      if ids[n - 1] in s.store.memories {
        var p := PassOver(w, s, ids, draws, n - 1);
        IdleAt(w, p.s, ids[n - 1], draws[n - 1]);
      }
    }
  }

  /** Once a pass has finished, a second one over the same memories changes nothing at all. */
  lemma {:induction false} SecondPassIsIdle(w: World, s: System, ids: seq<Id>, draws: seq<Draws>, again: seq<Id>,
        draws': seq<Draws>)
    requires Ideal(w.aead) && Inv(w, s) && |ids| == |draws| && |again| == |draws'| && FreshDraws(s, draws)
    requires NoneBlocked(w, s.store, ids) && forall id :: id in again ==> id in ids
    ensures var s' := PassOver(w, s, ids, draws, |ids|).s;
            && PassOver(w, s', again, draws', |again|).s.store == s'.store
            && PassOver(w, s', again, draws', |again|).stopped.None?
  {
    var s' := PassOver(w, s, ids, draws, |ids|).s;
    assert ids[..|ids|] == ids;
    PassGoesThrough(w, s, ids, draws, |ids|);
    forall id | id in again && id in s'.store.memories
      ensures !BlockedAt(w, s'.store, id)
      ensures (s'.store.memories[id].content.Some? ==> IsExact(w, s'.store.memories[id], s'.originals[id]))
    {
      assert Settled(w, s, s', ids, id);
      assert !BlockedAt(w, s.store, id);
    }
    PassIsIdle(w, s', again, draws', |again|);
  }

  // ---------------------------------------------------------------------------------------
  // What is still in plaintext
  // ---------------------------------------------------------------------------------------

  /** Cell 0 of a memory is its content, cell i + 1 its chunk i. */
  predicate IsPlainCell(m: Memory, cell: nat) {
    if cell == 0 then m.content.Some? && !IsEncrypted(m.content.value)
    else cell <= |m.chunks| && !IsEncrypted(m.chunks[cell - 1].content)
  }

  function PlainCells(s: Store): set<(Id, nat)> {
    set id, cell: nat | id in s.memories && cell <= |s.memories[id].chunks| && IsPlainCell(s.memories[id], cell)
      :: (id, cell)
  }

  function CellsOf(s: Store, id: Id): set<(Id, nat)> {
    set p | p in PlainCells(s) && p.0 == id
  }

  /** Each transaction takes exactly its memory's cells out of the plaintext, or nothing. */
  lemma OneTransactionCounts(w: World, s: System, id: Id, d: Draws)
    requires Ideal(w.aead) && Inv(w, s) && IsFresh(s, id, d) && id in s.store.memories
    ensures PlainCells(Encrypted(w, s, id, d).store)
         == if s.store.memories[id].content.Some? && !BlockedAt(w, s.store, id)
            then PlainCells(s.store) - CellsOf(s.store, id) else PlainCells(s.store)
  {
    OneTransaction(w, s, id, d);
    var s' := Encrypted(w, s, id, d);
    if s.store.memories[id].content.Some? && !BlockedAt(w, s.store, id) {
      forall p ensures p in PlainCells(s'.store) <==> p in PlainCells(s.store) && p.0 != id {
        if p.0 == id {
          assert !IsPlainCell(s'.store.memories[id], p.1);
        }
      }
      assert PlainCells(s'.store) == PlainCells(s.store) - CellsOf(s.store, id);
    }
  }

  function Residue(s: Store, reached: seq<Id>): set<(Id, nat)> {
    set p | p in PlainCells(s) && (p.0 !in reached || s.memories[p.0].content.None?)
  }

  /**
   The plaintext a pass leaves: the cells of memories it did not reach, and the chunks of memories
   whose own content is NULL, which the pass looks at and leaves in plaintext.
   */
  lemma {:induction false} PassLeavesInPlaintext(w: World, s: System, ids: seq<Id>, draws: seq<Draws>)
    requires Ideal(w.aead) && Inv(w, s) && |ids| == |draws| && FreshDraws(s, draws)
    ensures PlainCells(PassOver(w, s, ids, draws, |ids|).s.store)
         == Residue(s.store, ids[..FirstBlocked(w, s.store, ids)])
  {
    PassFinishesIff(w, s, ids, draws);
    var s' := PassOver(w, s, ids, draws, |ids|).s;
    var reached := ids[..FirstBlocked(w, s.store, ids)];
    forall p ensures p in PlainCells(s'.store) <==> p in Residue(s.store, reached) {
      if p.0 in s.store.memories {
        assert Settled(w, s, s', reached, p.0);
      }
    }
  }

  /**
   The measure. Each transaction of the pass on a memory that still has plaintext to give makes
   `|PlainCells|` strictly smaller; none makes it larger.
   */
  lemma EncryptingCountsDown(w: World, s: System, id: Id, d: Draws)
    requires Ideal(w.aead) && Inv(w, s) && IsFresh(s, id, d) && id in s.store.memories
    ensures |PlainCells(Encrypted(w, s, id, d).store)| <= |PlainCells(s.store)|
    ensures |PlainCells(Encrypted(w, s, id, d).store)| < |PlainCells(s.store)|
            <==> s.store.memories[id].content.Some? && !BlockedAt(w, s.store, id) && CellsOf(s.store, id) != {}
  {
    OneTransactionCounts(w, s, id, d);
    var all, mine := PlainCells(s.store), CellsOf(s.store, id);
    Shrinks(all, mine);
  }

  lemma Shrinks<T>(all: set<T>, part: set<T>)
    requires part <= all
    ensures |all - part| <= |all| && (|all - part| < |all| <==> part != {})
  {
    assert all == (all - part) + part && (all - part) !! part;
    assert |all| == |all - part| + |part|;
  }
}
