/**
 What each event does to the stored rows, and what a reader gets from them later: the text that was
 given last, whatever encrypting, rotating, reindexing and moving came in between.
 */
module StoreEffects {
  import opened Options
  import opened Encodings
  import opened Aead
  import opened Cipher
  import opened EncryptedStore
  import opened EncryptedMemory
  import opened EncryptedRuns
  import opened EncryptExisting

  // ---------------------------------------------------------------------------------------
  // Reading
  // ---------------------------------------------------------------------------------------

  predicate WearsPrefix(stored: string) {
    "enc:v1:" <= stored
  }

  /** The row holds this data key: twelve bytes of nonce before what the master key opens for the memory. */
  predicate Unwraps(w: World, master: Bytes, id: Id, row: Option<KeyRow>, key: Bytes) {
    && row.Some? && row.value.wrapped.Some?
    && var wrapped := row.value.wrapped.value;
       |wrapped| >= 12 && w.aead.open(master, wrapped[..12], wrapped[12..], EncodeUtf8(id)) == Some(key)
  }

  /** The memory's row holds a key that opens the envelope to this text. */
  ghost predicate OpensThrough(w: World, master: Bytes, id: Id, row: Option<KeyRow>, stored: string, text: string) {
    exists key :: Unwraps(w, master, id, row, key) && OpensTo(w.aead, stored, key, id, text)
  }

  /** What a stored text reads as, through the rows of the key table. */
  lemma ReadsIff(w: World, s: Store, id: Id, stored: string, text: string)
    ensures ReadBack(w, s, id, stored) == Plain(text) <==>
              if WearsPrefix(stored)
              then id in s.memories && OpensThrough(w, s.master, id, s.memories[id].key, stored, text)
              else text == stored
    ensures ReadBack(w, s, id, stored) == Shredded <==>
              && WearsPrefix(stored) && id in s.memories
              && s.memories[id].key.Some? && s.memories[id].key.value.wrapped.None?
  {
    if WearsPrefix(stored) && id in s.memories {
      var row := s.memories[id].key;
      if row.Some? && row.value.wrapped.Some? {
        var o := Unwrap(w.aead, s.master, row.value.wrapped.value, id);
        if o.Some? {
          DecryptsIff(w.aead, stored, o.value, id, text);
          assert Unwraps(w, s.master, id, row, o.value);
        }
      }
    }
  }

  // ---------------------------------------------------------------------------------------
  // Writing
  // ---------------------------------------------------------------------------------------

  /** The rest of the system is as it was. */
  ghost predicate OnlyMemories(s: System, s': System, ids: set<Id>) {
    && s'.store.master == s.store.master && s'.written == s.written && s'.issued == s.issued
    && (forall other :: other !in ids ==> (other in s'.store.memories <==> other in s.store.memories))
    && (forall other :: other !in ids && other in s.store.memories ==>
          s'.store.memories[other] == s.store.memories[other])
    && (forall other :: other !in ids ==> (other in s'.originals <==> other in s.originals))
    && (forall other :: other !in ids && other in s.originals ==> s'.originals[other] == s.originals[other])
  }

  predicate Has(s: System, id: Id) {
    id in s.store.memories && id in s.originals
  }

  /** A chunk written in plaintext, with the vector of its text. */
  predicate IsWritten(w: World, c: Chunk, text: string) {
    c.content == text && c.vector == Some(w.tsv(text))
  }

  lemma PutTakesEffect(w: World, s: System, id: Id, o: Original)
    requires Enabled(s, Put(id, o))
    ensures var s' := Step(w, s, Put(id, o));
            && OnlyMemories(s, s', {id}) && Has(s', id) && s'.originals[id] == o
            && var m := s'.store.memories[id];
               && m.content == o.content && |m.chunks| == |o.chunks|
               && (forall k :: 0 <= k < |m.chunks| ==> IsWritten(w, m.chunks[k], o.chunks[k]))
               && m.key == if id in s.store.memories then s.store.memories[id].key else None
  {
  }

  lemma PutContentTakesEffect(w: World, s: System, id: Id, text: string)
    requires Enabled(s, PutContent(id, text)) && Has(s, id)
    ensures var s' := Step(w, s, PutContent(id, text));
            && OnlyMemories(s, s', {id}) && Has(s', id)
            && s'.store.memories[id] == s.store.memories[id].(content := Some(text))
            && s'.originals[id] == s.originals[id].(content := Some(text))
  {
  }

  lemma PutChunkTakesEffect(w: World, s: System, id: Id, i: nat, text: string)
    requires Enabled(s, PutChunk(id, i, text)) && Has(s, id) && i < |s.store.memories[id].chunks|
    requires |s.store.memories[id].chunks| == |s.originals[id].chunks|
    ensures var s' := Step(w, s, PutChunk(id, i, text));
            && OnlyMemories(s, s', {id}) && Has(s', id)
            && var m, m' := s.store.memories[id], s'.store.memories[id];
               && m'.content == m.content && m'.key == m.key && |m'.chunks| == |m.chunks|
               && IsWritten(w, m'.chunks[i], text)
               && (forall k :: 0 <= k < |m.chunks| && k != i ==> m'.chunks[k] == m.chunks[k])
               && s'.originals[id] == s.originals[id].(chunks := s.originals[id].chunks[i := text])
  {
  }

  lemma DropTakesEffect(w: World, s: System, id: Id)
    requires Has(s, id)
    ensures var s' := Step(w, s, Drop(id));
            && OnlyMemories(s, s', {id}) && Has(s', id)
            && s'.store.memories[id] == s.store.memories[id].(chunks := [])
            && s'.originals[id] == s.originals[id].(chunks := [])
  {
  }

  lemma PurgeTakesEffect(w: World, s: System, id: Id)
    ensures var s' := Step(w, s, Purge(id));
            OnlyMemories(s, s', {id}) && id !in s'.store.memories && id !in s'.originals
  {
  }

  /** There is something to move, into a memory that has no chunks yet. */
  predicate CanMove(s: System, from: Id, into: Id) {
    && from != into && Has(s, from) && Has(s, into)
    && |s.store.memories[from].chunks| > 0 && |s.store.memories[into].chunks| == 0
  }

  /** The chunks change their memory as they are, and the new version gets the text; or nothing happens. */
  lemma AdoptTakesEffect(w: World, s: System, from: Id, into: Id, text: string)
    ensures var s' := Step(w, s, Adopt(from, into, text));
            if !CanMove(s, from, into) then s' == s
            else
              && OnlyMemories(s, s', {from, into}) && Has(s', from) && Has(s', into)
              && s'.store.memories[from] == s.store.memories[from].(chunks := [])
              && s'.store.memories[into]
                 == s.store.memories[into].(content := Some(text), chunks := s.store.memories[from].chunks)
              && s'.originals[from] == s.originals[from].(chunks := [])
              && s'.originals[into] == s.originals[into].(content := Some(text), chunks := s.originals[from].chunks)
  {
  }

  /** Destroying empties the key row, stamped, and touches nothing else; an empty row keeps its stamp. */
  lemma DestroyTakesEffect(w: World, s: System, id: Id, at: int)
    requires Has(s, id)
    ensures var s', row := Step(w, s, Destroy(id, at)), s.store.memories[id].key;
            && OnlyMemories(s, s', {id}) && Has(s', id) && s'.originals[id] == s.originals[id]
            && s'.store.memories[id] == s.store.memories[id].(
                 key := if row.Some? && row.value.wrapped.Some? then Some(KeyRow(None, Some(at))) else row)
  {
  }

  /** Every chunk gets the vector of its plaintext, or none if it is an envelope; nothing else changes. */
  lemma ReindexTakesEffect(w: World, s: System, id: Id)
    requires Has(s, id)
    ensures var s' := Step(w, s, Reindex);
            && s'.store.master == s.store.master && s'.originals == s.originals && s'.written == s.written
            && s'.issued == s.issued && s'.store.memories.Keys == s.store.memories.Keys
            && var m, m' := s.store.memories[id], s'.store.memories[id];
               && m'.content == m.content && m'.key == m.key && |m'.chunks| == |m.chunks|
               && forall k :: 0 <= k < |m.chunks| ==>
                    && m'.chunks[k].content == m.chunks[k].content
                    && m'.chunks[k].vector
                       == if WearsPrefix(m.chunks[k].content) then None else Some(w.tsv(m.chunks[k].content))
  {
    assert Step(w, s, Reindex).store.memories.Keys == s.store.memories.Keys;
    ReindexedChunks(w, s.store.memories[id]);
  }

  lemma ReindexedChunks(w: World, m: Memory)
    ensures var m' := Reindexed(w, m);
            && m'.content == m.content && m'.key == m.key && |m'.chunks| == |m.chunks|
            && forall k :: 0 <= k < |m.chunks| ==>
                 && m'.chunks[k].content == m.chunks[k].content
                 && m'.chunks[k].vector
                    == if WearsPrefix(m.chunks[k].content) then None else Some(w.tsv(m.chunks[k].content))
  {
    forall k | 0 <= k < |m.chunks|
      ensures Reindexed(w, m).chunks[k].content == m.chunks[k].content
      ensures Reindexed(w, m).chunks[k].vector
           == if WearsPrefix(m.chunks[k].content) then None else Some(w.tsv(m.chunks[k].content))
    {
      assert IsEncrypted(m.chunks[k].content) <==> WearsPrefix(m.chunks[k].content);
    }
  }

  // ---------------------------------------------------------------------------------------
  // Encrypting
  // ---------------------------------------------------------------------------------------

  /** An envelope without a vector, or with one that has the prefix's lexeme, that the row's key does not open. */
  ghost predicate CannotRepair(w: World, master: Bytes, id: Id, row: Option<KeyRow>, c: Chunk) {
    && WearsPrefix(c.content) && (c.vector.None? || "enc" in c.vector.value)
    && forall text :: !OpensThrough(w, master, id, row, c.content, text)
  }

  /** The memory has content, but its key is destroyed or one of its chunks cannot be repaired. */
  ghost predicate IsRefused(w: World, s: System, id: Id)
    requires id in s.store.memories
  {
    var m := s.store.memories[id];
    && m.content.Some?
    && ((m.key.Some? && m.key.value.wrapped.None?)
        || exists k :: 0 <= k < |m.chunks| && CannotRepair(w, s.store.master, id, m.key, m.chunks[k]))
  }

  lemma StuckIff(w: World, master: Bytes, id: Id, row: Option<KeyRow>, c: Chunk)
    ensures IsStuck(w, master, id, row, c) <==> CannotRepair(w, master, id, row, c)
  {
    if WearsPrefix(c.content) {
      var key := KeyOf(w, master, id, row);
      if KeyOpens(w, master, id, row, c.content) {
        var text := Decrypt(w.aead, c.content, key.value, id).text;
        DecryptsIff(w.aead, c.content, key.value, id, text);
        assert Unwraps(w, master, id, row, key.value);
        assert OpensThrough(w, master, id, row, c.content, text);
      }
      if text :| OpensThrough(w, master, id, row, c.content, text) {
        var k :| Unwraps(w, master, id, row, k) && OpensTo(w.aead, c.content, k, id, text);
        DecryptsIff(w.aead, c.content, k, id, text);
      }
    }
  }

  lemma BlockedIff(w: World, s: System, id: Id)
    requires id in s.store.memories
    ensures Blocked(w, s.store.master, id, s.store.memories[id]) <==> IsRefused(w, s, id)
  {
    var m := s.store.memories[id];
    forall k | 0 <= k < |m.chunks|
      ensures IsStuck(w, s.store.master, id, m.key, m.chunks[k])
         <==> CannotRepair(w, s.store.master, id, m.key, m.chunks[k])
    {
      StuckIff(w, s.store.master, id, m.key, m.chunks[k]);
    }
  }

  /** An envelope in place of the text; what was an envelope stays the same one. */
  predicate IsSealedNow(before: string, after: string) {
    WearsPrefix(after) && (WearsPrefix(before) ==> after == before)
  }

  /** The memory with everything sealed, and beside each chunk the vector of its text. */
  predicate IsSealedMemory(w: World, m: Memory, m': Memory, texts: seq<string>) {
    && m.content.Some? && m'.content.Some? && IsSealedNow(m.content.value, m'.content.value)
    && |m'.chunks| == |m.chunks| == |texts|
    && (forall k :: 0 <= k < |m.chunks| ==>
          IsSealedNow(m.chunks[k].content, m'.chunks[k].content) && m'.chunks[k].vector == Some(w.tsv(texts[k])))
    && m'.key.Some? && m'.key.value.wrapped.Some? && (m.key.Some? ==> m'.key == m.key)
  }

  lemma {:induction false} ChunkStaysOrIsSealed(w: World, key: Bytes, id: Id, chunks: seq<Chunk>, d: Draws, n: nat,
        k: nat)
    requires k < n <= |chunks| && EncryptChunks(w, key, id, chunks, d, n).Some?
    ensures IsSealedNow(chunks[k].content, EncryptChunks(w, key, id, chunks, d, n).value[k].content)
  {
    EncryptChunksAt(w, key, id, chunks, d, n, k);
  }

  lemma ContentStaysOrIsSealed(w: World, s: System, id: Id, d: Draws)
    requires id in s.store.memories && s.store.memories[id].content.Some?
    requires EncryptMemory(w, s.store.master, id, s.store.memories[id], d).Done?
    ensures var m, m' := s.store.memories[id], EncryptMemory(w, s.store.master, id, s.store.memories[id], d).memory;
            && m'.content.Some? && IsSealedNow(m.content.value, m'.content.value) && |m'.chunks| == |m.chunks|
            && (forall k :: 0 <= k < |m.chunks| ==> IsSealedNow(m.chunks[k].content, m'.chunks[k].content))
            && m'.key.Some? && (m.key.Some? ==> m'.key == m.key) && m'.key.value.wrapped.Some?
  {
    var m := s.store.memories[id];
    var e := Ensure(w, s.store.master, id, m.key, d.key, d.keyNonce);
    forall k | 0 <= k < |m.chunks|
      ensures IsSealedNow(m.chunks[k].content,
                          EncryptChunks(w, e.key, id, m.chunks, d, |m.chunks|).value[k].content)
    {
      ChunkStaysOrIsSealed(w, e.key, id, m.chunks, d, |m.chunks|, k);
    }
  }

  /**
   Encrypting a memory with content seals everything in it that was not sealed, with the vectors its texts
   have, and leaves every other memory and every text as they were. It does nothing when it is refused.
   */
  lemma EncryptTakesEffect(w: World, s: System, id: Id, d: Draws)
    requires Ideal(w.aead) && Inv(w, s) && Enabled(s, EncryptOne(id, d)) && Has(s, id)
    ensures var s' := Step(w, s, EncryptOne(id, d));
            if s.store.memories[id].content.None? || IsRefused(w, s, id) then s' == s
            else
              && s'.store.master == s.store.master && s'.originals == s.originals
              && s'.store.memories.Keys == s.store.memories.Keys
              && (forall other :: other in s.store.memories && other != id ==>
                    s'.store.memories[other] == s.store.memories[other])
              && IsSealedMemory(w, s.store.memories[id], s'.store.memories[id], s.originals[id].chunks)
  {
    BlockedIff(w, s, id);
    if s.store.memories[id].content.Some? {
      AttemptIs(w, s, id, d);
    }
  }

  lemma AttemptIs(w: World, s: System, id: Id, d: Draws)
    requires Ideal(w.aead) && Inv(w, s) && Enabled(s, EncryptOne(id, d)) && Has(s, id)
    requires s.store.memories[id].content.Some?
    ensures var m, a := s.store.memories[id], EncryptMemory(w, s.store.master, id, s.store.memories[id], d);
            && (a.Aborted? <==> Blocked(w, s.store.master, id, m))
            && (a.Done? ==> IsSealedMemory(w, m, a.memory, s.originals[id].chunks))
  {
    var m := s.store.memories[id];
    assert FitsAt(w, s, id);
    EncryptMemoryKeeps(w, s.store.master, id, m, s.originals[id], d, s.written, s.issued);
    if EncryptMemory(w, s.store.master, id, m, d).Done? {
      ContentStaysOrIsSealed(w, s, id, d);
    }
  }

  // ---------------------------------------------------------------------------------------
  // What a pass reports
  // ---------------------------------------------------------------------------------------

  /** Something of the memory is not sealed, or has no vector, or one with the prefix's lexeme. */
  predicate HasWork(m: Memory) {
    || (m.content.Some? && !WearsPrefix(m.content.value))
    || exists k :: 0 <= k < |m.chunks| && ChunkHasWork(m.chunks[k])
  }

  predicate ChunkHasWork(c: Chunk) {
    !WearsPrefix(c.content) || c.vector.None? || "enc" in c.vector.value
  }

  /** One attempt on a memory with content: why it is refused, and otherwise whether it reports a change. */
  lemma AttemptReports(w: World, s: System, id: Id, d: Draws)
    requires Ideal(w.aead) && Inv(w, s) && IsFresh(s, id, d) && Has(s, id)
    ensures var m, a := s.store.memories[id], EncryptMemory(w, s.store.master, id, s.store.memories[id], d);
            if m.content.None? then a == Done(m, false)
            else if IsRefused(w, s, id) then
              a == Aborted(if m.key.Some? && m.key.value.wrapped.None? then KeyDestroyed else Undecryptable)
            else a.Done? && (a.changed <==> HasWork(m))
  {
    var m := s.store.memories[id];
    assert FitsAt(w, s, id);
    BlockedIff(w, s, id);
    assert forall k :: 0 <= k < |m.chunks| ==> (ChunkIsDone(m.chunks[k]) <==> !ChunkHasWork(m.chunks[k]));
    EncryptMemoryKeeps(w, s.store.master, id, m, s.originals[id], d, s.written, s.issued);
  }

  predicate HasPrefixLexeme(w: World, texts: seq<string>) {
    exists k :: 0 <= k < |texts| && "enc" in w.tsv(texts[k])
  }

  /** Whether the pass counts the i-th id as changed: by its work at first, by the lexeme when listed again. */
  predicate CountsAsChanged(w: World, s: System, ids: seq<Id>, i: nat)
    requires i < |ids|
  {
    && Has(s, ids[i]) && s.store.memories[ids[i]].content.Some?
    && if ids[i] in ids[..i] then HasPrefixLexeme(w, s.originals[ids[i]].chunks) else HasWork(s.store.memories[ids[i]])
  }

  ghost predicate RefusedAt(w: World, s: System, id: Id) {
    id in s.store.memories && IsRefused(w, s, id)
  }

  lemma SealedHasWorkIff(w: World, m: Memory, o: Original)
    requires IsExact(w, m, o)
    ensures HasWork(m) <==> HasPrefixLexeme(w, o.chunks)
  {
    if k :| 0 <= k < |m.chunks| && ChunkHasWork(m.chunks[k]) {
      assert "enc" in w.tsv(o.chunks[k]);
    }
    if k :| 0 <= k < |o.chunks| && "enc" in w.tsv(o.chunks[k]) {
      assert ChunkHasWork(m.chunks[k]);
    }
  }

  lemma TransactionReports(w: World, s: System, ids: seq<Id>, draws: seq<Draws>, n: nat)
    requires Ideal(w.aead) && Inv(w, s) && n < |ids| == |draws| && FreshDraws(s, draws)
    requires NoneBlocked(w, s.store, ids[..n + 1]) && ids[n] in s.store.memories
    ensures var p := PassOver(w, s, ids, draws, n);
            && ids[n] in p.s.store.memories && Try(w, p.s.store, ids[n], draws[n]).Done?
            && (Try(w, p.s.store, ids[n], draws[n]).changed <==> CountsAsChanged(w, s, ids, n))
  {
    BlockedBefore(w, s.store, ids, n);
    PassGoesThrough(w, s, ids, draws, n);
    FreshInPass(w, s, ids, draws, n);
    ReachedReports(w, s, PassOver(w, s, ids, draws, n).s, ids[..n], ids[n], draws[n]);
  }

  lemma BlockedBefore(w: World, s: Store, ids: seq<Id>, n: nat)
    requires n < |ids| && NoneBlocked(w, s, ids[..n + 1])
    ensures NoneBlocked(w, s, ids[..n]) && !BlockedAt(w, s, ids[n])
  {
    FewerBlocked(w, s, ids, n + 1, n);
    assert ids[..n + 1][n] == ids[n];
  }

  lemma ReachedReports(w: World, s: System, s': System, reached: seq<Id>, id: Id, d: Draws)
    requires Ideal(w.aead) && Inv(w, s') && IsFresh(s', id, d) && AllSettled(w, s, s', reached)
    requires id in s.store.memories && !BlockedAt(w, s.store, id)
    ensures id in s.originals && id in s'.store.memories && Try(w, s'.store, id, d).Done?
    ensures Try(w, s'.store, id, d).changed <==>
              && s.store.memories[id].content.Some?
              && if id in reached then HasPrefixLexeme(w, s.originals[id].chunks) else HasWork(s.store.memories[id])
  {
    assert Settled(w, s, s', reached, id);
    BlockedIff(w, s', id);
    AttemptReports(w, s', id, d);
    if id in reached && s.store.memories[id].content.Some? {
      SealedHasWorkIff(w, s'.store.memories[id], s.originals[id]);
    }
  }

  function ChangedAt(w: World, s: System, ids: seq<Id>, n: nat): set<nat>
    requires n <= |ids|
  {
    set i: nat | i < n && CountsAsChanged(w, s, ids, i)
  }

  /** The n-th id is counted, or not, as it says. */
  predicate CountedAt(w: World, s: System, ids: seq<Id>, draws: seq<Draws>, n: nat)
    requires n < |ids| == |draws|
  {
    PassOver(w, s, ids, draws, n + 1).changed
    == PassOver(w, s, ids, draws, n).changed + if CountsAsChanged(w, s, ids, n) then 1 else 0
  }

  lemma {:induction false} CountsAddUp(w: World, s: System, ids: seq<Id>, draws: seq<Draws>, n: nat)
    requires n <= |ids| == |draws| && forall i :: 0 <= i < n ==> CountedAt(w, s, ids, draws, i)
    ensures PassOver(w, s, ids, draws, n).changed == |ChangedAt(w, s, ids, n)|
  {
    if n == 0 {
      assert ChangedAt(w, s, ids, 0) == {};
    } else {
      CountsAddUp(w, s, ids, draws, n - 1);
      assert CountedAt(w, s, ids, draws, n - 1);
      OneMoreChanged(w, s, ids, n - 1);
    }
  }

  lemma PassCountsSoFar(w: World, s: System, ids: seq<Id>, draws: seq<Draws>, n: nat)
    requires Ideal(w.aead) && Inv(w, s) && n <= |ids| == |draws| && FreshDraws(s, draws)
    requires NoneBlocked(w, s.store, ids[..n])
    ensures PassOver(w, s, ids, draws, n).changed == |ChangedAt(w, s, ids, n)|
  {
    forall i | 0 <= i < n ensures CountedAt(w, s, ids, draws, i) {
      FewerBlocked(w, s.store, ids, n, i + 1);
      PassCountsOne(w, s, ids, draws, i);
    }
    CountsAddUp(w, s, ids, draws, n);
  }

  lemma FewerBlocked(w: World, s: Store, ids: seq<Id>, n: nat, m: nat)
    requires m <= n <= |ids| && NoneBlocked(w, s, ids[..n])
    ensures NoneBlocked(w, s, ids[..m])
  {
    forall i | 0 <= i < m ensures !BlockedAt(w, s, ids[..m][i]) {
      assert ids[..m][i] == ids[..n][i];
    }
  }

  lemma PassCountsOne(w: World, s: System, ids: seq<Id>, draws: seq<Draws>, n: nat)
    requires Ideal(w.aead) && Inv(w, s) && n < |ids| == |draws| && FreshDraws(s, draws)
    requires NoneBlocked(w, s.store, ids[..n + 1])
    ensures CountedAt(w, s, ids, draws, n)
  {
    BlockedBefore(w, s.store, ids, n);
    PassGoesThrough(w, s, ids, draws, n);
    if ids[n] in s.store.memories {
      TransactionReports(w, s, ids, draws, n);
    }
  }

  lemma OneMoreChanged(w: World, s: System, ids: seq<Id>, n: nat)
    requires n < |ids|
    ensures |ChangedAt(w, s, ids, n + 1)| == |ChangedAt(w, s, ids, n)| + if CountsAsChanged(w, s, ids, n) then 1 else 0
  {
    assert ChangedAt(w, s, ids, n + 1)
        == ChangedAt(w, s, ids, n) + if CountsAsChanged(w, s, ids, n) then {n} else {};
  }

  /**
   The counts of a pass. It ends before the first memory that is refused, with that memory's reason. Of the
   ids up to there it counts as changed those whose memory had work to do, and those listed again whose
   texts have the prefix's own lexeme; the others, missing memories included, it counts as left alone.
   */
  lemma PassCounts(w: World, s: System, ids: seq<Id>, draws: seq<Draws>, k: nat)
    requires Ideal(w.aead) && Inv(w, s) && k <= |ids| == |draws| && FreshDraws(s, draws)
    requires forall i :: 0 <= i < k ==> !RefusedAt(w, s, ids[i])
    requires k < |ids| ==> RefusedAt(w, s, ids[k])
    ensures var p := PassOver(w, s, ids, draws, |ids|);
            && p.changed == |set i: nat | i < k && CountsAsChanged(w, s, ids, i)| && p.changed + p.idle == k
            && p.stopped == if k == |ids| then None
                            else
                              var row := s.store.memories[ids[k]].key;
                              if row.Some? && row.value.wrapped.None? then Some(KeyDestroyed) else Some(Undecryptable)
  {
    forall i | 0 <= i <= k && i < |ids| ensures BlockedAt(w, s.store, ids[i]) <==> RefusedAt(w, s, ids[i]) {
      if ids[i] in s.store.memories {
        BlockedIff(w, s, ids[i]);
      }
    }
    assert NoneBlocked(w, s.store, ids[..k]);
    PassCountsSoFar(w, s, ids, draws, k);
    PassGoesThrough(w, s, ids, draws, k);
    assert ChangedAt(w, s, ids, k) == set i: nat | i < k && CountsAsChanged(w, s, ids, i);
    if k < |ids| {
      PassStops(w, s, ids, draws, k, |ids|);
    }
  }

  // ---------------------------------------------------------------------------------------
  // What was given last
  // ---------------------------------------------------------------------------------------

  /** The event gives the memory a content. */
  predicate GivesContent(s: System, e: Event, id: Id) {
    || (e.Put? && e.id == id)
    || (e.PutContent? && e.id == id && Has(s, id))
    || (e.Adopt? && e.into == id && CanMove(s, e.from, id))
  }

  function ContentGiven(e: Event): Option<string>
    requires e.Put? || e.PutContent? || e.Adopt?
  {
    if e.Put? then e.original.content else Some(e.text)
  }

  predicate RemovesMemory(e: Event, id: Id) {
    e.Purge? && e.id == id
  }

  predicate LeavesContent(states: seq<System>, events: seq<Event>, m: nat, id: Id)
    requires m < |events| && |states| == |events| + 1
  {
    !GivesContent(states[m], events[m], id) && !RemovesMemory(events[m], id)
  }

  lemma GivingGives(w: World, s: System, e: Event, id: Id)
    requires Enabled(s, e) && GivesContent(s, e, id)
    ensures Has(Step(w, s, e), id) && Step(w, s, e).originals[id].content == ContentGiven(e)
  {
  }

  lemma OthersKeepContent(w: World, s: System, e: Event, id: Id)
    requires Enabled(s, e) && Has(s, id) && !GivesContent(s, e, id) && !RemovesMemory(e, id)
    requires e.Rotate? ==> Ideal(w.aead) && Inv(w, s)
    ensures Has(Step(w, s, e), id) && Step(w, s, e).originals[id].content == s.originals[id].content
  {
    if e.Rotate? {
      RotateSucceeds(w, s, e.onto, e.nonces);
    }
  }

  lemma ContentGoesOn(w: World, states: seq<System>, events: seq<Event>, m: nat, id: Id)
    requires Run(w, states, events) && m < |events|
    ensures GivesContent(states[m], events[m], id) ==>
              Has(states[m + 1], id) && states[m + 1].originals[id].content == ContentGiven(events[m])
    ensures Has(states[m], id) && LeavesContent(states, events, m, id) ==>
              Has(states[m + 1], id) && states[m + 1].originals[id].content == states[m].originals[id].content
  {
    Reachable(w, states, events, m);
    assert Takes(w, states[m], events[m], states[m + 1]);
    if GivesContent(states[m], events[m], id) {
      GivingGives(w, states[m], events[m], id);
    } else if Has(states[m], id) && !RemovesMemory(events[m], id) {
      OthersKeepContent(w, states[m], events[m], id);
    }
  }

  lemma {:induction false} ContentIsKept(w: World, states: seq<System>, events: seq<Event>, i: nat, j: nat, id: Id)
    requires Run(w, states, events) && i < j < |states| && GivesContent(states[i], events[i], id)
    requires forall m :: i < m < j ==> LeavesContent(states, events, m, id)
    ensures Has(states[j], id) && states[j].originals[id].content == ContentGiven(events[i])
  {
    ContentGoesOn(w, states, events, j - 1, id);
    if i + 1 < j {
      ContentIsKept(w, states, events, i, j - 1, id);
    }
  }

  /**
   Whatever happened since, a memory's content reads back as the text it was given last, until the memory is
   purged; unless it is an envelope by then and the memory was shredded.
   */
  lemma ContentReadsAsLastGiven(w: World, states: seq<System>, events: seq<Event>, i: nat, j: nat, id: Id)
    requires Run(w, states, events) && i < j < |states| && GivesContent(states[i], events[i], id)
    requires forall m :: i < m < j ==> LeavesContent(states, events, m, id)
    ensures Has(states[j], id)
    ensures var m, given := states[j].store.memories[id], ContentGiven(events[i]);
            && (m.content.Some? <==> given.Some?)
            && (given.Some? ==>
                  ReadBack(w, states[j].store, id, m.content.value)
                  == if WearsPrefix(m.content.value) && m.key.Some? && m.key.value.wrapped.None? then Shredded
                     else Plain(given.value))
  {
    ContentIsKept(w, states, events, i, j, id);
    RunsReadFaithfully(w, states, events, j, id);
  }

  /** The event gives the k-th chunk of the memory this text. */
  predicate GivesChunk(s: System, e: Event, id: Id, k: nat, text: string) {
    || (e.Put? && e.id == id && k < |e.original.chunks| && e.original.chunks[k] == text)
    || (e.PutChunk? && e.id == id && e.index == k && e.text == text && Has(s, id) && k < |s.store.memories[id].chunks|)
  }

  /** The event gives, moves or removes the k-th chunk of the memory. */
  predicate TouchesChunk(s: System, e: Event, id: Id, k: nat) {
    || ((e.Put? || e.Drop? || e.Purge?) && e.id == id)
    || (e.PutChunk? && e.id == id && e.index == k)
    || (e.Adopt? && id in {e.from, e.into} && CanMove(s, e.from, e.into))
  }

  predicate LeavesChunk(states: seq<System>, events: seq<Event>, m: nat, id: Id, k: nat)
    requires m < |events| && |states| == |events| + 1
  {
    !TouchesChunk(states[m], events[m], id, k)
  }

  predicate HasText(s: System, id: Id, k: nat, text: string) {
    Has(s, id) && k < |s.originals[id].chunks| && s.originals[id].chunks[k] == text
  }

  lemma GivingAChunk(w: World, s: System, e: Event, id: Id, k: nat, text: string)
    requires Inv(w, s) && Enabled(s, e) && GivesChunk(s, e, id, k, text)
    ensures HasText(Step(w, s, e), id, k, text)
  {
    if e.PutChunk? {
      assert FitsAt(w, s, id);
    }
  }

  lemma OthersKeepChunk(w: World, s: System, e: Event, id: Id, k: nat, text: string)
    requires Ideal(w.aead) && Inv(w, s) && Enabled(s, e) && HasText(s, id, k, text) && !TouchesChunk(s, e, id, k)
    ensures HasText(Step(w, s, e), id, k, text)
  {
    if e.Rotate? {
      RotateSucceeds(w, s, e.onto, e.nonces);
    }
  }

  lemma ChunkGoesOn(w: World, states: seq<System>, events: seq<Event>, m: nat, id: Id, k: nat, text: string)
    requires Run(w, states, events) && m < |events|
    ensures GivesChunk(states[m], events[m], id, k, text) ==> HasText(states[m + 1], id, k, text)
    ensures HasText(states[m], id, k, text) && LeavesChunk(states, events, m, id, k) ==>
              HasText(states[m + 1], id, k, text)
  {
    Reachable(w, states, events, m);
    assert Takes(w, states[m], events[m], states[m + 1]);
    if GivesChunk(states[m], events[m], id, k, text) {
      GivingAChunk(w, states[m], events[m], id, k, text);
    } else if HasText(states[m], id, k, text) && !TouchesChunk(states[m], events[m], id, k) {
      OthersKeepChunk(w, states[m], events[m], id, k, text);
    }
  }

  lemma {:induction false} ChunkIsKept(w: World, states: seq<System>, events: seq<Event>, i: nat, j: nat, id: Id,
        k: nat, text: string)
    requires Run(w, states, events) && i < j < |states| && GivesChunk(states[i], events[i], id, k, text)
    requires forall m :: i < m < j ==> LeavesChunk(states, events, m, id, k)
    ensures HasText(states[j], id, k, text)
  {
    ChunkGoesOn(w, states, events, j - 1, id, k, text);
    if i + 1 < j {
      ChunkIsKept(w, states, events, i, j - 1, id, k, text);
    }
  }

  /**
   So does every chunk that is given a text and then left where it is, in runs in which no adoption takes an
   envelope along; and its vector is that of the text, or waits to be repaired.
   */
  lemma ChunkReadsAsLastGiven(w: World, states: seq<System>, events: seq<Event>, i: nat, j: nat, id: Id, k: nat,
        text: string)
    requires Run(w, states, events) && i < j < |states| && GivesChunk(states[i], events[i], id, k, text)
    requires forall m :: i < m < j ==> LeavesChunk(states, events, m, id, k)
    requires IsCareful(states, events) && AllAtHome(w, states[0])
    ensures Has(states[j], id) && k < |states[j].store.memories[id].chunks|
    ensures var m, c := states[j].store.memories[id], states[j].store.memories[id].chunks[k];
            && ReadBack(w, states[j].store, id, c.content)
            == (if WearsPrefix(c.content) && m.key.Some? && m.key.value.wrapped.None? then Shredded else Plain(text))
            && (c.vector == Some(w.tsv(text))
                || (WearsPrefix(c.content) && (c.vector.None? || "enc" in c.vector.value)))
  {
    ChunkIsKept(w, states, events, i, j, id, k, text);
    CarefulRunsReadFaithfully(w, states, events, j, id);
    ChunkOfFaithful(w, states[j], id, k);
  }

  lemma ChunkOfFaithful(w: World, s: System, id: Id, k: nat)
    requires Has(s, id) && ReadsFaithfully(w, s, id) && k < |s.originals[id].chunks|
    ensures k < |s.store.memories[id].chunks|
    ensures var c, text := s.store.memories[id].chunks[k], s.originals[id].chunks[k];
            && ReadsAs(w, s, id, c.content, text)
            && (c.vector == Some(w.tsv(text)) || (IsEncrypted(c.content) && NeedsRepair(c.vector)))
  {
  }
}
