/**
 The whole store over any run: plaintext writes, chunks that a new version of a memory adopts from an
 earlier one, encryption one memory at a time and stopped anywhere, rotation, shredding, purging, and
 the reindexing of 0034, in any order.
 */
module EncryptedRuns {
  import opened Options
  import opened Encodings
  import opened Aead
  import opened Cipher
  import opened EncryptedStore
  import opened EncryptedMemory

  /** The store, with the history that its meaning refers to. */
  datatype System = System(store: Store, originals: map<Id, Original>, written: set<Written>, issued: set<Bytes>)

  datatype Event =
    | Put(id: Id, original: Original)
    | PutContent(id: Id, text: string)
    | PutChunk(id: Id, index: nat, text: string)
    | Drop(id: Id)
    | Adopt(from: Id, into: Id, text: string)
    | EncryptOne(id: Id, draws: Draws)
    | Rotate(onto: Bytes, nonces: Id -> Nonce)
    | Destroy(id: Id, at: int)
    | Purge(id: Id)
    | Reindex

  predicate PlainOriginal(o: Original) {
    && (o.content.Some? ==> !IsEncrypted(o.content.value))
    && forall i :: 0 <= i < |o.chunks| ==> !IsEncrypted(o.chunks[i])
  }

  /** Nobody writes plaintext that wears the prefix, and a fresh data key was never drawn before. */
  predicate Enabled(s: System, e: Event) {
    match e
    case Put(_, original) => PlainOriginal(original)
    case PutContent(_, text) => !IsEncrypted(text)
    case PutChunk(_, _, text) => !IsEncrypted(text)
    case Adopt(_, _, text) => !IsEncrypted(text)
    case EncryptOne(_, draws) => draws.key !in s.issued
    case _ => true
  }

  /** A memory as the pipeline writes it: every chunk through the trigger, the key row untouched. */
  function Stored(w: World, o: Original, key: Option<KeyRow>): Memory {
    Memory(o.content,
           seq(|o.chunks|, i requires 0 <= i < |o.chunks| => Chunk(o.chunks[i], SetSearchVector(w, o.chunks[i], None))),
           key)
  }

  /**
   `_adopt_from_previous_version` finds chunks to move, and the unique on memory and ordinal lets them
   in. What the chunks contain is not looked at.
   */
  predicate Adopts(s: Store, from: Id, into: Id) {
    && from in s.memories && into in s.memories && from != into
    && s.memories[from].chunks != [] && s.memories[into].chunks == []
  }

  function Adopted(s: System, from: Id, into: Id, text: string): System
    requires Adopts(s.store, from, into) && from in s.originals && into in s.originals
  {
    var m, m', o, o' := s.store.memories[from], s.store.memories[into], s.originals[from], s.originals[into];
    s.(store := s.store.(memories := s.store.memories[from := m.(chunks := [])]
                                                     [into := m'.(content := Some(text), chunks := m.chunks)]),
       originals := s.originals[from := o.(chunks := [])][into := o'.(content := Some(text), chunks := o.chunks)])
  }

  function RowOf(s: Store, id: Id): Option<KeyRow> {
    if id in s.memories then s.memories[id].key else None
  }

  function Encrypted(w: World, s: System, id: Id, d: Draws): System {
    if id !in s.store.memories || s.store.memories[id].content.None? then s
    else
      var m := s.store.memories[id];
      match EncryptMemory(w, s.store.master, id, m, d)
      case Aborted(_) => s
      case Done(m', _) =>
        System(s.store.(memories := s.store.memories[id := m']), s.originals,
               s.written + Sealings(id, m, EncryptionKey(w, s.store.master, id, m, d), d), s.issued + {d.key})
  }

  function Step(w: World, s: System, e: Event): System {
    match e
    case Put(id, o) =>
      s.(store := s.store.(memories := s.store.memories[id := Stored(w, o, RowOf(s.store, id))]),
         originals := s.originals[id := o])
    case PutContent(id, text) =>
      if id !in s.store.memories || id !in s.originals then s
      else
        s.(store := s.store.(memories := s.store.memories[id := s.store.memories[id].(content := Some(text))]),
           originals := s.originals[id := s.originals[id].(content := Some(text))])
    case PutChunk(id, i, text) =>
      if id !in s.store.memories || id !in s.originals then s
      else if i >= |s.store.memories[id].chunks| || i >= |s.originals[id].chunks| then s
      else
        var m, o := s.store.memories[id], s.originals[id];
        s.(store := s.store.(memories := s.store.memories[id :=
             m.(chunks := m.chunks[i := Chunk(text, SetSearchVector(w, text, m.chunks[i].vector))])]),
           originals := s.originals[id := o.(chunks := o.chunks[i := text])])
    case Drop(id) =>
      if id !in s.store.memories || id !in s.originals then s
      else
        s.(store := s.store.(memories := s.store.memories[id := s.store.memories[id].(chunks := [])]),
           originals := s.originals[id := s.originals[id].(chunks := [])])
    case Adopt(from, into, text) =>
      if Adopts(s.store, from, into) && from in s.originals && into in s.originals then Adopted(s, from, into, text)
      else s
    case EncryptOne(id, d) => Encrypted(w, s, id, d)
    case Rotate(onto, nonces) =>
      (match Rotated(w, s.store, onto, nonces)
       case None => s
       case Some(store) => s.(store := store))
    case Destroy(id, at) =>
      if id !in s.store.memories then s
      else s.(store := s.store.(memories := s.store.memories[id := Destroyed(s.store.memories[id], at)]))
    case Purge(id) =>
      s.(store := s.store.(memories := s.store.memories - {id}), originals := s.originals - {id})
    case Reindex =>
      s.(store := s.store.(memories := map id | id in s.store.memories :: Reindexed(w, s.store.memories[id])))
  }

  // ---------------------------------------------------------------------------------------
  // Invariant
  // ---------------------------------------------------------------------------------------

  ghost predicate FitsAt(w: World, s: System, id: Id)
    requires id in s.store.memories && id in s.originals
  {
    MemoryFits(w, s.store.master, id, s.store.memories[id], s.originals[id], s.written, s.issued)
  }

  ghost predicate Inv(w: World, s: System) {
    && s.store.memories.Keys == s.originals.Keys
    && (forall id :: id in s.store.memories ==> FitsAt(w, s, id))
    && (forall r :: r in s.written ==> r.key in s.issued)
  }

  lemma PutKeeps(w: World, s: System, id: Id, o: Original)
    requires Inv(w, s) && PlainOriginal(o)
    ensures Inv(w, Step(w, s, Put(id, o)))
  {
    var s' := Step(w, s, Put(id, o));
    forall other | other in s'.store.memories ensures FitsAt(w, s', other) {
      assert other != id ==> FitsAt(w, s, other);
      if other == id && id in s.store.memories {
        assert FitsAt(w, s, id);
      }
    }
  }

  lemma PutContentKeeps(w: World, s: System, id: Id, text: string)
    requires Inv(w, s) && !IsEncrypted(text)
    ensures Inv(w, Step(w, s, PutContent(id, text)))
  {
    var s' := Step(w, s, PutContent(id, text));
    forall other | other in s'.store.memories ensures FitsAt(w, s', other) {
      assert FitsAt(w, s, other);
    }
  }

  lemma PutChunkKeeps(w: World, s: System, id: Id, i: nat, text: string)
    requires Inv(w, s) && !IsEncrypted(text)
    ensures Inv(w, Step(w, s, PutChunk(id, i, text)))
  {
    var s' := Step(w, s, PutChunk(id, i, text));
    forall other | other in s'.store.memories ensures FitsAt(w, s', other) {
      assert FitsAt(w, s, other);
    }
  }

  lemma DropKeeps(w: World, s: System, id: Id)
    requires Inv(w, s)
    ensures Inv(w, Step(w, s, Drop(id)))
  {
    var s' := Step(w, s, Drop(id));
    forall other | other in s'.store.memories ensures FitsAt(w, s', other) {
      assert FitsAt(w, s, other);
    }
  }

  lemma AdoptKeeps(w: World, s: System, from: Id, into: Id, text: string)
    requires Inv(w, s) && !IsEncrypted(text)
    ensures Inv(w, Step(w, s, Adopt(from, into, text)))
  {
    var s' := Step(w, s, Adopt(from, into, text));
    forall other | other in s'.store.memories ensures FitsAt(w, s', other) {
      assert FitsAt(w, s, other);
      assert from in s.store.memories ==> FitsAt(w, s, from);
    }
  }

  /** A data key drawn for a memory that has none was never drawn before. */
  predicate IsFresh(s: System, id: Id, d: Draws) {
    id in s.store.memories && s.store.memories[id].key.None? ==> d.key !in s.issued
  }

  lemma EncryptKeeps(w: World, s: System, id: Id, d: Draws)
    requires Ideal(w.aead) && Inv(w, s) && IsFresh(s, id, d)
    ensures Inv(w, Encrypted(w, s, id, d))
  {
    if id in s.store.memories {
      var s' := Encrypted(w, s, id, d);
      assert FitsAt(w, s, id);
      EncryptMemoryKeeps(w, s.store.master, id, s.store.memories[id], s.originals[id], d, s.written, s.issued);
      forall other | other in s'.store.memories ensures FitsAt(w, s', other) {
        assert FitsAt(w, s, other);
        if other != id {
          MemoryKeeps(w, s.store.master, other, s.store.memories[other], s.originals[other],
                      s.written, s.issued, s'.written, s'.issued);
        }
      }
      SealingsAreIssued(w, s, id, d);
    }
  }

  lemma SealingsAreIssued(w: World, s: System, id: Id, d: Draws)
    requires Ideal(w.aead) && Inv(w, s) && IsFresh(s, id, d) && id in s.store.memories
    ensures forall r :: r in Encrypted(w, s, id, d).written ==> r.key in Encrypted(w, s, id, d).issued
  {
    var m := s.store.memories[id];
    assert FitsAt(w, s, id);
    if !IsShredded(m.key) {
      EnsureGivesItsKey(w, s.store.master, id, m, d, s.issued);
    }
  }

  lemma RotateSucceeds(w: World, s: System, onto: Bytes, nonces: Id -> Nonce)
    requires Ideal(w.aead) && Inv(w, s)
    ensures Rotated(w, s.store, onto, nonces).Some?
    ensures forall id :: id in s.store.memories ==>
              Rewrapped(w, s.store.master, onto, id, s.store.memories[id], nonces(id))
              == Some(Rotated(w, s.store, onto, nonces).value.memories[id])
  {
    forall id | id in s.store.memories
      ensures Rewrapped(w, s.store.master, onto, id, s.store.memories[id], nonces(id)).Some?
    {
      assert FitsAt(w, s, id);
      RewrappingKeeps(w, s.store.master, onto, id, s.store.memories[id], s.originals[id], nonces(id), s.written,
        s.issued);
    }
  }

  lemma RotateKeeps(w: World, s: System, onto: Bytes, nonces: Id -> Nonce)
    requires Ideal(w.aead) && Inv(w, s)
    ensures Inv(w, Step(w, s, Rotate(onto, nonces)))
  {
    var s' := Step(w, s, Rotate(onto, nonces));
    RotateSucceeds(w, s, onto, nonces);
    forall id | id in s'.store.memories ensures FitsAt(w, s', id) {
      assert FitsAt(w, s, id);
      RewrappingKeeps(w, s.store.master, onto, id, s.store.memories[id], s.originals[id], nonces(id), s.written,
        s.issued);
    }
  }

  lemma DestroyKeeps(w: World, s: System, id: Id, at: int)
    requires Inv(w, s)
    ensures Inv(w, Step(w, s, Destroy(id, at)))
  {
    var s' := Step(w, s, Destroy(id, at));
    forall other | other in s'.store.memories ensures FitsAt(w, s', other) {
      assert FitsAt(w, s, other);
      if other == id {
        DestroyingKeeps(w, s.store.master, id, s.store.memories[id], s.originals[id], at, s.written, s.issued);
      }
    }
  }

  lemma RemovalsKeep(w: World, s: System, e: Event)
    requires Inv(w, s) && (e.Purge? || e.Reindex?)
    ensures Inv(w, Step(w, s, e))
  {
    var s' := Step(w, s, e);
    forall id | id in s'.store.memories ensures FitsAt(w, s', id) {
      assert FitsAt(w, s, id);
      if e.Reindex? {
        ReindexingKeeps(w, s.store.master, id, s.store.memories[id], s.originals[id], s.written, s.issued);
      }
    }
  }

  /** Every event keeps the invariant. */
  lemma StepKeepsInv(w: World, s: System, e: Event)
    requires Ideal(w.aead) && Inv(w, s) && Enabled(s, e)
    ensures Inv(w, Step(w, s, e))
  {
    match e
    case Put(id, o) => PutKeeps(w, s, id, o);
    case PutContent(id, text) => PutContentKeeps(w, s, id, text);
    case PutChunk(id, i, text) => PutChunkKeeps(w, s, id, i, text);
    case Drop(id) => DropKeeps(w, s, id);
    case Adopt(from, into, text) => AdoptKeeps(w, s, from, into, text);
    case EncryptOne(id, d) => EncryptKeeps(w, s, id, d);
    case Rotate(onto, nonces) => RotateKeeps(w, s, onto, nonces);
    case Destroy(id, at) => DestroyKeeps(w, s, id, at);
    case Purge(_) => RemovalsKeep(w, s, e);
    case Reindex => RemovalsKeep(w, s, e);
  }

  // ---------------------------------------------------------------------------------------
  // Runs
  // ---------------------------------------------------------------------------------------

  ghost predicate Takes(w: World, s: System, e: Event, s': System) {
    Enabled(s, e) && s' == Step(w, s, e)
  }

  /** A run from any state that makes sense, an empty store or a half-encrypted one. */
  ghost predicate Run(w: World, states: seq<System>, events: seq<Event>) {
    && Ideal(w.aead) && |states| == |events| + 1 && Inv(w, states[0])
    && forall i :: 0 <= i < |events| ==> Takes(w, states[i], events[i], states[i + 1])
  }

  lemma {:induction false} Reachable(w: World, states: seq<System>, events: seq<Event>, i: nat)
    requires Run(w, states, events) && i < |states|
    ensures Inv(w, states[i])
  {
    if i > 0 {
      Reachable(w, states, events, i - 1);
      assert Takes(w, states[i - 1], events[i - 1], states[i]);
      StepKeepsInv(w, states[i - 1], events[i - 1]);
    }
  }

  /** What a reader of a memory gets: its texts, except the envelopes of a shredded memory. */
  ghost predicate ReadsFaithfully(w: World, s: System, id: Id)
    requires id in s.store.memories && id in s.originals
  {
    var m, o := s.store.memories[id], s.originals[id];
    && (m.content.Some? <==> o.content.Some?)
    && (m.content.Some? ==> ReadsAs(w, s, id, m.content.value, o.content.value))
    && |m.chunks| == |o.chunks|
    && (forall i :: 0 <= i < |m.chunks| ==> ReadsAs(w, s, id, m.chunks[i].content, o.chunks[i]))
    && (forall i :: 0 <= i < |m.chunks| ==>
          || m.chunks[i].vector == Some(w.tsv(o.chunks[i]))
          || (IsEncrypted(m.chunks[i].content) && NeedsRepair(m.chunks[i].vector)))
  }

  ghost predicate ReadsAs(w: World, s: System, id: Id, stored: string, text: string)
    requires id in s.store.memories
  {
    ReadBack(w, s.store, id, stored)
    == if IsEncrypted(stored) && IsShredded(s.store.memories[id].key) then Shredded else Plain(text)
  }

  /** A memory's chunks are in the memory that their envelopes were sealed for. */
  ghost predicate AtHome(w: World, s: System, id: Id) {
    && id in s.store.memories && id in s.originals
    && IsAtHome(w, s.store.master, id, s.store.memories[id], s.originals[id].chunks, s.written)
  }

  /**
   In every reachable state every search vector is that of its text or visibly waiting for repair, and
   every content reads back as the text that was written, unless the memory was shredded. So does
   every chunk, if and only if it is in the memory its envelope was sealed for.
   */
  lemma RunsReadFaithfully(w: World, states: seq<System>, events: seq<Event>, i: nat, id: Id)
    requires Run(w, states, events) && i < |states| && id in states[i].store.memories
    ensures id in states[i].originals
    ensures var m, o := states[i].store.memories[id], states[i].originals[id];
            && (m.content.Some? <==> o.content.Some?)
            && (m.content.Some? ==> ReadsAs(w, states[i], id, m.content.value, o.content.value))
            && (ReadsFaithfully(w, states[i], id) <==> IsShredded(m.key) || AtHome(w, states[i], id))
  {
    Reachable(w, states, events, i);
    var s := states[i];
    assert FitsAt(w, s, id);
    var m, o := s.store.memories[id], s.originals[id];
    if m.content.Some? {
      CellReads(w, s.store, id, m.content.value, o.content.value, s.written);
    }
    forall k | 0 <= k < |m.chunks| ensures ChunkReadsIff(w, s, id, m, m.chunks[k], o.chunks[k]) {
      FittingChunkReads(w, s, id, m, m.chunks[k], o.chunks[k]);
    }
    if ReadsFaithfully(w, s, id) && !IsShredded(m.key) {
      forall k | 0 <= k < |m.chunks|
        ensures CellFits(w, s.store.master, id, m.key, m.chunks[k].content, o.chunks[k], s.written)
      {
        assert ChunkReadsIff(w, s, id, m, m.chunks[k], o.chunks[k]);
      }
    }
  }

  /** A chunk reads as its text exactly when it is at home, or shredded with its memory. */
  ghost predicate ChunkReadsIff(w: World, s: System, id: Id, m: Memory, c: Chunk, text: string)
    requires id in s.store.memories
  {
    && (c.vector == Some(w.tsv(text)) || (IsEncrypted(c.content) && NeedsRepair(c.vector)))
    && (ReadsAs(w, s, id, c.content, text)
        <==> IsShredded(m.key) || CellFits(w, s.store.master, id, m.key, c.content, text, s.written))
  }

  lemma FittingChunkReads(w: World, s: System, id: Id, m: Memory, c: Chunk, text: string)
    requires Ideal(w.aead) && id in s.store.memories && m == s.store.memories[id]
    requires KeyFits(w, s.store.master, id, m.key, s.issued) && ChunkFits(w, c, text, s.written)
    ensures ChunkReadsIff(w, s, id, m, c, text)
  {
    ChunkReads(w, s.store, id, c.content, text, s.written, s.issued);
    if IsEncrypted(c.content) && !IsShredded(m.key) {
      OpensIff(w, s.store.master, id, m.key, c.content, text, s.written, s.issued);
    }
  }

  // ---------------------------------------------------------------------------------------
  // Adoption
  // ---------------------------------------------------------------------------------------

  /** An adoption that takes an envelope along. */
  predicate MovesAnEnvelope(s: Store, e: Event) {
    e.Adopt? && Adopts(s, e.from, e.into) && !AllPlain(s.memories[e.from].chunks)
  }

  predicate AllPlain(chunks: seq<Chunk>) {
    forall k :: 0 <= k < |chunks| ==> !IsEncrypted(chunks[k].content)
  }

  /** Nothing but such an adoption takes a chunk away from its home. */
  lemma StepKeepsHome(w: World, s: System, e: Event, id: Id)
    requires Ideal(w.aead) && Inv(w, s) && Enabled(s, e) && !MovesAnEnvelope(s.store, e)
    requires id in s.store.memories ==> AtHome(w, s, id)
    ensures id in Step(w, s, e).store.memories ==> AtHome(w, Step(w, s, e), id)
  {
    var s' := Step(w, s, e);
    if id in s.store.memories && id in s'.store.memories {
      assert FitsAt(w, s, id);
      var m, o := s.store.memories[id], s.originals[id];
      match e
      case EncryptOne(other, d) => EncryptKeepsHome(w, s, other, d, id);
      case Rotate(onto, nonces) =>
        RotateSucceeds(w, s, onto, nonces);
        RewrappingKeeps(w, s.store.master, onto, id, m, o, nonces(id), s.written, s.issued);
      case Destroy(_, at) => DestroyingKeeps(w, s.store.master, id, m, o, at, s.written, s.issued);
      case Reindex => ReindexingKeeps(w, s.store.master, id, m, o, s.written, s.issued);
      case Adopt(from, into, text) => AdoptKeepsHome(w, s, from, into, text, id);
      case _ =>
    }
  }

  lemma AdoptKeepsHome(w: World, s: System, from: Id, into: Id, text: string, id: Id)
    requires Ideal(w.aead) && Inv(w, s) && AtHome(w, s, id) && !MovesAnEnvelope(s.store, Adopt(from, into, text))
    ensures AtHome(w, Step(w, s, Adopt(from, into, text)), id)
  {
    if id == into && Adopts(s.store, from, into) {
      AdoptionKeepsHomeIff(w, s, from, into, text);
    }
  }

  lemma EncryptKeepsHome(w: World, s: System, other: Id, d: Draws, id: Id)
    requires Ideal(w.aead) && Inv(w, s) && IsFresh(s, other, d) && AtHome(w, s, id)
    ensures AtHome(w, Encrypted(w, s, other, d), id)
  {
    var m, o := s.store.memories[id], s.originals[id];
    var s' := Encrypted(w, s, other, d);
    assert FitsAt(w, s, id);
    if other == id {
      EncryptMemoryKeeps(w, s.store.master, id, m, o, d, s.written, s.issued);
    } else {
      forall i | 0 <= i < |m.chunks|
        ensures CellFits(w, s.store.master, id, m.key, m.chunks[i].content, o.chunks[i], s'.written)
      {
        CellKeeps(w, s.store.master, id, m.key, m.chunks[i].content, o.chunks[i], s.written, s'.written);
      }
    }
  }

  /**
   Adopted chunks that were at home before are at home exactly when none of them is an envelope.
   */
  lemma AdoptionKeepsHomeIff(w: World, s: System, from: Id, into: Id, text: string)
    requires Ideal(w.aead) && Inv(w, s) && Adopts(s.store, from, into)
    ensures AllPlain(s.store.memories[from].chunks) ==> AtHome(w, Step(w, s, Adopt(from, into, text)), into)
    ensures AtHome(w, s, from) && AtHome(w, Step(w, s, Adopt(from, into, text)), into) ==>
              AllPlain(s.store.memories[from].chunks)
  {
    var m, texts := s.store.memories[from], s.originals[from].chunks;
    var s' := Step(w, s, Adopt(from, into, text));
    assert FitsAt(w, s, from);
    forall k | 0 <= k < |m.chunks| ensures ChunkFits(w, m.chunks[k], texts[k], s.written) {
    }
    if AtHome(w, s, from) && AtHome(w, s', into) {
      forall k | 0 <= k < |m.chunks| ensures !IsEncrypted(m.chunks[k].content) {
        if IsEncrypted(m.chunks[k].content) {
          SealedForOne(w, s.store.master, from, m.key, into, s'.store.memories[into].key, m.chunks[k].content,
                       texts[k], s.written);
        }
      }
    }
    if AllPlain(m.chunks) {
      PlainIsAtHome(w, s.store.master, into, s'.store.memories[into], texts, s.written);
    }
  }

  lemma PlainIsAtHome(w: World, master: Bytes, id: Id, m: Memory, texts: seq<string>, written: set<Written>)
    requires Ideal(w.aead) && AllPlain(m.chunks) && |m.chunks| == |texts|
    requires forall k :: 0 <= k < |m.chunks| ==> ChunkFits(w, m.chunks[k], texts[k], written)
    ensures IsAtHome(w, master, id, m, texts, written)
  {
    forall k | 0 <= k < |m.chunks| ensures CellFits(w, master, id, m.key, m.chunks[k].content, texts[k], written) {
      assert ChunkFits(w, m.chunks[k], texts[k], written);
      if r :| r in written && SealsText(w, m.chunks[k].content, texts[k], r) {
        DecryptEncrypt(w.aead, r.text, r.key, r.id, r.nonce, r.key, r.id);
      }
    }
  }

  /** No envelope is at home in two memories. */
  lemma SealedForOne(w: World, master: Bytes, id: Id, row: Option<KeyRow>, id': Id, row': Option<KeyRow>,
        stored: string, text: string, written: set<Written>)
    requires Ideal(w.aead) && IsEncrypted(stored)
    requires CellFits(w, master, id, row, stored, text, written)
    requires CellFits(w, master, id', row', stored, text, written)
    ensures id == id'
  {
    if stored == text && !IsEncrypted(text) {
      assert false;
    }
    var r :| r in written && SealedAs(w, master, id, row, stored, text, r);
    var r' :| r' in written && SealedAs(w, master, id', row', stored, text, r');
    EnvelopesDiffer(w.aead, r.text, r.key, r.id, r.nonce, r'.text, r'.key, r'.id, r'.nonce);
  }

  /** A run in which no adoption takes an envelope along. */
  predicate IsCareful(states: seq<System>, events: seq<Event>)
    requires |states| == |events| + 1
  {
    forall i :: 0 <= i < |events| ==> !MovesAnEnvelope(states[i].store, events[i])
  }

  ghost predicate AllAtHome(w: World, s: System) {
    forall id :: id in s.store.memories ==> AtHome(w, s, id)
  }

  lemma {:induction false} CarefulRunsStayAtHome(w: World, states: seq<System>, events: seq<Event>, i: nat)
    requires Run(w, states, events) && IsCareful(states, events) && AllAtHome(w, states[0]) && i < |states|
    ensures AllAtHome(w, states[i])
  {
    if i > 0 {
      CarefulRunsStayAtHome(w, states, events, i - 1);
      Reachable(w, states, events, i - 1);
      assert Takes(w, states[i - 1], events[i - 1], states[i]);
      assert !MovesAnEnvelope(states[i - 1].store, events[i - 1]);
      forall id | id in states[i].store.memories ensures AtHome(w, states[i], id) {
        StepKeepsHome(w, states[i - 1], events[i - 1], id);
      }
    }
  }

  /** As long as no adoption takes an envelope along, every text reads back, in every state of the run. */
  lemma CarefulRunsReadFaithfully(w: World, states: seq<System>, events: seq<Event>, i: nat, id: Id)
    requires Run(w, states, events) && IsCareful(states, events) && AllAtHome(w, states[0])
    requires i < |states| && id in states[i].store.memories
    ensures id in states[i].originals && ReadsFaithfully(w, states[i], id)
  {
    CarefulRunsStayAtHome(w, states, events, i);
    RunsReadFaithfully(w, states, events, i, id);
  }

  /**
   After an adoption the moved chunks read as their texts if and only if none of them was encrypted,
   whatever keys the two memories hold.
   */
  lemma AdoptedChunksReadIff(w: World, s: System, from: Id, into: Id, text: string)
    requires Ideal(w.aead) && Inv(w, s) && Adopts(s.store, from, into) && AtHome(w, s, from) && !IsEncrypted(text)
    ensures var s' := Step(w, s, Adopt(from, into, text));
            && into in s'.store.memories && into in s'.originals
            && s'.store.memories[into].chunks == s.store.memories[from].chunks
            && s'.originals[into].chunks == s.originals[from].chunks
            && |s.store.memories[from].chunks| == |s.originals[from].chunks|
            && ((forall k :: 0 <= k < |s.originals[from].chunks| ==>
                   ReadBack(w, s'.store, into, s.store.memories[from].chunks[k].content)
                   == Plain(s.originals[from].chunks[k]))
                <==> AllPlain(s.store.memories[from].chunks))
  {
    var m, texts := s.store.memories[from], s.originals[from].chunks;
    var s' := Step(w, s, Adopt(from, into, text));
    AdoptKeeps(w, s, from, into, text);
    assert FitsAt(w, s, from) && FitsAt(w, s', into);
    forall k | 0 <= k < |m.chunks|
      ensures ReadBack(w, s'.store, into, m.chunks[k].content) == Plain(texts[k]) <==> !IsEncrypted(m.chunks[k].content)
    {
      assert ChunkFits(w, m.chunks[k], texts[k], s.written);
      MovedChunkReads(w, s, from, s', into, m.chunks[k], texts[k]);
    }
  }

  lemma MovedChunkReads(w: World, s: System, from: Id, s': System, into: Id, c: Chunk, text: string)
    requires Ideal(w.aead) && from in s.store.memories && into in s'.store.memories && from != into
    requires s'.store.master == s.store.master && s'.written == s.written && s'.issued == s.issued
    requires KeyFits(w, s'.store.master, into, s'.store.memories[into].key, s'.issued)
    requires ChunkFits(w, c, text, s.written)
    requires CellFits(w, s.store.master, from, s.store.memories[from].key, c.content, text, s.written)
    ensures ReadBack(w, s'.store, into, c.content) == Plain(text) <==> !IsEncrypted(c.content)
  {
    var row := s'.store.memories[into].key;
    ChunkReads(w, s'.store, into, c.content, text, s'.written, s'.issued);
    if IsEncrypted(c.content) && !IsShredded(row) && KeyOpens(w, s'.store.master, into, row, c.content) {
      OpensIff(w, s'.store.master, into, row, c.content, text, s'.written, s'.issued);
      SealedForOne(w, s.store.master, from, s.store.memories[from].key, into, row, c.content, text, s.written);
    }
  }

  // ---------------------------------------------------------------------------------------
  // Rotation
  // ---------------------------------------------------------------------------------------

  /** Rotation always succeeds, changes no content, keeps every read, and retires the old master key. */
  lemma RotationPreservesReads(w: World, s: System, onto: Bytes, nonces: Id -> Nonce, id: Id, stored: string)
    requires Ideal(w.aead) && Inv(w, s) && id in s.store.memories
    ensures var s' := Step(w, s, Rotate(onto, nonces));
            && s'.store.master == onto && s'.store.memories.Keys == s.store.memories.Keys
            && s'.store.memories[id].content == s.store.memories[id].content
            && s'.store.memories[id].chunks == s.store.memories[id].chunks
            && ReadBack(w, s'.store, id, stored) == ReadBack(w, s.store, id, stored)
            && (IsShredded(s.store.memories[id].key) <==> IsShredded(s'.store.memories[id].key))
            && (onto != s.store.master ==> KeyOf(w, s.store.master, id, s'.store.memories[id].key) == None)
  {
    RotateSucceeds(w, s, onto, nonces);
    assert FitsAt(w, s, id);
    RewrappingKeeps(w, s.store.master, onto, id, s.store.memories[id], s.originals[id], nonces(id), s.written,
      s.issued);
  }

  // ---------------------------------------------------------------------------------------
  // Shredding
  // ---------------------------------------------------------------------------------------

  /** The key a memory holds now, if any, is none of `burned`. */
  ghost predicate HoldsNone(w: World, s: System, id: Id, burned: set<Bytes>) {
    && burned <= s.issued
    && (id in s.store.memories ==>
          KeyOf(w, s.store.master, id, s.store.memories[id].key) == None
          || KeyOf(w, s.store.master, id, s.store.memories[id].key).value !in burned)
  }

  lemma StepBringsNothingBack(w: World, s: System, e: Event, id: Id, burned: set<Bytes>)
    requires Ideal(w.aead) && Inv(w, s) && Enabled(s, e) && HoldsNone(w, s, id, burned)
    ensures HoldsNone(w, Step(w, s, e), id, burned)
  {
    if id in s.store.memories {
      assert FitsAt(w, s, id);
      var m, o := s.store.memories[id], s.originals[id];
      if e.EncryptOne? && e.id == id {
        EncryptKeepsTheKey(w, s, id, e.draws);
      }
      if e.Rotate? {
        RotateSucceeds(w, s, e.onto, e.nonces);
        RewrappingKeeps(w, s.store.master, e.onto, id, m, o, e.nonces(id), s.written, s.issued);
      }
    }
  }

  /** Encrypting leaves a memory with the key it had or, if it had no row, with the one just drawn. */
  lemma EncryptKeepsTheKey(w: World, s: System, id: Id, d: Draws)
    requires Ideal(w.aead) && Inv(w, s) && IsFresh(s, id, d) && id in s.store.memories
    ensures id in Encrypted(w, s, id, d).store.memories
    ensures var m, m' := s.store.memories[id], Encrypted(w, s, id, d).store.memories[id];
            m'.key == m.key || (m.key.None? && KeyOf(w, s.store.master, id, m'.key) == Some(d.key))
  {
    assert FitsAt(w, s, id);
    var m := s.store.memories[id];
    if !IsShredded(m.key) {
      EnsureGivesItsKey(w, s.store.master, id, m, d, s.issued);
    }
    EncryptMemoryKeeps(w, s.store.master, id, m, s.originals[id], d, s.written, s.issued);
  }

  function KeysWritten(written: set<Written>, id: Id): set<Bytes> {
    set r | r in written && r.id == id :: r.key
  }

  lemma {:induction false} NothingComesBack(w: World, states: seq<System>, events: seq<Event>, i: nat, j: nat, id: Id)
    requires Run(w, states, events) && i < |events| && events[i].Destroy? && events[i].id == id && i < j < |states|
    ensures HoldsNone(w, states[j], id, KeysWritten(states[i].written, id))
  {
    Reachable(w, states, events, j - 1);
    assert Takes(w, states[j - 1], events[j - 1], states[j]);
    if j == i + 1 {
      var s := states[i];
      if id in s.store.memories {
        assert FitsAt(w, s, id);
        DestroyingKeeps(w, s.store.master, id, s.store.memories[id], s.originals[id], events[i].at, s.written,
          s.issued);
      }
    } else {
      NothingComesBack(w, states, events, i, j - 1, id);
      StepBringsNothingBack(w, states[j - 1], events[j - 1], id, KeysWritten(states[i].written, id));
    }
  }

  /**
   Shredding is for ever. After `Destroy(id)`, no later run of any steps, a fresh key for the same
   id included, lets any envelope written for that memory before be read through any row of the
   key table.
   */
  lemma ShreddingIsForever(w: World, states: seq<System>, events: seq<Event>, i: nat, j: nat, r: Written, through: Id)
    requires Run(w, states, events) && i < |events| && events[i].Destroy? && i < j < |states|
    requires r in states[i].written && r.id == events[i].id
    ensures !ReadBack(w, states[j].store, through, Envelope(w, r)).Plain?
  {
    NothingComesBack(w, states, events, i, j, r.id);
    var s := states[j];
    assert r.key in KeysWritten(states[i].written, r.id);
    DecryptEncrypt(w.aead, r.text, r.key, r.id, r.nonce, r.key, r.id);
    if through in s.store.memories && KeyOf(w, s.store.master, through, s.store.memories[through].key).Some? {
      DecryptEncrypt(w.aead, r.text, r.key, r.id, r.nonce,
        KeyOf(w, s.store.master, through, s.store.memories[through].key).value, through);
    }
  }

  /**
   An adopted envelope is shredded with the memory it was sealed for, not with the one it is in: once
   the adopter's key is destroyed, it still opens through the row of its former memory, if and only if
   that one was not destroyed.
   */
  lemma ShreddingTheAdopterIff(w: World, s: System, from: Id, into: Id, text: string, at: int, k: nat)
    requires Ideal(w.aead) && Inv(w, s) && Adopts(s.store, from, into) && AtHome(w, s, from) && !IsEncrypted(text)
    requires k < |s.store.memories[from].chunks| && IsEncrypted(s.store.memories[from].chunks[k].content)
    ensures var s' := Step(w, Step(w, s, Adopt(from, into, text)), Destroy(into, at));
            && into in s'.store.memories && s'.store.memories[into].chunks == s.store.memories[from].chunks
            && k < |s.originals[from].chunks|
            && var read := ReadBack(w, s'.store, from, s'.store.memories[into].chunks[k].content);
               (read == Plain(s.originals[from].chunks[k]) <==> !IsShredded(s.store.memories[from].key))
  {
    var c, o := s.store.memories[from].chunks[k].content, s.originals[from].chunks[k];
    var s' := Step(w, Step(w, s, Adopt(from, into, text)), Destroy(into, at));
    assert s'.store.memories[from].key == s.store.memories[from].key;
    CellReads(w, s'.store, from, c, o, s.written);
  }
}
