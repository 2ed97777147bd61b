/**
 Stores that can come about and that `encrypt-existing` does not treat as its description says, for
 any ideal AEAD; and the condition under which the master key can be rotated again.
 */
module EncryptedExamples {
  import opened Options
  import opened Encodings
  import opened Aead
  import opened Cipher
  import opened EncryptedStore
  import opened EncryptedMemory
  import opened EncryptedRuns
  import opened EncryptExisting

  const NONCE: Nonce := [0, 0, 0, 0, 0, 0, 0, 0, 0, 0, 0, 0]

  function SomeDraws(): Draws {
    Draws([1], NONCE, NONCE, (n: nat) => NONCE)
  }

  function EmptyStore(master: Bytes): System {
    System(Store(master, map[]), map[], {}, {})
  }

  lemma Extend(w: World, states: seq<System>, events: seq<Event>, e: Event)
    returns (states': seq<System>, events': seq<Event>)
    requires Run(w, states, events) && Enabled(states[|events|], e)
    ensures states' == states + [Step(w, states[|events|], e)] && events' == events + [e] && Run(w, states', events')
  {
    states', events' := states + [Step(w, states[|events|], e)], events + [e];
    forall i | 0 <= i < |events'| ensures Takes(w, states'[i], events'[i], states'[i + 1]) {
      assert i < |events| ==> Takes(w, states[i], events[i], states[i + 1]);
    }
  }

  /**
   A memory is written, encrypted and shredded without being purged. From then on every pass that
   lists it ends there, whatever keys it draws.
   */
  lemma {:induction false} ShreddedMemoryStopsThePass(w: World, master: Bytes, id: Id, ids: seq<Id>, draws: seq<Draws>)
    returns (states: seq<System>, events: seq<Event>)
    requires Ideal(w.aead) && |ids| == |draws| && id in ids
    ensures Run(w, states, events) && states[0] == EmptyStore(master)
    ensures FreshDraws(states[|events|], draws) ==>
              PassOver(w, states[|events|], ids, draws, |ids|).stopped == Some(KeyDestroyed)
  {
    states, events := WriteEncryptShred(w, master, id);
    Reachable(w, states, events, |events|);
    if FreshDraws(states[|events|], draws) {
      PassFinishesIff(w, states[|events|], ids, draws);
      BlocksTheList(w, states[|events|].store, ids, id);
    }
  }

  lemma BlocksTheList(w: World, s: Store, ids: seq<Id>, id: Id)
    requires id in ids && s.memories.Keys == {id} && BlockedAt(w, s, id)
    ensures !NoneBlocked(w, s, ids) && ids[FirstBlocked(w, s, ids)] == id
  {
    var k :| 0 <= k < |ids| && ids[k] == id;
    assert BlockedAt(w, s, ids[k]);
    assert FirstBlocked(w, s, ids) == |ids| ==> ids[..|ids|] == ids;
  }

  lemma WriteEncryptShred(w: World, master: Bytes, id: Id) returns (states: seq<System>, events: seq<Event>)
    requires Ideal(w.aead)
    ensures Run(w, states, events) && states[0] == EmptyStore(master)
    ensures states[|events|].store.memories.Keys == {id} && BlockedAt(w, states[|events|].store, id)
    ensures IsShredded(states[|events|].store.memories[id].key)
  {
    assert "hello"[0] == 'h' && PREFIX[0] == 'e';
    states, events := WriteAndEncrypt(w, master, id, Original(Some("hello"), []));
    states, events := Extend(w, states, events, Destroy(id, 0));
    assert states[|events|].store.memories.Keys == {id};
  }

  /** A memory that is written and encrypted, in two steps from the empty store. */
  lemma WriteAndEncrypt(w: World, master: Bytes, id: Id, o: Original) returns (states: seq<System>, events: seq<Event>)
    requires Ideal(w.aead) && PlainOriginal(o) && o.content.Some?
    ensures Run(w, states, events) && states[0] == EmptyStore(master) && AtHome(w, states[|events|], id)
    ensures var s := states[|events|];
            && s.store.memories.Keys == s.originals.Keys == {id} && s.originals[id] == o
            && s.store.memories[id].content.Some? && IsExact(w, s.store.memories[id], o)
            && !BlockedAt(w, s.store, id) && s.store.memories[id].key.Some?
  {
    states, events := [EmptyStore(master)], [];
    states, events := Extend(w, states, events, Put(id, o));
    var s := states[1];
    assert s.store.memories[id] == Stored(w, o, None);
    Reachable(w, states, events, 1);
    OneTransaction(w, s, id, SomeDraws());
    EncryptKeepsHome(w, s, id, SomeDraws(), id);
    states, events := Extend(w, states, events, EncryptOne(id, SomeDraws()));
    KeyIsThere(w, states, events, id);
  }

  lemma KeyIsThere(w: World, states: seq<System>, events: seq<Event>, id: Id)
    requires Run(w, states, events) && id in states[|events|].store.memories
    requires var m := states[|events|].store.memories[id]; m.content.Some? && IsEncrypted(m.content.value)
    ensures states[|events|].store.memories[id].key.Some?
  {
    Reachable(w, states, events, |events|);
    assert FitsAt(w, states[|events|], id);
  }

  /** The chunk of a memory whose content is NULL is in plaintext before the pass and after it. */
  lemma NullContentKeepsItsChunkPlain(w: World, master: Bytes, id: Id, d: Draws) returns (s: System)
    requires Ideal(w.aead)
    ensures Inv(w, s) && s == Step(w, EmptyStore(master), Put(id, Original(None, ["hello"])))
    ensures var p := PassOver(w, s, [id], [d], 1); p.stopped.None? && (id, 1) in PlainCells(p.s.store)
  {
    var o := Original(None, ["hello"]);
    s := Step(w, EmptyStore(master), Put(id, o));
    PutKeeps(w, EmptyStore(master), id, o);
    assert s.store.memories[id].content.None? && IsPlainCell(s.store.memories[id], 1);
    assert (id, 1) in PlainCells(s.store);
    assert PassOver(w, s, [id], [d], 0) == Pass(s, None, 0, 0);
    OneTransaction(w, s, id, d);
  }

  /** A dictionary in which one text has the lexeme that the repair heuristic looks for. */
  function Lexemes(text: string): Vector {
    if text == "the enc file" then ["enc", "file"] else []
  }

  /**
   Under any dictionary that keeps that lexeme, encrypting a memory with such a chunk reports a change
   every time, though only the first time makes one.
   */
  lemma FinishedMemoryReportsAChange(a: Aead, master: Bytes, id: Id) returns (w: World, s: System, d: Draws)
    requires Ideal(a)
    ensures w == World(a, Lexemes) && Inv(w, s) && id in s.store.memories
    ensures IsExact(w, s.store.memories[id], s.originals[id])
    ensures Try(w, s.store, id, d) == Done(s.store.memories[id], true)
  {
    w, d := World(a, Lexemes), SomeDraws();
    var o := Original(Some("hello"), ["the enc file"]);
    assert "the enc file"[0] == 't' && "hello"[0] == 'h' && PREFIX[0] == 'e';
    var states, events := WriteAndEncrypt(w, master, id, o);
    Reachable(w, states, events, |events|);
    s := states[|events|];
    assert FitsAt(w, s, id);
    var m := s.store.memories[id];
    assert s.originals[id] == o && m.key.Some?;
    assert "enc" in w.tsv(o.chunks[0]);
    EncryptingAgainIsIdle(w, s.store.master, id, m, o, d, s.written, s.issued);
  }

  // ---------------------------------------------------------------------------------------
  // A chunk adopted after it was encrypted
  // ---------------------------------------------------------------------------------------

  /** The second has the same text under other bytes, so it adopts the chunk. */
  lemma {:induction false} AdoptEncryptedChunk(w: World, master: Bytes, v1: Id, v2: Id, text: string)
    returns (states: seq<System>, events: seq<Event>)
    requires Ideal(w.aead) && v1 != v2 && !IsEncrypted(text)
    ensures Run(w, states, events) && states[0] == EmptyStore(master)
    ensures var s := states[|events|];
            && s.store.memories.Keys == s.originals.Keys == {v1, v2} && |s.store.memories[v2].chunks| == 1
            && s.store.memories[v2].key == None && s.store.memories[v2].content.Some?
            && IsEncrypted(s.store.memories[v2].chunks[0].content)
            && s.store.memories[v2].chunks[0].vector == Some(w.tsv(text))
            && ReadBack(w, s.store, v2, s.store.memories[v2].chunks[0].content) == Unreadable
            && !IsShredded(s.store.memories[v1].key)
  {
    states, events := WriteAndEncrypt(w, master, v1, Original(Some(text), [text]));
    states, events := Extend(w, states, events, Put(v2, Original(None, [])));
    var s := states[|events|];
    assert s.store.memories[v2] == Stored(w, Original(None, []), None);
    Reachable(w, states, events, |events|);
    states, events := Extend(w, states, events, Adopt(v1, v2, text));
    var s' := states[|events|];
    assert s'.store.memories.Keys == {v1, v2};
  }

  /**
   No memory was ever shredded, yet the chunk of the second version is unreadable, and if its text has
   the lexeme of the repair heuristic, every pass over that version ends there as undecryptable.
   */
  lemma AdoptedChunkStopsThePass(a: Aead, master: Bytes, v1: Id, v2: Id, d: Draws)
    returns (w: World, states: seq<System>, events: seq<Event>)
    requires Ideal(a) && v1 != v2
    ensures w == World(a, Lexemes) && Run(w, states, events) && states[0] == EmptyStore(master)
    ensures var s := states[|events|];
            && v2 in s.store.memories && |s.store.memories[v2].chunks| == 1
            && (forall id :: id in s.store.memories ==> !IsShredded(s.store.memories[id].key))
            && ReadBack(w, s.store, v2, s.store.memories[v2].chunks[0].content) == Unreadable
            && (d.key !in s.issued ==> PassOver(w, s, [v2], [d], 1).stopped == Some(Undecryptable))
  {
    w := World(a, Lexemes);
    assert "the enc file"[0] == 't' && PREFIX[0] == 'e';
    states, events := AdoptEncryptedChunk(w, master, v1, v2, "the enc file");
    var s := states[|events|];
    Reachable(w, states, events, |events|);
    assert "enc" in w.tsv("the enc file");
    assert IsStuck(w, s.store.master, v2, None, s.store.memories[v2].chunks[0]);
    assert BlockedAt(w, s.store, v2);
    if d.key !in s.issued {
      OneTransaction(w, s, v2, d);
      assert PassOver(w, s, [v2], [d], 0) == Pass(s, None, 0, 0);
    }
  }

  // ---------------------------------------------------------------------------------------
  // Rotating again
  // ---------------------------------------------------------------------------------------

  predicate IsLive(m: Memory) {
    m.key.Some? && m.key.value.wrapped.Some?
  }

  /** The live rows are wrapped, each under the master key its writer held. */
  ghost predicate WrappedUnder(w: World, s: Store, masters: map<Id, Bytes>) {
    forall id :: id in s.memories && IsLive(s.memories[id]) ==> id in masters && IsWrapped(w, s, id, masters[id])
  }

  ghost predicate IsWrapped(w: World, s: Store, id: Id, master: Bytes)
    requires id in s.memories && IsLive(s.memories[id])
  {
    exists key, nonce: Nonce :: s.memories[id].key.value.wrapped.value == Wrap(w.aead, master, key, id, nonce)
  }

  /**
   A rotation goes through if and only if no live key was wrapped under another master key than the one
   it rotates from: one row written by a process that still held an old key stops all of it.
   */
  lemma RotationSucceedsIff(w: World, s: Store, masters: map<Id, Bytes>, onto: Bytes, nonces: Id -> Nonce)
    requires Ideal(w.aead) && WrappedUnder(w, s, masters)
    ensures Rotated(w, s, onto, nonces).Some?
       <==> forall id :: id in s.memories && IsLive(s.memories[id]) ==> masters[id] == s.master
  {
    forall id | id in s.memories && IsLive(s.memories[id])
      ensures Rewrapped(w, s.master, onto, id, s.memories[id], nonces(id)).Some? <==> masters[id] == s.master
    {
      assert IsWrapped(w, s, id, masters[id]);
      var key, nonce: Nonce :| s.memories[id].key.value.wrapped.value == Wrap(w.aead, masters[id], key, id, nonce);
      UnwrapWrap(w.aead, masters[id], key, id, nonce, s.master, id);
    }
  }
}
