/**
 The tables as the code changes them: the trigger of 0034 on each write of a chunk, the rows of
 `memory_keys`, one memory encrypted in a transaction, every key re-wrapped, and the whole pass.
 Each method is one step of `EncryptedRuns`, so what every run keeps, it keeps.
 */
module KeyVault {
  import opened Options
  import opened Encodings
  import opened Aead
  import opened Cipher
  import opened EncryptedStore
  import opened EncryptedMemory
  import opened EncryptedRuns
  import opened EncryptExisting

  /** What `encrypt_memory` returns, or raises after its transaction is rolled back. */
  datatype Outcome = Returned(changed: bool) | Raised(why: Abort)

  class Vault {
    const world: World
    var master: Bytes
    var memories: map<Id, Memory>

    ghost var originals: map<Id, Original>
    ghost var written: set<Written>
    ghost var issued: set<Bytes>

    ghost function Now(): System
      reads this
    {
      System(Store(master, memories), originals, written, issued)
    }

    ghost predicate Valid()
      reads this
    {
      Ideal(world.aead) && Inv(world, Now())
    }

    constructor (w: World, key: Bytes)
      requires Ideal(w.aead)
      ensures Valid() && world == w && master == key && memories == map[]
    {
      world, master, memories := w, key, map[];
      originals, written, issued := map[], {}, {};
    }

    /** `UPDATE memory_chunks SET content`, through the BEFORE trigger. */
    method WriteChunk(id: Id, i: nat, text: string)
      requires Valid() && id in memories && i < |memories[id].chunks| && !IsEncrypted(text)
      modifies this
      ensures Valid() && Now() == Step(world, old(Now()), PutChunk(id, i, text))
    {
      ghost var was := Now();
      assert FitsAt(world, was, id);
      PutChunkKeeps(world, was, id, i, text);

      var chunk := memories[id].chunks[i].(content := text);
      if !IsEncrypted(chunk.content) {
        chunk := chunk.(vector := Some(world.tsv(chunk.content)));
      }
      memories := memories[id := memories[id].(chunks := memories[id].chunks[i := chunk])];
      originals := originals[id := originals[id].(chunks := originals[id].chunks[i := text])];
    }

    /**
     `_adopt_from_previous_version`, once it has found an earlier version with the same text: the chunk rows
     change their memory, and the new version is given the text. None when there is nothing to move;
     False when the unique on memory and ordinal refuses, and the transaction is rolled back.
     */
    method AdoptChunks(from: Id, into: Id, text: string) returns (moved: Option<bool>)
      requires Valid() && from in memories && into in memories && from != into && !IsEncrypted(text)
      modifies this
      ensures Valid() && Now() == Step(world, old(Now()), Adopt(from, into, text))
      ensures moved == Some(true) <==> Adopts(old(Now()).store, from, into)
      ensures moved == None <==> old(memories)[from].chunks == []
    {
      ghost var was := Now();
      AdoptKeeps(world, was, from, into, text);
      var rows := memories[from].chunks;
      if rows == [] {
        return None;
      }
      if memories[into].chunks != [] {
        return Some(false);
      }
      memories := memories[from := memories[from].(chunks := [])];
      memories := memories[into := memories[into].(content := Some(text), chunks := rows)];
      var texts := originals[from].chunks;
      originals := originals[from := originals[from].(chunks := [])];
      originals := originals[into := originals[into].(content := Some(text), chunks := texts)];
      moved := Some(true);
    }

    /** `KeyStore.destroy`. False when there was no key to destroy. */
    method DestroyKey(id: Id, at: int) returns (destroyed: bool)
      requires Valid()
      modifies this`memories
      ensures Valid() && Now() == Step(world, old(Now()), Destroy(id, at))
      ensures destroyed <==> id in old(memories) && old(memories)[id].key.Some? && !IsShredded(old(memories)[id].key)
    {
      ghost var was := Now();
      DestroyKeeps(world, was, id, at);
      destroyed := false;
      if id in memories {
        var m := memories[id];
        if m.key.Some? && m.key.value.wrapped.Some? {
          m := m.(key := Some(m.key.value.(wrapped := None, destroyedAt := Some(at))));
          destroyed := true;
        }
        memories := memories[id := m];
        assert FitsAt(world, was, id);
      }
    }

    /** `KeyStore.ensure`. */
    method EnsureKey(id: Id, row: Option<KeyRow>, newKey: Bytes, nonce: Nonce) returns (e: Ensured)
      ensures e == Ensure(world, master, id, row, newKey, nonce)
    {
      if row.Some? {
        if row.value.wrapped.None? {
          return NoKey(KeyDestroyed);
        }
        var key := Unwrap(world.aead, master, row.value.wrapped.value, id);
        return if key.Some? then HasKey(key.value, row.value) else NoKey(Undecryptable);
      }
      e := HasKey(newKey, KeyRow(Some(Wrap(world.aead, master, newKey, id, nonce)), None));
    }

    /** The loop of `encrypt_memory` over a memory's chunks. None when one of them does not decrypt. */
    method EncryptRows(key: Bytes, id: Id, rows: seq<Chunk>, d: Draws) returns (done: Option<seq<Chunk>>, changed: bool)
      ensures done == EncryptChunks(world, key, id, rows, d, |rows|)
      ensures done.Some? ==> (changed <==> SomeUndone(rows, |rows|))
    {
      var chunks: seq<Chunk> := [];
      changed := false;
      for n := 0 to |rows|
        invariant EncryptChunks(world, key, id, rows, d, n) == Some(chunks)
        invariant changed <==> SomeUndone(rows, n)
      {
        OneMoreChunk(world, key, id, rows, d, n);
        OneMoreUndone(rows, n);
        var chunk, touched := EncryptRow(key, id, rows[n], d.chunkNonces(n));
        if chunk.None? {
          StaysUndecryptable(world, key, id, rows, d, n + 1, |rows|);
          return None, changed;
        }
        chunks := chunks + [chunk.value];
        changed := changed || touched;
      }
      done := Some(chunks);
    }

    /** The body of that loop. None when the chunk does not decrypt. */
    method EncryptRow(key: Bytes, id: Id, row: Chunk, nonce: Nonce) returns (chunk: Option<Chunk>, changed: bool)
      ensures chunk == EncryptChunk(world, key, id, row, nonce)
      ensures changed <==> !ChunkIsDone(row)
    {
      if IsEncrypted(row.content) {
        if !NeedsRepair(row.vector) {
          return Some(row), false;
        }
        var plain := Decrypt(world.aead, row.content, key, id);
        if !plain.Text? {
          return None, true;
        }
        return Some(row.(vector := Some(world.tsv(plain.text)))), true;
      }
      var indexed := row.(vector := Some(world.tsv(row.content)));
      chunk, changed := Some(indexed.(content := Encrypt(world.aead, row.content, key, id, nonce))), true;
    }

    /** The work of `encrypt_memory` on a memory it found, before anything is flushed. */
    method EncryptFound(id: Id, m: Memory, d: Draws) returns (a: Attempt)
      ensures a == EncryptMemory(world, master, id, m, d)
    {
      if m.content.None? {
        return Done(m, false);
      }
      var e := EnsureKey(id, m.key, d.key, d.keyNonce);
      if e.NoKey? {
        return Aborted(e.why);
      }
      var content, changed := m.content.value, false;
      if !IsEncrypted(content) {
        content, changed := Encrypt(world.aead, content, e.key, id, d.contentNonce), true;
      }
      var chunks, changedRow := EncryptRows(e.key, id, m.chunks, d);
      if chunks.None? {
        return Aborted(Undecryptable);
      }
      a := Done(Memory(Some(content), chunks.value, Some(e.row)), changed || changedRow);
    }

    /** `encrypt_memory` in its own transaction: the rows change at the end or not at all. */
    method EncryptOneMemory(id: Id, d: Draws) returns (r: Outcome)
      modifies this
      ensures Now() == Encrypted(world, old(Now()), id, d)
      ensures r == Tells(world, old(Now()).store, id, d)
    {
      if id !in memories {
        return Returned(false);
      }
      var m := memories[id];
      var a := EncryptFound(id, m, d);
      if a.Aborted? {
        return Raised(a.why);
      }
      if m.content.Some? {
        written := written + Sealings(id, m, EncryptionKey(world, master, id, m, d), d);
        issued := issued + {d.key};
        memories := memories[id := a.memory];
      }
      r := Returned(a.changed);
    }

    /** `encrypt-existing`: one transaction per memory; an exception ends the command. */
    method EncryptEverything(ids: seq<Id>, draws: seq<Draws>) returns (stopped: Option<Abort>, done: nat, skipped: nat)
      requires Valid() && |ids| == |draws| && FreshDraws(Now(), draws)
      modifies this
      ensures Valid()
      ensures Pass(Now(), stopped, done, skipped) == PassOver(world, old(Now()), ids, draws, |ids|)
    {
      ghost var was := Now();
      PassKeepsInv(world, was, ids, draws, |ids|);
      stopped, done, skipped := None, 0, 0;
      for n := 0 to |ids|
        invariant Pass(Now(), None, done, skipped) == PassOver(world, was, ids, draws, n) && stopped.None?
      {
        PassAdvances(world, was, ids, draws, n);
        if PassOver(world, was, ids, draws, n + 1).stopped.Some? {
          StopsForGood(world, was, ids, draws, n + 1, |ids|);
        }
        var r := EncryptOneMemory(ids[n], draws[n]);
        if r.Raised? {
          return Some(r.why), done, skipped;
        }
        if r.changed {
          done := done + 1;
        } else {
          skipped := skipped + 1;
        }
      }
    }

    /** One row of `rotate_master_key`: skipped when destroyed, re-wrapped otherwise. */
    method RewrapRow(id: Id, m: Memory, onto: Bytes, nonce: Nonce) returns (m': Memory)
      requires m.key.Some? && Rewrapped(world, master, onto, id, m, nonce).Some?
      ensures Rewrapped(world, master, onto, id, m, nonce) == Some(m')
      ensures m'.key.Some? && (IsShredded(m'.key) <==> IsShredded(m.key))
    {
      m' := m;
      var row := m.key.value;
      if row.wrapped.Some? {
        var key := Unwrap(world.aead, master, row.wrapped.value, id).value;
        m' := m.(key := Some(row.(wrapped := Some(Wrap(world.aead, onto, key, id, nonce)))));
      }
    }

    /** The loop of `rotate_master_key`, on the rows as they were read. */
    method RewrapRows(onto: Bytes, nonces: Id -> Nonce) returns (rows: map<Id, Memory>, rewrapped: nat, skipped: nat)
      requires Rotated(world, Store(master, memories), onto, nonces).Some?
      ensures Rotated(world, Store(master, memories), onto, nonces) == Some(Store(onto, rows))
      ensures rewrapped + skipped == |RowIds(memories)| && skipped == |ShreddedIds(memories)|
    {
      ghost var rotated, shredded := Rotated(world, Store(master, memories), onto,
        nonces).value.memories, ShreddedIds(memories);
      var todo := RowIds(memories);
      rows, rewrapped, skipped := memories, 0, 0;
      assert HalfRotated(memories, rotated, todo, rows) by {
        UntouchedRows(world, Store(master, memories), onto, nonces);
      }
      assert shredded - todo == {};
      while todo != {}
        invariant todo <= RowIds(memories) && HalfRotated(memories, rotated, todo, rows)
        invariant rewrapped + skipped + |todo| == |RowIds(memories)| && skipped == |shredded - todo|
        decreases |todo|
      {
        var id :| id in todo;
        RotatedRow(world, Store(master, memories), onto, nonces, id);
        OneTaken(shredded, todo, id);
        var m := RewrapRow(id, rows[id], onto, nonces(id));
        if m.key.value.wrapped.None? {
          skipped := skipped + 1;
        } else {
          rewrapped := rewrapped + 1;
        }
        RowTaken(memories, rotated, todo, rows, id);
        rows := rows[id := m];
        todo := todo - {id};
      }
      NoneLeft(memories, rotated, shredded, todo, rows);
    }

    /** `rotate_master_key`, and the switch to the new master key that the command asks for. */
    method RotateMasterKey(onto: Bytes, nonces: Id -> Nonce) returns (rewrapped: nat, skipped: nat)
      requires Valid()
      modifies this`master, this`memories
      ensures Valid() && Now() == Step(world, old(Now()), Rotate(onto, nonces)) && master == onto
      ensures rewrapped + skipped == |RowIds(old(memories))| && skipped == |ShreddedIds(old(memories))|
    {
      RotateSucceeds(world, Now(), onto, nonces);
      RotateKeeps(world, Now(), onto, nonces);
      var rows;
      rows, rewrapped, skipped := RewrapRows(onto, nonces);
      master, memories := onto, rows;
    }
  }

  /** What `encrypt_memory` comes to for a caller. */
  function Tells(w: World, s: Store, id: Id, d: Draws): Outcome {
    if id !in s.memories then Returned(false)
    else
      match Try(w, s, id, d)
      case Done(_, changed) => Returned(changed)
      case Aborted(why) => Raised(why)
  }

  lemma PassAdvances(w: World, s: System, ids: seq<Id>, draws: seq<Draws>, n: nat)
    requires n < |ids| == |draws| && PassOver(w, s, ids, draws, n).stopped.None?
    ensures var p := PassOver(w, s, ids, draws, n);
            var r := Tells(w, p.s.store, ids[n], draws[n]);
            PassOver(w, s, ids, draws, n + 1)
            == if r.Raised? then Pass(p.s, Some(r.why), p.changed, p.idle)
               else Pass(Encrypted(w, p.s, ids[n], draws[n]), None,
                         if r.changed then p.changed + 1 else p.changed, if r.changed then p.idle else p.idle + 1)
    ensures var p := PassOver(w, s, ids, draws, n);
            var r := Tells(w, p.s.store, ids[n], draws[n]);
            r.Raised? ==> Encrypted(w, p.s, ids[n], draws[n]) == p.s
  {
  }

  function ShreddedIds(memories: map<Id, Memory>): set<Id> {
    set id | id in memories && IsShredded(memories[id].key)
  }

  /** The memories that have a row in `memory_keys`. */
  function RowIds(memories: map<Id, Memory>): set<Id> {
    set id | id in memories && memories[id].key.Some?
  }

  /** The rows of `todo` are as they were, the others as they will be. */
  predicate HalfRotated(before: map<Id, Memory>, after: map<Id, Memory>, todo: set<Id>, rows: map<Id, Memory>) {
    && before.Keys == after.Keys == rows.Keys
    && forall id :: id in rows ==> rows[id] == if id in todo then before[id] else after[id]
  }

  lemma {:induction false} NoneLeft(before: map<Id, Memory>, after: map<Id, Memory>, shredded: set<Id>, todo: set<Id>,
        rows: map<Id, Memory>)
    requires HalfRotated(before, after, todo, rows) && todo == {}
    ensures rows == after && shredded - todo == shredded
  {
  }

  lemma RotatedRow(w: World, s: Store, onto: Bytes, nonces: Id -> Nonce, id: Id)
    requires Rotated(w, s, onto, nonces).Some? && id in s.memories
    ensures id in Rotated(w, s, onto, nonces).value.memories
    ensures Rewrapped(w, s.master, onto, id, s.memories[id], nonces(id))
         == Some(Rotated(w, s, onto, nonces).value.memories[id])
  {
    assert Rewrapped(w, s.master, onto, id, s.memories[id], nonces(id)).Some?;
  }

  lemma UntouchedRows(w: World, s: Store, onto: Bytes, nonces: Id -> Nonce)
    requires Rotated(w, s, onto, nonces).Some?
    ensures HalfRotated(s.memories, Rotated(w, s, onto, nonces).value.memories, RowIds(s.memories), s.memories)
  {
    var after := Rotated(w, s, onto, nonces).value.memories;
    assert after.Keys == s.memories.Keys;
    forall id | id in s.memories && id !in RowIds(s.memories) ensures s.memories[id] == after[id] {
      RotatedRow(w, s, onto, nonces, id);
    }
  }

  lemma RowTaken(before: map<Id, Memory>, after: map<Id, Memory>, todo: set<Id>, rows: map<Id, Memory>, id: Id)
    requires HalfRotated(before, after, todo, rows) && id in todo && id in rows
    ensures HalfRotated(before, after, todo - {id}, rows[id := after[id]])
  {
    assert rows[id := after[id]].Keys == rows.Keys;
  }

  lemma {:induction false} OneTaken(some: set<Id>, todo: set<Id>, id: Id)
    requires id in todo
    ensures |todo - {id}| == |todo| - 1
    ensures |some - (todo - {id})| == |some - todo| + (if id in some then 1 else 0)
  {
    assert some - (todo - {id}) == if id in some then (some - todo) + {id} else some - todo;
  }

  predicate SomeUndone(rows: seq<Chunk>, n: nat)
    requires n <= |rows|
  {
    exists i :: 0 <= i < n && !ChunkIsDone(rows[i])
  }

  lemma {:induction false} OneMoreUndone(rows: seq<Chunk>, n: nat)
    requires n < |rows|
    ensures SomeUndone(rows, n + 1) <==> SomeUndone(rows, n) || !ChunkIsDone(rows[n])
  {
  }

  lemma {:induction false} OneMoreChunk(w: World, key: Bytes, id: Id, rows: seq<Chunk>, d: Draws, n: nat)
    requires n < |rows| && EncryptChunks(w, key, id, rows, d, n).Some?
    ensures EncryptChunks(w, key, id, rows, d, n + 1)
         == match EncryptChunk(w, key, id, rows[n], d.chunkNonces(n))
            case None => None
            case Some(c) => Some(EncryptChunks(w, key, id, rows, d, n).value + [c])
  {
  }

  lemma {:induction false} StaysUndecryptable(w: World, key: Bytes, id: Id, chunks: seq<Chunk>, d: Draws, n: nat,
        m: nat)
    requires n <= m <= |chunks| && EncryptChunks(w, key, id, chunks, d, n).None?
    ensures EncryptChunks(w, key, id, chunks, d, m).None?
  {
    if n < m {
      StaysUndecryptable(w, key, id, chunks, d, n, m - 1);
    }
  }

  lemma {:induction false} StopsForGood(w: World, s: System, ids: seq<Id>, draws: seq<Draws>, n: nat, m: nat)
    requires n <= m <= |ids| == |draws| && PassOver(w, s, ids, draws, n).stopped.Some?
    ensures PassOver(w, s, ids, draws, m) == PassOver(w, s, ids, draws, n)
  {
    if n < m {
      StopsForGood(w, s, ids, draws, n, m - 1);
    }
  }
}
