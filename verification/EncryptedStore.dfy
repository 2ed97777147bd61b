/**
 Memories at rest: content and chunks encrypted in place under a data key per memory, and the
 search vectors a trigger keeps beside them. A memory carries its `memory_keys` row, which the
 foreign key ties to it.
 */
module EncryptedStore {
  import opened Options
  import opened Encodings
  import opened Aead
  import opened Cipher

  /** A tsvector, as the lexemes it lists. */
  type Vector = seq<string>

  /** The two primitives taken as given: the AEAD, and `to_tsvector('english', .)`. */
  datatype World = World(aead: Aead, tsv: string -> Vector)

  datatype Chunk = Chunk(content: string, vector: Option<Vector>)

  datatype KeyRow = KeyRow(wrapped: Option<Bytes>, destroyedAt: Option<int>)

  datatype Memory = Memory(content: Option<string>, chunks: seq<Chunk>, key: Option<KeyRow>)

  /** `master` is the key that the rows of `memory_keys` are wrapped under. */
  datatype Store = Store(master: Bytes, memories: map<Id, Memory>)

  // ---------------------------------------------------------------------------------------
  // Search vectors: migration 0034
  // ---------------------------------------------------------------------------------------

  /** The trigger: derived from plaintext, carried in beside ciphertext. */
  function SetSearchVector(w: World, content: string, carried: Option<Vector>): Option<Vector> {
    if IsEncrypted(content) then carried else Some(w.tsv(content))
  }

  /** The new column: backfilled where the content is still plaintext, NULL elsewhere. */
  function Reindexed(w: World, m: Memory): Memory {
    m.(chunks := seq(|m.chunks|, i requires 0 <= i < |m.chunks| =>
      m.chunks[i].(vector := if IsEncrypted(m.chunks[i].content) then None else Some(w.tsv(m.chunks[i].content)))))
  }

  /** No vector, or one that looks derived from an envelope. */
  predicate NeedsRepair(vector: Option<Vector>) {
    vector.None? || "enc" in vector.value
  }

  // ---------------------------------------------------------------------------------------
  // Keys
  // ---------------------------------------------------------------------------------------

  datatype Abort = KeyDestroyed | Undecryptable

  datatype Ensured = HasKey(key: Bytes, row: KeyRow) | NoKey(why: Abort)

  /** `KeyStore.ensure`: the memory's key, created the first time. */
  function Ensure(w: World, master: Bytes, id: Id, row: Option<KeyRow>, newKey: Bytes, nonce: Nonce): Ensured {
    match row
    case None => HasKey(newKey, KeyRow(Some(Wrap(w.aead, master, newKey, id, nonce)), None))
    case Some(row) =>
      if row.wrapped.None? then NoKey(KeyDestroyed)
      else
        match Unwrap(w.aead, master, row.wrapped.value, id)
        case None => NoKey(Undecryptable)
        case Some(key) => HasKey(key, row)
  }

  /** `KeyStore.destroy`: the row survives without a key in it. */
  function Destroyed(m: Memory, at: int): Memory {
    if m.key.Some? && m.key.value.wrapped.Some? then m.(key := Some(KeyRow(None, Some(at)))) else m
  }

  datatype Reading = Plain(text: string) | Shredded | Unreadable

  /** `decrypt_memory_content`: one stored text read back through the key table. */
  function ReadBack(w: World, s: Store, id: Id, stored: string): Reading {
    if !IsEncrypted(stored) then Plain(stored)
    else if id !in s.memories || s.memories[id].key.None? then Unreadable
    else if s.memories[id].key.value.wrapped.None? then Shredded
    else
      match Unwrap(w.aead, s.master, s.memories[id].key.value.wrapped.value, id)
      case None => Unreadable
      case Some(key) =>
        match Decrypt(w.aead, stored, key, id)
        case Text(text) => Plain(text)
        case _ => Unreadable
  }

  // ---------------------------------------------------------------------------------------
  // Encrypting in place
  // ---------------------------------------------------------------------------------------

  /** The random values one call of `encrypt_memory` may draw. */
  datatype Draws = Draws(key: Bytes, keyNonce: Nonce, contentNonce: Nonce, chunkNonces: nat -> Nonce)

  /** One chunk: encrypted with its vector carried along, repaired, or left alone. */
  function EncryptChunk(w: World, key: Bytes, id: Id, c: Chunk, nonce: Nonce): Option<Chunk> {
    if !IsEncrypted(c.content) then
      var envelope := Encrypt(w.aead, c.content, key, id, nonce);
      Some(Chunk(envelope, SetSearchVector(w, envelope, Some(w.tsv(c.content)))))
    else if !NeedsRepair(c.vector) then Some(c)
    else
      match Decrypt(w.aead, c.content, key, id)
      case Text(text) => Some(c.(vector := Some(w.tsv(text))))
      case _ => None
  }

  function EncryptChunks(w: World, key: Bytes, id: Id, chunks: seq<Chunk>, d: Draws, n: nat): (r: Option<seq<Chunk>>)
    requires n <= |chunks|
    ensures r.Some? ==> |r.value| == n
  {
    if n == 0 then Some([])
    else
      match EncryptChunks(w, key, id, chunks, d, n - 1)
      case None => None
      case Some(before) =>
        match EncryptChunk(w, key, id, chunks[n - 1], d.chunkNonces(n - 1))
        case None => None
        case Some(c) => Some(before + [c])
  }

  function EncryptContent(w: World, key: Bytes, id: Id, content: string, nonce: Nonce): string {
    if IsEncrypted(content) then content else Encrypt(w.aead, content, key, id, nonce)
  }

  predicate ChunkIsDone(c: Chunk) {
    IsEncrypted(c.content) && !NeedsRepair(c.vector)
  }

  predicate IsDone(m: Memory) {
    && (m.content.Some? ==> IsEncrypted(m.content.value))
    && forall i :: 0 <= i < |m.chunks| ==> ChunkIsDone(m.chunks[i])
  }

  datatype Attempt = Done(memory: Memory, changed: bool) | Aborted(why: Abort)

  /** `encrypt_memory` for a memory that exists: one transaction, with its result or its exception. */
  function EncryptMemory(w: World, master: Bytes, id: Id, m: Memory, d: Draws): Attempt {
    if m.content.None? then Done(m, false)
    else
      match Ensure(w, master, id, m.key, d.key, d.keyNonce)
      case NoKey(why) => Aborted(why)
      case HasKey(key, row) =>
        match EncryptChunks(w, key, id, m.chunks, d, |m.chunks|)
        case None => Aborted(Undecryptable)
        case Some(chunks) =>
          Done(Memory(Some(EncryptContent(w, key, id, m.content.value, d.contentNonce)), chunks, Some(row)), !IsDone(m))
  }

  // ---------------------------------------------------------------------------------------
  // Rotation
  // ---------------------------------------------------------------------------------------

  /** One row of `rotate_master_key`: re-wrapped, or skipped because its key is destroyed. */
  function Rewrapped(w: World, from: Bytes, onto: Bytes, id: Id, m: Memory, nonce: Nonce): Option<Memory> {
    if m.key.None? || m.key.value.wrapped.None? then Some(m)
    else
      match Unwrap(w.aead, from, m.key.value.wrapped.value, id)
      case None => None
      case Some(key) => Some(m.(key := Some(m.key.value.(wrapped := Some(Wrap(w.aead, onto, key, id, nonce))))))
  }

  /** The whole command is one transaction: no row changes unless every row can be re-wrapped. */
  function Rotated(w: World, s: Store, onto: Bytes, nonces: Id -> Nonce): Option<Store> {
    if forall id :: id in s.memories ==> Rewrapped(w, s.master, onto, id, s.memories[id], nonces(id)).Some? then
      Some(Store(onto, map id | id in s.memories :: Rewrapped(w, s.master, onto, id, s.memories[id], nonces(id)).value))
    else None
  }
}
