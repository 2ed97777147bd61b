/**
 One memory at rest: what its stored cells mean, and what encrypting, rotating and shredding it
 keep. `written` is every envelope ever written, `issued` every data key ever drawn.
 */
module EncryptedMemory {
  import opened Options
  import opened Encodings
  import opened Aead
  import opened Cipher
  import opened EncryptedStore

  /** The text a memory was given, whatever state it is stored in. */
  datatype Original = Original(content: Option<string>, chunks: seq<string>)

  datatype Written = Written(id: Id, key: Bytes, text: string, nonce: Nonce)

  function Envelope(w: World, r: Written): string {
    Encrypt(w.aead, r.text, r.key, r.id, r.nonce)
  }

  /** The data key a row gives access to. */
  function KeyOf(w: World, master: Bytes, id: Id, row: Option<KeyRow>): Option<Bytes> {
    if row.None? || row.value.wrapped.None? then None else Unwrap(w.aead, master, row.value.wrapped.value, id)
  }

  predicate IsShredded(row: Option<KeyRow>) {
    row.Some? && row.value.wrapped.None?
  }

  /** The CHECK of 0033, and a key that unwraps to one that was issued. */
  ghost predicate KeyFits(w: World, master: Bytes, id: Id, row: Option<KeyRow>, issued: set<Bytes>) {
    row.Some? ==>
      && (row.value.wrapped.None? <==> row.value.destroyedAt.Some?)
      && (row.value.wrapped.Some? ==> KeyOf(w, master, id, row).Some? && KeyOf(w, master, id, row).value in issued)
  }

  predicate SealedAs(w: World, master: Bytes, id: Id, row: Option<KeyRow>, stored: string, text: string, r: Written) {
    && r.id == id && r.text == text && stored == Envelope(w, r)
    && row.Some? && (row.value.wrapped.Some? ==> KeyOf(w, master, id, row) == Some(r.key))
  }

  /** A stored cell is its text, or an envelope of it under the key the memory's row holds or held. */
  ghost predicate CellFits(w: World, master: Bytes, id: Id, row: Option<KeyRow>, stored: string, text: string,
        written: set<Written>) {
    || (stored == text && !IsEncrypted(text))
    || exists r :: r in written && SealedAs(w, master, id, row, stored, text, r)
  }

  predicate SealsText(w: World, stored: string, text: string, r: Written) {
    r.text == text && stored == Envelope(w, r)
  }

  /**
   A stored chunk is its text, or an envelope of it: sealed for this memory, or for another that the
   chunk belonged to when it was encrypted.
   */
  ghost predicate CellStands(w: World, stored: string, text: string, written: set<Written>) {
    || (stored == text && !IsEncrypted(text))
    || exists r :: r in written && SealsText(w, stored, text, r)
  }

  ghost predicate ChunkFits(w: World, c: Chunk, text: string, written: set<Written>) {
    && CellStands(w, c.content, text, written)
    && (c.vector == Some(w.tsv(text)) || (IsEncrypted(c.content) && NeedsRepair(c.vector)))
  }

  ghost predicate MemoryFits(w: World, master: Bytes, id: Id, m: Memory, o: Original, written: set<Written>,
        issued: set<Bytes>) {
    && KeyFits(w, master, id, m.key, issued)
    && (m.content.Some? <==> o.content.Some?)
    && (m.content.Some? ==> CellFits(w, master, id, m.key, m.content.value, o.content.value, written))
    && |m.chunks| == |o.chunks|
    && forall i :: 0 <= i < |m.chunks| ==> ChunkFits(w, m.chunks[i], o.chunks[i], written)
  }

  /** Everything encrypted, and every vector that of the original text. */
  ghost predicate IsExact(w: World, m: Memory, o: Original) {
    && |m.chunks| == |o.chunks|
    && (m.content.Some? ==> IsEncrypted(m.content.value))
    && forall i :: 0 <= i < |m.chunks| ==>
         IsEncrypted(m.chunks[i].content) && m.chunks[i].vector == Some(w.tsv(o.chunks[i]))
  }

  // ---------------------------------------------------------------------------------------
  // Reading
  // ---------------------------------------------------------------------------------------

  /** A fitting cell reads as its text, unless it is an envelope and the key has been destroyed. */
  lemma CellReads(w: World, s: Store, id: Id, stored: string, text: string, written: set<Written>)
    requires Ideal(w.aead) && id in s.memories
    requires CellFits(w, s.master, id, s.memories[id].key, stored, text, written)
    ensures ReadBack(w, s, id, stored) ==
              if IsEncrypted(stored) && IsShredded(s.memories[id].key) then Shredded else Plain(text)
  {
    var row := s.memories[id].key;
    if !(stored == text && !IsEncrypted(text)) {
      var r :| r in written && SealedAs(w, s.master, id, row, stored, text, r);
      DecryptEncrypt(w.aead, r.text, r.key, r.id, r.nonce, r.key, id);
    }
  }

  /** The memory's own key opens the envelope. */
  predicate KeyOpens(w: World, master: Bytes, id: Id, row: Option<KeyRow>, stored: string) {
    KeyOf(w, master, id, row).Some? && Decrypt(w.aead, stored, KeyOf(w, master, id, row).value, id).Text?
  }

  /** With a key, a standing envelope decrypts to its text or fails. */
  lemma CellDecrypts(w: World, stored: string, text: string, written: set<Written>, key: Bytes, id: Id)
    requires Ideal(w.aead) && CellStands(w, stored, text, written)
    ensures Decrypt(w.aead, stored, key, id) == Text(text) || Decrypt(w.aead, stored, key, id) == Failed
    ensures IsEncrypted(stored) && (forall r :: r in written ==> r.key != key || r.id != id) ==>
              Decrypt(w.aead, stored, key, id) == Failed
  {
    if !(stored == text && !IsEncrypted(text)) {
      var r :| r in written && SealsText(w, stored, text, r);
      DecryptEncrypt(w.aead, r.text, r.key, r.id, r.nonce, key, id);
    }
  }

  /** What a chunk reads as, wherever it was encrypted. */
  lemma ChunkReads(w: World, s: Store, id: Id, stored: string, text: string, written: set<Written>, issued: set<Bytes>)
    requires Ideal(w.aead) && id in s.memories && CellStands(w, stored, text, written)
    requires KeyFits(w, s.master, id, s.memories[id].key, issued)
    ensures ReadBack(w, s, id, stored)
         == if !IsEncrypted(stored) then Plain(text)
            else if IsShredded(s.memories[id].key) then Shredded
            else if KeyOpens(w, s.master, id, s.memories[id].key, stored) then Plain(text)
            else Unreadable
  {
    if !(stored == text && !IsEncrypted(text)) {
      var r :| r in written && SealsText(w, stored, text, r);
      DecryptEncrypt(w.aead, r.text, r.key, r.id, r.nonce, r.key, r.id);
    }
    var key := KeyOf(w, s.master, id, s.memories[id].key);
    if key.Some? {
      CellDecrypts(w, stored, text, written, key.value, id);
    }
  }

  /** A key that is there opens exactly the envelopes sealed with it for its memory. */
  lemma OpensIff(w: World, master: Bytes, id: Id, row: Option<KeyRow>, stored: string, text: string,
        written: set<Written>, issued: set<Bytes>)
    requires Ideal(w.aead) && CellStands(w, stored, text, written) && KeyFits(w, master, id, row, issued)
    requires IsEncrypted(stored) && !IsShredded(row)
    ensures KeyOpens(w, master, id, row, stored) <==> CellFits(w, master, id, row, stored, text, written)
  {
    var key := KeyOf(w, master, id, row);
    if CellFits(w, master, id, row, stored, text, written) {
      var r :| r in written && SealedAs(w, master, id, row, stored, text, r);
      DecryptEncrypt(w.aead, r.text, r.key, r.id, r.nonce, r.key, id);
    }
    if KeyOpens(w, master, id, row, stored) && !(stored == text && !IsEncrypted(text)) {
      var r :| r in written && SealsText(w, stored, text, r);
      DecryptEncrypt(w.aead, r.text, r.key, r.id, r.nonce, key.value, id);
      assert SealedAs(w, master, id, row, stored, text, r);
    }
  }

  // ---------------------------------------------------------------------------------------
  // Encrypting
  // ---------------------------------------------------------------------------------------

  /** The envelopes a call of `encrypt_memory` writes. */
  function Sealings(id: Id, m: Memory, key: Bytes, d: Draws): set<Written> {
    (if m.content.Some? && !IsEncrypted(m.content.value)
     then {Written(id, key, m.content.value, d.contentNonce)} else {})
    + (set i: nat | i < |m.chunks| && !IsEncrypted(m.chunks[i].content)
         :: Written(id, key, m.chunks[i].content, d.chunkNonces(i)))
  }

  lemma CellKeeps(w: World, master: Bytes, id: Id, row: Option<KeyRow>, stored: string, text: string,
        written: set<Written>, written': set<Written>)
    requires CellFits(w, master, id, row, stored, text, written) && written <= written'
    ensures CellFits(w, master, id, row, stored, text, written')
  {
    if !(stored == text && !IsEncrypted(text)) {
      var r :| r in written && SealedAs(w, master, id, row, stored, text, r);
      assert r in written';
    }
  }

  lemma ChunkKeeps(w: World, c: Chunk, text: string, written: set<Written>, written': set<Written>)
    requires ChunkFits(w, c, text, written) && written <= written'
    ensures ChunkFits(w, c, text, written')
  {
    if !(c.content == text && !IsEncrypted(text)) {
      var r :| r in written && SealsText(w, c.content, text, r);
      assert r in written';
    }
  }

  lemma MemoryKeeps(w: World, master: Bytes, id: Id, m: Memory, o: Original, written: set<Written>, issued: set<Bytes>,
        written': set<Written>, issued': set<Bytes>)
    requires MemoryFits(w, master, id, m, o, written, issued) && written <= written' && issued <= issued'
    ensures MemoryFits(w, master, id, m, o, written', issued')
  {
    if m.content.Some? {
      CellKeeps(w, master, id, m.key, m.content.value, o.content.value, written, written');
    }
    forall i | 0 <= i < |m.chunks| ensures ChunkFits(w, m.chunks[i], o.chunks[i], written') {
      ChunkKeeps(w, m.chunks[i], o.chunks[i], written, written');
    }
  }

  /** A plaintext cell sealed under the row's key still fits. */
  lemma SealedCellFits(w: World, master: Bytes, id: Id, row: KeyRow, r: Written, written: set<Written>)
    requires Ideal(w.aead) && r in written && r.id == id && KeyOf(w, master, id, Some(row)) == Some(r.key)
    ensures IsEncrypted(Envelope(w, r)) && KeyOpens(w, master, id, Some(row), Envelope(w, r))
    ensures CellFits(w, master, id, Some(row), Envelope(w, r), r.text, written)
    ensures CellStands(w, Envelope(w, r), r.text, written)
  {
    DecryptEncrypt(w.aead, r.text, r.key, r.id, r.nonce, r.key, id);
    assert SealedAs(w, master, id, Some(row), Envelope(w, r), r.text, r);
    assert SealsText(w, Envelope(w, r), r.text, r);
  }

  /** An envelope beside a vector that has to be rebuilt from it, which the memory's key does not open. */
  predicate IsStuck(w: World, master: Bytes, id: Id, row: Option<KeyRow>, c: Chunk) {
    IsEncrypted(c.content) && NeedsRepair(c.vector) && !KeyOpens(w, master, id, row, c.content)
  }

  ghost predicate ChunkIsSealed(w: World, master: Bytes, id: Id, row: KeyRow, c: Chunk, text: string,
        written: set<Written>) {
    && ChunkFits(w, c, text, written) && IsEncrypted(c.content) && c.vector == Some(w.tsv(text))
    && !IsStuck(w, master, id, Some(row), c)
  }

  /** One chunk of `encrypt_memory`: refused exactly when it is stuck, and left at home if it was. */
  lemma EncryptChunkFits(w: World, master: Bytes, id: Id, row: KeyRow, key: Bytes, c: Chunk, text: string,
        nonce: Nonce, written: set<Written>)
    requires Ideal(w.aead) && KeyOf(w, master, id, Some(row)) == Some(key) && ChunkFits(w, c, text, written)
    requires !IsEncrypted(c.content) ==> Written(id, key, c.content, nonce) in written
    ensures EncryptChunk(w, key, id, c, nonce).None? <==> IsStuck(w, master, id, Some(row), c)
    ensures !IsStuck(w, master, id, Some(row), c) ==>
              var c' := EncryptChunk(w, key, id, c, nonce).value;
              && ChunkIsSealed(w, master, id, row, c', text, written)
              && (CellFits(w, master, id, Some(row), c.content, text, written) ==>
                    CellFits(w, master, id, Some(row), c'.content, text, written))
  {
    if !IsEncrypted(c.content) {
      SealedCellFits(w, master, id, row, Written(id, key, c.content, nonce), written);
    } else {
      CellDecrypts(w, c.content, text, written, key, id);
    }
  }

  predicate FailsAt(w: World, key: Bytes, id: Id, chunks: seq<Chunk>, d: Draws, i: nat)
    requires i < |chunks|
  {
    EncryptChunk(w, key, id, chunks[i], d.chunkNonces(i)).None?
  }

  predicate SomeFails(w: World, key: Bytes, id: Id, chunks: seq<Chunk>, d: Draws, n: nat)
    requires n <= |chunks|
  {
    exists i :: 0 <= i < n && FailsAt(w, key, id, chunks, d, i)
  }

  lemma OneMoreFails(w: World, key: Bytes, id: Id, chunks: seq<Chunk>, d: Draws, n: nat)
    requires n < |chunks|
    ensures SomeFails(w, key, id, chunks, d, n + 1)
       <==> SomeFails(w, key, id, chunks, d, n) || EncryptChunk(w, key, id, chunks[n], d.chunkNonces(n)).None?
  {
    assert FailsAt(w, key, id, chunks, d, n) <==> EncryptChunk(w, key, id, chunks[n], d.chunkNonces(n)).None?;
  }

  /** The loop fails exactly when one of its chunks does. */
  lemma {:induction false} EncryptChunksFailIff(w: World, key: Bytes, id: Id, chunks: seq<Chunk>, d: Draws, n: nat)
    requires n <= |chunks|
    ensures EncryptChunks(w, key, id, chunks, d, n).None? <==> SomeFails(w, key, id, chunks, d, n)
  {
    if n > 0 {
      EncryptChunksFailIff(w, key, id, chunks, d, n - 1);
      OneMoreFails(w, key, id, chunks, d, n - 1);
    }
  }

  /** And otherwise it does each chunk on its own. */
  lemma {:induction false} EncryptChunksAt(w: World, key: Bytes, id: Id, chunks: seq<Chunk>, d: Draws, n: nat, i: nat)
    requires i < n <= |chunks| && EncryptChunks(w, key, id, chunks, d, n).Some?
    ensures EncryptChunk(w, key, id, chunks[i], d.chunkNonces(i))
         == Some(EncryptChunks(w, key, id, chunks, d, n).value[i])
  {
    if i < n - 1 {
      EncryptChunksAt(w, key, id, chunks, d, n - 1, i);
    }
  }

  /** What ends `encrypt_memory` with an exception: a destroyed key, or a chunk that is stuck. */
  predicate Blocked(w: World, master: Bytes, id: Id, m: Memory) {
    m.content.Some? && (IsShredded(m.key) || HasStuck(w, master, id, m))
  }

  predicate HasStuck(w: World, master: Bytes, id: Id, m: Memory) {
    exists i :: 0 <= i < |m.chunks| && IsStuck(w, master, id, m.key, m.chunks[i])
  }

  function WhyBlocked(m: Memory): Abort {
    if IsShredded(m.key) then KeyDestroyed else Undecryptable
  }

  lemma EnsureGivesItsKey(w: World, master: Bytes, id: Id, m: Memory, d: Draws, issued: set<Bytes>)
    requires Ideal(w.aead) && KeyFits(w, master, id, m.key, issued) && !IsShredded(m.key)
    ensures var e := Ensure(w, master, id, m.key, d.key, d.keyNonce);
            && e.HasKey? && KeyOf(w, master, id, Some(e.row)) == Some(e.key) && e.row.destroyedAt.None?
            && e.key in issued + {d.key} && (m.key.Some? ==> e.row == m.key.value)
            && (m.key.None? ==> e.key == d.key)
  {
    UnwrapWrap(w.aead, master, d.key, id, d.keyNonce, master, id);
  }

  /** A cell that fits without a key row is plaintext, so it fits under any. */
  lemma CellFitsUnderNewKey(w: World, master: Bytes, id: Id, row: Option<KeyRow>, row': KeyRow, stored: string,
        text: string, written: set<Written>)
    requires CellFits(w, master, id, row, stored, text, written) && (row.Some? ==> row.value == row')
    ensures CellFits(w, master, id, Some(row'), stored, text, written)
  {
  }

  /** A key drawn only now opens nothing that was written before. */
  predicate IsNewKey(m: Memory, key: Bytes, written: set<Written>) {
    m.key.None? ==> forall r :: r in written ==> r.key != key
  }

  /** So what is stuck does not depend on whether the key was there before or is drawn now. */
  lemma StuckUnderNewKey(w: World, master: Bytes, id: Id, m: Memory, row: KeyRow, key: Bytes, c: Chunk, text: string,
        written: set<Written>)
    requires Ideal(w.aead) && ChunkFits(w, c, text, written) && KeyOf(w, master, id, Some(row)) == Some(key)
    requires IsNewKey(m, key, written) && (m.key.Some? ==> m.key.value == row)
    ensures IsStuck(w, master, id, Some(row), c) <==> IsStuck(w, master, id, m.key, c)
  {
    if IsEncrypted(c.content) {
      CellDecrypts(w, c.content, text, written, key, id);
    }
  }

  /** The key an unblocked memory is encrypted under. */
  function EncryptionKey(w: World, master: Bytes, id: Id, m: Memory, d: Draws): Bytes {
    match Ensure(w, master, id, m.key, d.key, d.keyNonce)
    case HasKey(key, _) => key
    case NoKey(_) => d.key
  }

  /** Every chunk stands for its text in the memory that its envelope was sealed for. */
  ghost predicate IsAtHome(w: World, master: Bytes, id: Id, m: Memory, texts: seq<string>, written: set<Written>) {
    && |m.chunks| == |texts|
    && forall i :: 0 <= i < |m.chunks| ==> CellFits(w, master, id, m.key, m.chunks[i].content, texts[i], written)
  }

  /** What the call makes of one chunk. */
  ghost predicate ChunkTurnsOut(w: World, master: Bytes, id: Id, row: Option<KeyRow>, row': KeyRow, c: Chunk,
        c': Option<Chunk>, text: string, written: set<Written>, written': set<Written>) {
    if IsStuck(w, master, id, row, c) then c'.None?
    else
      && c'.Some? && ChunkIsSealed(w, master, id, row', c'.value, text, written')
      && (CellFits(w, master, id, row, c.content, text, written) ==>
            CellFits(w, master, id, Some(row'), c'.value.content, text, written'))
  }

  lemma ChunkIsEncrypted(w: World, master: Bytes, id: Id, m: Memory, o: Original, d: Draws, row: KeyRow, key: Bytes,
        written: set<Written>, written': set<Written>, i: nat)
    requires Ideal(w.aead) && KeyOf(w, master, id, Some(row)) == Some(key) && IsNewKey(m, key, written)
    requires i < |m.chunks| == |o.chunks| && ChunkFits(w, m.chunks[i], o.chunks[i], written)
    requires (m.key.Some? ==> m.key.value == row) && written' == written + Sealings(id, m, key, d)
    ensures ChunkTurnsOut(w, master, id, m.key, row, m.chunks[i],
                          EncryptChunk(w, key, id, m.chunks[i], d.chunkNonces(i)), o.chunks[i], written, written')
  {
    var c, text := m.chunks[i], o.chunks[i];
    if !IsEncrypted(c.content) {
      assert Written(id, key, c.content, d.chunkNonces(i)) in Sealings(id, m, key, d);
    }
    ChunkKeeps(w, c, text, written, written');
    StuckUnderNewKey(w, master, id, m, row, key, c, text, written);
    EncryptChunkFits(w, master, id, row, key, c, text, d.chunkNonces(i), written');
    if CellFits(w, master, id, m.key, c.content, text, written) {
      CellFitsUnderNewKey(w, master, id, m.key, row, c.content, text, written);
      CellKeeps(w, master, id, Some(row), c.content, text, written, written');
    }
  }

  /**
   `encrypt_memory`. It aborts exactly when the memory is blocked; otherwise every cell of a memory with
   content ends encrypted, still standing for its text, beside the vector of that text, and a memory
   whose chunks were at home keeps them there.
   */
  lemma EncryptMemoryKeeps(w: World, master: Bytes, id: Id, m: Memory, o: Original, d: Draws, written: set<Written>,
        issued: set<Bytes>)
    requires Ideal(w.aead) && MemoryFits(w, master, id, m, o, written, issued) && IsNewKey(m, d.key, written)
    ensures EncryptMemory(w, master, id, m, d).Aborted? <==> Blocked(w, master, id, m)
    ensures Blocked(w, master, id, m) ==> EncryptMemory(w, master, id, m, d).why == WhyBlocked(m)
    ensures !Blocked(w, master, id, m) && m.content.Some? ==>
              var m' := EncryptMemory(w, master, id, m, d).memory;
              var written' := written + Sealings(id, m, EncryptionKey(w, master, id, m, d), d);
              && MemoryFits(w, master, id, m', o, written', issued + {d.key})
              && IsExact(w, m', o) && !Blocked(w, master, id, m') && m'.content.Some?
              && (IsAtHome(w, master, id, m, o.chunks, written) ==> IsAtHome(w, master, id, m', o.chunks, written'))
  {
    if m.content.Some? && !IsShredded(m.key) {
      EnsureGivesItsKey(w, master, id, m, d, issued);
      var e := Ensure(w, master, id, m.key, d.key, d.keyNonce);
      FoundKeyKeeps(w, master, id, m, o, d, e.row, e.key, written, issued);
    }
  }

  lemma FoundKeyKeeps(w: World, master: Bytes, id: Id, m: Memory, o: Original, d: Draws, row: KeyRow, key: Bytes,
        written: set<Written>, issued: set<Bytes>)
    requires Ideal(w.aead) && MemoryFits(w, master, id, m, o, written, issued) && IsNewKey(m, key, written)
    requires m.content.Some? && !IsShredded(m.key) && KeyOf(w, master, id, Some(row)) == Some(key)
    requires row.destroyedAt.None? && key in issued + {d.key} && (m.key.Some? ==> m.key.value == row)
    ensures EncryptChunks(w, key, id, m.chunks, d, |m.chunks|).None? <==> HasStuck(w, master, id, m)
    ensures !HasStuck(w, master, id, m) ==>
              var written' := written + Sealings(id, m, key, d);
              var m' := Memory(Some(EncryptContent(w, key, id, m.content.value, d.contentNonce)),
                               EncryptChunks(w, key, id, m.chunks, d, |m.chunks|).value, Some(row));
              && MemoryFits(w, master, id, m', o, written', issued + {d.key})
              && IsExact(w, m', o) && !Blocked(w, master, id, m')
              && (IsAtHome(w, master, id, m, o.chunks, written) ==> IsAtHome(w, master, id, m', o.chunks, written'))
  {
    var written' := written + Sealings(id, m, key, d);
    forall i | 0 <= i < |m.chunks|
      ensures ChunkTurnsOut(w, master, id, m.key, row, m.chunks[i],
                            EncryptChunk(w, key, id, m.chunks[i], d.chunkNonces(i)), o.chunks[i], written, written')
    {
      ChunkIsEncrypted(w, master, id, m, o, d, row, key, written, written', i);
    }
    ChunksTurnOut(w, master, id, m, o.chunks, d, row, key, written, written');
    ContentFits(w, master, id, m, o, d, written, written', row, key);
    if !HasStuck(w, master, id, m) {
      SealedMemoryFits(w, master, id, EncryptContent(w, key, id, m.content.value, d.contentNonce),
                       EncryptChunks(w, key, id, m.chunks, d, |m.chunks|).value, row, o, written', issued + {d.key});
    }
  }

  lemma SealedMemoryFits(w: World, master: Bytes, id: Id, content: string, chunks: seq<Chunk>, row: KeyRow, o: Original,
        written: set<Written>, issued: set<Bytes>)
    requires o.content.Some? && IsEncrypted(content)
    requires CellFits(w, master, id, Some(row), content, o.content.value, written)
    requires KeyFits(w, master, id, Some(row), issued) && row.wrapped.Some? && |chunks| == |o.chunks|
    requires forall i :: 0 <= i < |chunks| ==> ChunkIsSealed(w, master, id, row, chunks[i], o.chunks[i], written)
    ensures var m := Memory(Some(content), chunks, Some(row));
            MemoryFits(w, master, id, m, o, written, issued) && IsExact(w, m, o) && !Blocked(w, master, id, m)
  {
    var m := Memory(Some(content), chunks, Some(row));
    forall i | 0 <= i < |chunks|
      ensures ChunkFits(w, chunks[i], o.chunks[i], written) && !IsStuck(w, master, id, m.key, chunks[i])
      ensures IsEncrypted(chunks[i].content) && chunks[i].vector == Some(w.tsv(o.chunks[i]))
    {
      assert ChunkIsSealed(w, master, id, row, chunks[i], o.chunks[i], written);
    }
  }

  lemma ChunksTurnOut(w: World, master: Bytes, id: Id, m: Memory, texts: seq<string>, d: Draws, row: KeyRow, key: Bytes,
        written: set<Written>, written': set<Written>)
    requires |m.chunks| == |texts|
    requires forall i :: 0 <= i < |m.chunks| ==>
               ChunkTurnsOut(w, master, id, m.key, row, m.chunks[i],
                             EncryptChunk(w, key, id, m.chunks[i], d.chunkNonces(i)), texts[i], written, written')
    ensures EncryptChunks(w, key, id, m.chunks, d, |m.chunks|).None? <==> HasStuck(w, master, id, m)
    ensures !HasStuck(w, master, id, m) ==>
              var chunks := EncryptChunks(w, key, id, m.chunks, d, |m.chunks|).value;
              && (forall i :: 0 <= i < |chunks| ==> ChunkIsSealed(w, master, id, row, chunks[i], texts[i], written'))
              && (IsAtHome(w, master, id, m, texts, written) ==> forall i :: 0 <= i < |chunks| ==>
                    CellFits(w, master, id, Some(row), chunks[i].content, texts[i], written'))
  {
    EncryptChunksFailIff(w, key, id, m.chunks, d, |m.chunks|);
    forall i | 0 <= i < |m.chunks|
      ensures FailsAt(w, key, id, m.chunks, d, i) <==> IsStuck(w, master, id, m.key, m.chunks[i])
    {
      assert ChunkTurnsOut(w, master, id, m.key, row, m.chunks[i],
                           EncryptChunk(w, key, id, m.chunks[i], d.chunkNonces(i)), texts[i], written, written');
    }
    if !HasStuck(w, master, id, m) {
      forall i | 0 <= i < |m.chunks|
        ensures EncryptChunk(w, key, id, m.chunks[i], d.chunkNonces(i))
             == Some(EncryptChunks(w, key, id, m.chunks, d, |m.chunks|).value[i])
      {
        EncryptChunksAt(w, key, id, m.chunks, d, |m.chunks|, i);
      }
    }
  }

  lemma ContentFits(w: World, master: Bytes, id: Id, m: Memory, o: Original, d: Draws, written: set<Written>,
        written': set<Written>, row: KeyRow, key: Bytes)
    requires Ideal(w.aead) && m.content.Some? && o.content.Some?
    requires CellFits(w, master, id, m.key, m.content.value, o.content.value, written)
    requires m.key.Some? ==> m.key.value == row
    requires KeyOf(w, master, id, Some(row)) == Some(key) && written' == written + Sealings(id, m, key, d)
    ensures var content := EncryptContent(w, key, id, m.content.value, d.contentNonce);
            IsEncrypted(content) && CellFits(w, master, id, Some(row), content, o.content.value, written')
  {
    if IsEncrypted(m.content.value) {
      CellKeeps(w, master, id, m.key, m.content.value, o.content.value, written, written');
      CellFitsUnderNewKey(w, master, id, m.key, row, m.content.value, o.content.value, written');
    } else {
      SealedCellFits(w, master, id, row, Written(id, key, m.content.value, d.contentNonce), written');
    }
  }

  lemma ExactChunkStays(w: World, key: Bytes, master: Bytes, id: Id, row: Option<KeyRow>, c: Chunk, text: string,
        nonce: Nonce, written: set<Written>)
    requires Ideal(w.aead) && KeyOf(w, master, id, row) == Some(key) && ChunkFits(w, c, text, written)
    requires IsEncrypted(c.content) && c.vector == Some(w.tsv(text)) && !IsStuck(w, master, id, row, c)
    ensures EncryptChunk(w, key, id, c, nonce) == Some(c)
  {
    CellDecrypts(w, c.content, text, written, key, id);
  }

  predicate StaysAt(w: World, key: Bytes, id: Id, c: Chunk, nonce: Nonce) {
    EncryptChunk(w, key, id, c, nonce) == Some(c)
  }

  lemma {:induction false} ChunksStay(w: World, key: Bytes, id: Id, chunks: seq<Chunk>, d: Draws, n: nat)
    requires n <= |chunks| && forall i :: 0 <= i < n ==> StaysAt(w, key, id, chunks[i], d.chunkNonces(i))
    ensures EncryptChunks(w, key, id, chunks, d, n) == Some(chunks[..n])
  {
    if n > 0 {
      ChunksStay(w, key, id, chunks, d, n - 1);
      assert StaysAt(w, key, id, chunks[n - 1], d.chunkNonces(n - 1));
      assert chunks[..n] == chunks[..n - 1] + [chunks[n - 1]];
    }
  }

  /**
   Encrypting again changes nothing. It reports that it did, though, exactly when some chunk's own
   text has the lexeme the repair heuristic takes for a sign of an envelope.
   */
  lemma EncryptingAgainIsIdle(w: World, master: Bytes, id: Id, m: Memory, o: Original, d: Draws, written: set<Written>,
        issued: set<Bytes>)
    requires Ideal(w.aead) && MemoryFits(w, master, id, m, o, written, issued) && IsExact(w, m, o)
    requires m.content.Some? && m.key.Some? && !Blocked(w, master, id, m)
    ensures EncryptMemory(w, master, id, m, d)
         == Done(m, exists i :: 0 <= i < |o.chunks| && "enc" in w.tsv(o.chunks[i]))
  {
    var key := KeyOf(w, master, id, m.key).value;
    forall i | 0 <= i < |m.chunks| ensures StaysAt(w, key, id, m.chunks[i], d.chunkNonces(i)) {
      ExactChunkStays(w, key, master, id, m.key, m.chunks[i], o.chunks[i], d.chunkNonces(i), written);
    }
    ChunksStay(w, key, id, m.chunks, d, |m.chunks|);
    assert m.chunks[..|m.chunks|] == m.chunks;
    if i :| 0 <= i < |o.chunks| && "enc" in w.tsv(o.chunks[i]) {
      assert !ChunkIsDone(m.chunks[i]);
    }
    if !IsDone(m) {
      var i :| 0 <= i < |m.chunks| && !ChunkIsDone(m.chunks[i]);
      assert "enc" in w.tsv(o.chunks[i]);
    }
  }

  // ---------------------------------------------------------------------------------------
  // Rotating and shredding
  // ---------------------------------------------------------------------------------------

  /** Rotation re-wraps the key and nothing else: every cell, and what it stands for, is unchanged. */
  lemma RewrappingKeeps(w: World, master: Bytes, onto: Bytes, id: Id, m: Memory, o: Original, nonce: Nonce,
        written: set<Written>, issued: set<Bytes>)
    requires Ideal(w.aead) && MemoryFits(w, master, id, m, o, written, issued)
    ensures Rewrapped(w, master, onto, id, m, nonce).Some?
    ensures var m' := Rewrapped(w, master, onto, id, m, nonce).value;
            && m'.content == m.content && m'.chunks == m.chunks
            && KeyOf(w, onto, id, m'.key) == KeyOf(w, master, id, m.key)
            && (onto != master ==> KeyOf(w, master, id, m'.key) == None)
            && (IsShredded(m.key) <==> IsShredded(m'.key)) && (IsShredded(m.key) ==> m' == m)
            && MemoryFits(w, onto, id, m', o, written, issued)
            && (IsAtHome(w, master, id, m, o.chunks, written) ==> IsAtHome(w, onto, id, m', o.chunks, written))
  {
    var m' := Rewrapped(w, master, onto, id, m, nonce).value;
    if m.key.Some? && m.key.value.wrapped.Some? {
      var key := KeyOf(w, master, id, m.key).value;
      UnwrapWrap(w.aead, onto, key, id, nonce, onto, id);
      UnwrapWrap(w.aead, onto, key, id, nonce, master, id);
    }
    if m.content.Some? {
      CellRekeys(w, master, onto, id, m.key, m'.key, m.content.value, o.content.value, written);
    }
    if IsAtHome(w, master, id, m, o.chunks, written) {
      HomeRekeys(w, master, onto, id, m, m', o.chunks, written);
    }
  }

  /** A cell fits any row that is there and, if it has a key at all, has the same one. */
  lemma CellRekeys(w: World, master: Bytes, master': Bytes, id: Id, row: Option<KeyRow>, row': Option<KeyRow>,
        stored: string, text: string, written: set<Written>)
    requires CellFits(w, master, id, row, stored, text, written)
    requires row.Some? ==> row'.Some?
    requires row.Some? && row'.value.wrapped.Some? ==>
               row.value.wrapped.Some? && KeyOf(w, master', id, row') == KeyOf(w, master, id, row)
    ensures CellFits(w, master', id, row', stored, text, written)
  {
    if !(stored == text && !IsEncrypted(text)) {
      var r :| r in written && SealedAs(w, master, id, row, stored, text, r);
      assert SealedAs(w, master', id, row', stored, text, r);
    }
  }

  lemma HomeRekeys(w: World, master: Bytes, master': Bytes, id: Id, m: Memory, m': Memory, texts: seq<string>,
        written: set<Written>)
    requires IsAtHome(w, master, id, m, texts, written) && m'.chunks == m.chunks
    requires m.key.Some? ==> m'.key.Some?
    requires m.key.Some? && m'.key.value.wrapped.Some? ==>
               m.key.value.wrapped.Some? && KeyOf(w, master', id, m'.key) == KeyOf(w, master, id, m.key)
    ensures IsAtHome(w, master', id, m', texts, written)
  {
    forall i | 0 <= i < |m.chunks|
      ensures CellFits(w, master', id, m'.key, m'.chunks[i].content, texts[i], written)
    {
      CellRekeys(w, master, master', id, m.key, m'.key, m.chunks[i].content, texts[i], written);
    }
  }

  lemma DestroyingKeeps(w: World, master: Bytes, id: Id, m: Memory, o: Original, at: int, written: set<Written>,
        issued: set<Bytes>)
    requires MemoryFits(w, master, id, m, o, written, issued)
    ensures MemoryFits(w, master, id, Destroyed(m, at), o, written, issued)
    ensures KeyOf(w, master, id, Destroyed(m, at).key) == None
    ensures IsAtHome(w, master, id, m, o.chunks, written) ==>
              IsAtHome(w, master, id, Destroyed(m, at), o.chunks, written)
  {
    var m' := Destroyed(m, at);
    if m.content.Some? {
      CellRekeys(w, master, master, id, m.key, m'.key, m.content.value, o.content.value, written);
    }
    if IsAtHome(w, master, id, m, o.chunks, written) {
      HomeRekeys(w, master, master, id, m, m', o.chunks, written);
    }
  }

  /** The new column of 0034 is right for plaintext and marked for repair everywhere else. */
  lemma ReindexingKeeps(w: World, master: Bytes, id: Id, m: Memory, o: Original, written: set<Written>,
        issued: set<Bytes>)
    requires MemoryFits(w, master, id, m, o, written, issued)
    ensures MemoryFits(w, master, id, Reindexed(w, m), o, written, issued)
    ensures IsAtHome(w, master, id, m, o.chunks, written) ==>
              IsAtHome(w, master, id, Reindexed(w, m), o.chunks, written)
  {
    var m' := Reindexed(w, m);
    forall i | 0 <= i < |m.chunks| ensures ChunkFits(w, m'.chunks[i], o.chunks[i], written) {
      assert ChunkFits(w, m.chunks[i], o.chunks[i], written);
    }
  }
}
