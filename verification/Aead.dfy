/**
 Authenticated encryption with associated data, as an ideal: GCM's authenticated encryption and
 authenticated decryption functions (sections 7.1 and 7.2 of NIST SP 800-38D) with forgeries and
 collisions ruled out. A symbolic instance shows that the ideal asks for nothing contradictory.
 */
module Aead {
  import opened Options
  import opened Encodings

  /** `seal(key, nonce, plaintext, associated data)` and `open(key, nonce, sealed, associated data)`. */
  datatype Aead = Aead(
    seal: (Bytes, Bytes, Bytes, Bytes) -> Bytes,
    open: (Bytes, Bytes, Bytes, Bytes) -> Option<Bytes>)

  /** What was sealed opens, and under the same key, nonce and associated data. */
  ghost predicate Opens(a: Aead) {
    forall k, n, p, ad :: a.open(k, n, a.seal(k, n, p, ad), ad) == Some(p)
  }

  /** Nothing opens but what was sealed: a tag that verifies was made with the same inputs. */
  ghost predicate Authentic(a: Aead) {
    forall k, n, c, ad {:trigger a.open(k, n, c, ad)} ::
      a.open(k, n, c, ad).Some? ==> c == a.seal(k, n, a.open(k, n, c, ad).value, ad)
  }

  /** Different inputs never seal to the same bytes. */
  ghost predicate Committing(a: Aead) {
    forall k, n, p, ad, k', n', p', ad' {:trigger a.seal(k, n, p, ad), a.seal(k', n', p', ad')} ::
      a.seal(k, n, p, ad) == a.seal(k', n', p', ad') ==> k == k' && n == n' && p == p' && ad == ad'
  }

  ghost predicate Ideal(a: Aead) {
    Opens(a) && Authentic(a) && Committing(a)
  }

  /** Opening succeeds with the key, nonce and associated data of the sealing, and with no others. */
  lemma OpensExactly(a: Aead, k: Bytes, n: Bytes, p: Bytes, ad: Bytes, k': Bytes, n': Bytes, ad': Bytes)
    requires Ideal(a)
    ensures a.open(k', n', a.seal(k, n, p, ad), ad') ==
              if k' == k && n' == n && ad' == ad then Some(p) else None
  {
    var c := a.seal(k, n, p, ad);
    if a.open(k', n', c, ad').Some? {
      assert c == a.seal(k', n', a.open(k', n', c, ad').value, ad');
    }
  }

  // ---------------------------------------------------------------------------------------
  // A symbolic instance
  // ---------------------------------------------------------------------------------------

  function Ones(n: nat): Bytes {
    if n == 0 then [0] else [1] + Ones(n - 1)
  }

  /** A field, after its length in unary. */
  function Frame(x: Bytes): Bytes {
    Ones(|x|) + x
  }

  lemma {:induction false} OnesAreSelfDelimiting(n: nat, m: nat, u: Bytes, v: Bytes)
    requires Ones(n) + u == Ones(m) + v
    ensures n == m && u == v
  {
    assert (Ones(n) + u)[0] == Ones(n)[0] && (Ones(m) + v)[0] == Ones(m)[0];
    assert (Ones(n) + u)[1..] == (Ones(m) + v)[1..];
    assert (Ones(n) + u)[1..] == Ones(n)[1..] + u && (Ones(m) + v)[1..] == Ones(m)[1..] + v;
    if n > 0 && m > 0 {
      assert Ones(n)[1..] == Ones(n - 1) && Ones(m)[1..] == Ones(m - 1);
      OnesAreSelfDelimiting(n - 1, m - 1, u, v);
    } else if n == 0 && m == 0 {
      assert Ones(n)[1..] == [] && [] + u == u && [] + v == v;
    }
  }

  lemma {:induction false} FrameIsSelfDelimiting(x: Bytes, y: Bytes, u: Bytes, v: Bytes)
    requires Frame(x) + u == Frame(y) + v
    ensures x == y && u == v
  {
    assert Frame(x) + u == Ones(|x|) + (x + u) && Frame(y) + v == Ones(|y|) + (y + v);
    OnesAreSelfDelimiting(|x|, |y|, x + u, y + v);
    assert (x + u)[..|x|] == x && (y + v)[..|y|] == y;
    assert (x + u)[|x|..] == u && (y + v)[|y|..] == v;
  }

  function SymbolicSeal(k: Bytes, n: Bytes, p: Bytes, ad: Bytes): Bytes {
    Frame(k) + (Frame(n) + (Frame(p) + ad))
  }

  lemma {:induction false} SymbolicSealIsInjective(k: Bytes, n: Bytes, p: Bytes, ad: Bytes, k': Bytes, n': Bytes,
        p': Bytes, ad': Bytes)
    requires SymbolicSeal(k, n, p, ad) == SymbolicSeal(k', n', p', ad')
    ensures k == k' && n == n' && p == p' && ad == ad'
  {
    FrameIsSelfDelimiting(k, k', Frame(n) + (Frame(p) + ad), Frame(n') + (Frame(p') + ad'));
    FrameIsSelfDelimiting(n, n', Frame(p) + ad, Frame(p') + ad');
    FrameIsSelfDelimiting(p, p', ad, ad');
  }

  ghost function SymbolicOpen(k: Bytes, n: Bytes, c: Bytes, ad: Bytes): Option<Bytes> {
    if exists p :: c == SymbolicSeal(k, n, p, ad) then
      var p :| c == SymbolicSeal(k, n, p, ad);
      Some(p)
    else None
  }

  /** The ideal is consistent: something satisfies it. */
  lemma {:induction false} IdealExists() returns (a: Aead)
    ensures Ideal(a)
  {
    a := Aead(SymbolicSeal, SymbolicOpen);
    forall k, n, p, ad ensures a.open(k, n, a.seal(k, n, p, ad), ad) == Some(p) {
      var plain := SymbolicOpen(k, n, SymbolicSeal(k, n, p, ad), ad);
      SymbolicSealIsInjective(k, n, plain.value, ad, k, n, p, ad);
    }
    forall k, n, p, ad, k', n', p', ad' | a.seal(k, n, p, ad) == a.seal(k', n', p', ad')
      ensures k == k' && n == n' && p == p' && ad == ad'
    {
      SymbolicSealIsInjective(k, n, p, ad, k', n', p', ad');
    }
  }
}
