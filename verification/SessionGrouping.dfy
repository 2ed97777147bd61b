/**
 The thirty-minute rule of migration 0028, as a function of a timeline: the creation times of
 the transcript's rows in the order of the window query, which is never decreasing.
 */
module SessionGrouping {
  import opened Options

  /** Microseconds, the resolution of a `timestamptz`. */
  type Micros = int

  /** Thirty minutes. */
  const GAP: Micros := 30 * 60 * 1_000_000

  ghost predicate Nondecreasing(ats: seq<Micros>) {
    forall i, j :: 0 <= i < j < |ats| ==> ats[i] <= ats[j]
  }

  /** The CASE over `lag(created_at)`: whether row `i` opens a session. */
  predicate Opens(ats: seq<Micros>, i: nat)
    requires i < |ats|
  {
    i == 0 || ats[i] - ats[i - 1] >= GAP
  }

  /** The running `sum(opens)`, up to and including row `i`. */
  function Number(ats: seq<Micros>, i: nat): (n: nat)
    requires i < |ats|
    ensures 1 <= n <= i + 1
  {
    (if i == 0 then 0 else Number(ats, i - 1)) + (if Opens(ats, i) then 1 else 0)
  }

  /** How many sessions the timeline has: the last running total. */
  function SessionCount(ats: seq<Micros>): nat {
    if |ats| == 0 then 0 else Number(ats, |ats| - 1)
  }

  /** `min(created_at)` over the rows of session `k` among the first `n` rows. */
  function MinAt(ats: seq<Micros>, k: nat, n: nat): Option<Micros>
    requires n <= |ats|
  {
    if n == 0 then None
    else
      var least := MinAt(ats, k, n - 1);
      if Number(ats, n - 1) != k then least
      else if least.None? || ats[n - 1] < least.value then Some(ats[n - 1]) else least
  }

  /** `max(created_at)` over the rows of session `k` among the first `n` rows. */
  function MaxAt(ats: seq<Micros>, k: nat, n: nat): Option<Micros>
    requires n <= |ats|
  {
    if n == 0 then None
    else
      var greatest := MaxAt(ats, k, n - 1);
      if Number(ats, n - 1) != k then greatest
      else if greatest.None? || ats[n - 1] > greatest.value then Some(ats[n - 1]) else greatest
  }

  /** The window query in one pass: a running total that grows where a row opens a session. */
  method NumberInOnePass(ats: seq<Micros>) returns (numbers: seq<nat>)
    ensures |numbers| == |ats|
    ensures forall i {:trigger numbers[i]} :: 0 <= i < |ats| ==> numbers[i] == Number(ats, i)
  {
    numbers := [];
    var total := 0;
    for i := 0 to |ats|
      invariant |numbers| == i
      invariant forall j {:trigger numbers[j]} :: 0 <= j < i ==> numbers[j] == Number(ats, j)
      invariant total == if i == 0 then 0 else Number(ats, i - 1)
    {
      if i == 0 || ats[i] - ats[i - 1] >= GAP {
        total := total + 1;
      }
      numbers := numbers + [total];
    }
  }

  // ---------------------------------------------------------------------------------------
  // Sessions are the connected components of "less than the gap apart"
  // ---------------------------------------------------------------------------------------

  predicate Near(ats: seq<Micros>, i: nat, j: nat)
    requires i < |ats| && j < |ats|
  {
    -GAP < ats[i] - ats[j] < GAP
  }

  /** A chain of rows from `i` to `j` whose every hop is shorter than the gap. */
  ghost predicate Chain(ats: seq<Micros>, path: seq<nat>, i: nat, j: nat) {
    && |path| > 0 && path[0] == i && path[|path| - 1] == j
    && (forall p :: 0 <= p < |path| ==> path[p] < |ats|)
    && (forall p :: 0 <= p < |path| - 1 ==> Near(ats, path[p], path[p + 1]))
  }

  /** Numbers never decrease, and grow across a stretch of rows only where one of them opens. */
  lemma {:induction false} NumberGrows(ats: seq<Micros>, i: nat, j: nat)
    requires i <= j < |ats|
    ensures Number(ats, i) <= Number(ats, j)
    ensures Number(ats, i) == Number(ats, j) <==> forall p :: i < p <= j ==> !Opens(ats, p)
  {
    if i < j {
      NumberGrows(ats, i, j - 1);
    }
  }

  lemma {:induction false} NearSharesNumber(ats: seq<Micros>, i: nat, j: nat)
    requires Nondecreasing(ats) && i < |ats| && j < |ats| && Near(ats, i, j)
    ensures Number(ats, i) == Number(ats, j)
  {
    var a, b := if i <= j then i else j, if i <= j then j else i;
    forall p | a < p <= b ensures !Opens(ats, p) {
      assert ats[a] <= ats[p - 1] && ats[p] <= ats[b];
    }
    NumberGrows(ats, a, b);
  }

  lemma {:induction false} ChainSharesNumber(ats: seq<Micros>, path: seq<nat>, i: nat, j: nat)
    requires Nondecreasing(ats) && Chain(ats, path, i, j)
    ensures i < |ats| && j < |ats| && Number(ats, i) == Number(ats, j)
    decreases |path|
  {
    if |path| > 1 {
      var init := path[..|path| - 1];
      ChainSharesNumber(ats, init, i, init[|init| - 1]);
      assert Near(ats, path[|path| - 2], path[|path| - 1]);
      NearSharesNumber(ats, path[|path| - 2], j);
    }
  }

  lemma {:induction false} SharedNumberHasChain(ats: seq<Micros>, i: nat, j: nat) returns (path: seq<nat>)
    requires Nondecreasing(ats) && i <= j < |ats| && Number(ats, i) == Number(ats, j)
    ensures Chain(ats, path, i, j)
    decreases j
  {
    if i == j {
      path := [i];
    } else {
      NumberGrows(ats, i, j);
      NumberGrows(ats, i, j - 1);
      var init := SharedNumberHasChain(ats, i, j - 1);
      assert !Opens(ats, j) && ats[j - 1] <= ats[j];
      path := init + [j];
    }
  }

  lemma ChainReverses(ats: seq<Micros>, path: seq<nat>, i: nat, j: nat) returns (back: seq<nat>)
    requires Chain(ats, path, i, j)
    ensures Chain(ats, back, j, i)
  {
    back := seq(|path|, p requires 0 <= p < |path| => path[|path| - 1 - p]);
    forall p | 0 <= p < |back| - 1 ensures Near(ats, back[p], back[p + 1]) {
      assert Near(ats, path[|path| - 2 - p], path[|path| - 1 - p]);
    }
  }

  /** Two rows share a session number exactly when a chain of short hops joins them. */
  lemma SessionsAreComponents(ats: seq<Micros>, i: nat, j: nat)
    requires Nondecreasing(ats) && i < |ats| && j < |ats|
    ensures Number(ats, i) == Number(ats, j) <==> exists path :: Chain(ats, path, i, j)
  {
    if Number(ats, i) == Number(ats, j) {
      if i <= j {
        var path := SharedNumberHasChain(ats, i, j);
      } else {
        var path := SharedNumberHasChain(ats, j, i);
        var back := ChainReverses(ats, path, j, i);
      }
    }
    if path :| Chain(ats, path, i, j) {
      ChainSharesNumber(ats, path, i, j);
    }
  }

  // ---------------------------------------------------------------------------------------
  // Extent of a session: its first and last activity
  // ---------------------------------------------------------------------------------------

  /** What `min` and `max` compute: bounds of the session's rows, both of them attained. */
  lemma {:induction false} ExtentOfPrefix(ats: seq<Micros>, k: nat, n: nat, r: nat)
      returns (first: nat, last: nat)
    requires r < n <= |ats| && Number(ats, r) == k
    ensures MinAt(ats, k, n).Some? && MaxAt(ats, k, n).Some?
    ensures MinAt(ats, k, n).value <= ats[r] <= MaxAt(ats, k, n).value
    ensures first < n && Number(ats, first) == k && MinAt(ats, k, n) == Some(ats[first])
    ensures last < n && Number(ats, last) == k && MaxAt(ats, k, n) == Some(ats[last])
  {
    if r < n - 1 {
      first, last := ExtentOfPrefix(ats, k, n - 1, r);
    } else {
      EmptyOrInhabited(ats, k, n - 1);
      if MinAt(ats, k, n - 1).Some? {
        var q :| 0 <= q < n - 1 && Number(ats, q) == k;
        first, last := ExtentOfPrefix(ats, k, n - 1, q);
      }
    }
    if Number(ats, n - 1) == k && MinAt(ats, k, n) == Some(ats[n - 1]) { first := n - 1; }
    if Number(ats, n - 1) == k && MaxAt(ats, k, n) == Some(ats[n - 1]) { last := n - 1; }
  }

  lemma {:induction false} EmptyOrInhabited(ats: seq<Micros>, k: nat, n: nat)
    requires n <= |ats|
    ensures MinAt(ats, k, n).Some? <==> MaxAt(ats, k, n).Some?
    ensures MinAt(ats, k, n).Some? ==> exists q :: 0 <= q < n && Number(ats, q) == k
    ensures forall q :: 0 <= q < n && Number(ats, q) == k ==> MinAt(ats, k, n).Some?
  {
    if n > 0 {
      EmptyOrInhabited(ats, k, n - 1);
      if Number(ats, n - 1) != k && MinAt(ats, k, n).Some? {
        var q :| 0 <= q < n - 1 && Number(ats, q) == k;
        assert 0 <= q < n;
      }
    }
  }

  /** Sessions are numbered 1..n without a hole: each number has a row that opens it. */
  lemma {:induction false} EveryNumberIsUsed(ats: seq<Micros>, k: nat, n: nat) returns (i: nat)
    requires n < |ats| && 1 <= k <= Number(ats, n)
    ensures i <= n && Number(ats, i) == k && Opens(ats, i)
  {
    if Number(ats, n) == k && Opens(ats, n) {
      i := n;
    } else {
      i := EveryNumberIsUsed(ats, k, n - 1);
    }
  }

  /** A session as `_sessions` records it. */
  ghost predicate Extent(ats: seq<Micros>, k: nat, lo: Micros, hi: Micros) {
    MinAt(ats, k, |ats|) == Some(lo) && MaxAt(ats, k, |ats|) == Some(hi)
  }

  /** Every number from 1 to the count has rows, so every session has an extent. */
  lemma {:induction false} SessionHasExtent(ats: seq<Micros>, k: nat)
    returns (lo: Micros, hi: Micros, first: nat, last: nat)
    requires 1 <= k <= SessionCount(ats)
    ensures Extent(ats, k, lo, hi) && lo <= hi
    ensures first < |ats| && Number(ats, first) == k && ats[first] == lo
    ensures last < |ats| && Number(ats, last) == k && ats[last] == hi
  {
    var i := EveryNumberIsUsed(ats, k, |ats| - 1);
    first, last := ExtentOfPrefix(ats, k, |ats|, i);
    lo, hi := ats[first], ats[last];
  }

  lemma ExtentExists(ats: seq<Micros>, k: nat)
    requires 1 <= k <= SessionCount(ats)
    ensures MinAt(ats, k, |ats|).Some? && MaxAt(ats, k, |ats|).Some?
  {
    var _, _, _, _ := SessionHasExtent(ats, k);
  }

  /** A row belongs to session `k` exactly when its time lies between the session's first and last. */
  lemma ExtentDecidesMembership(ats: seq<Micros>, k: nat, lo: Micros, hi: Micros, i: nat)
    requires Nondecreasing(ats) && Extent(ats, k, lo, hi) && i < |ats|
    ensures Number(ats, i) == k <==> lo <= ats[i] <= hi
  {
    EmptyOrInhabited(ats, k, |ats|);
    var r :| 0 <= r < |ats| && Number(ats, r) == k;
    var a, b := ExtentOfPrefix(ats, k, |ats|, r);
    if Number(ats, i) == k {
      var _, _ := ExtentOfPrefix(ats, k, |ats|, i);
    } else if lo <= ats[i] <= hi {
      if i < a {
        NearSharesNumber(ats, i, a);
      } else if b < i {
        NearSharesNumber(ats, i, b);
      } else {
        NumberGrows(ats, a, i);
        NumberGrows(ats, i, b);
      }
    }
  }

  /** Each session starts at least the gap after the last activity of the one before. */
  lemma SessionsAreSeparated(ats: seq<Micros>, k: nat, lo: Micros, hi: Micros, lo': Micros, hi': Micros)
    requires Nondecreasing(ats) && k > 0 && Extent(ats, k, lo, hi) && Extent(ats, k + 1, lo', hi')
    ensures lo' - hi >= GAP
  {
    EmptyOrInhabited(ats, k, |ats|);
    EmptyOrInhabited(ats, k + 1, |ats|);
    var r :| 0 <= r < |ats| && Number(ats, r) == k;
    var r' :| 0 <= r' < |ats| && Number(ats, r') == k + 1;
    var _, last := ExtentOfPrefix(ats, k, |ats|, r);
    var first, _ := ExtentOfPrefix(ats, k + 1, |ats|, r');
    if first < last {
      NumberGrows(ats, first, last);
    } else if lo' - hi < GAP {
      NearSharesNumber(ats, last, first);
    }
  }

  /** Each session is a contiguous stretch of the timeline. */
  lemma {:induction false} SessionsAreContiguous(ats: seq<Micros>, i: nat, p: nat, j: nat)
    requires i <= p <= j < |ats| && Number(ats, i) == Number(ats, j)
    ensures Number(ats, p) == Number(ats, i)
  {
    NumberGrows(ats, i, p);
    NumberGrows(ats, p, j);
  }
}
