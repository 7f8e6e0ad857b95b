/** A bounded cache of nonces and the unbounded history it stands for. */
module NonceCache {
  import opened Sequences

  const NONCE_CAP := 512

  /** One frame as the cache sees it: its nonce, and whether time and signature were right. */
  datatype Call = Call(nonce: string, authentic: bool)

  predicate Accepts(seen: seq<string>, c: Call) {
    c.authentic && c.nonce !in seen
  }

  /** Kept nonces after one more: appended, and the oldest dropped when there are too many. */
  function Remember(seen: seq<string>, nonce: string): seq<string> {
    if |seen| + 1 > NONCE_CAP then (seen + [nonce])[1..] else seen + [nonce]
  }

  function After(seen: seq<string>, c: Call): seq<string> {
    if Accepts(seen, c) then Remember(seen, c.nonce) else seen
  }

  function CacheAfter(seen: seq<string>, run: seq<Call>): seq<string>
    decreases |run|
  {
    if run == [] then seen else CacheAfter(After(seen, run[0]), run[1..])
  }

  /** The accepted nonces of a run, oldest first. */
  function Accepted(seen: seq<string>, run: seq<Call>): seq<string>
    decreases |run|
  {
    if run == [] then []
    else (if Accepts(seen, run[0]) then [run[0].nonce] else []) + Accepted(After(seen, run[0]), run[1..])
  }

  lemma LastHolds(h: seq<string>, n: nat, i: nat)
    requires i < |h| && |h| - i <= n
    ensures h[i] in Last(h, n)
  {
    assert h[i] == Last(h, n)[i - (|h| - |Last(h, n)|)];
  }

  lemma LastComesFrom(h: seq<string>, n: nat, x: string) returns (i: nat)
    requires x in Last(h, n)
    ensures i < |h| && h[i] == x && |h| - i <= n
  {
    var k :| 0 <= k < |Last(h, n)| && Last(h, n)[k] == x;
    i := |h| - |Last(h, n)| + k;
  }

  predicate NoDuplicates(s: seq<string>) {
    forall i, j | 0 <= i < j < |s| :: s[i] != s[j]
  }

  /** Nothing comes back while it is among the last `n`. */
  predicate Spaced(h: seq<string>, n: nat) {
    forall i, j | 0 <= i < j < |h| && h[i] == h[j] :: j - i > n
  }

  lemma RememberIsLast(h: seq<string>, nonce: string)
    ensures Remember(Last(h, NONCE_CAP), nonce) == Last(h + [nonce], NONCE_CAP)
  {
  }

  lemma FreshKeepsSpaced(h: seq<string>, nonce: string, n: nat)
    requires Spaced(h, n) && nonce !in Last(h, n)
    ensures Spaced(h + [nonce], n)
  {
    forall i | 0 <= i < |h| && h[i] == nonce ensures |h| - i > n {
      if |h| - i <= n { LastHolds(h, n, i); }
    }
  }

  lemma SpacedLastIsDistinct(h: seq<string>, n: nat)
    requires Spaced(h, n)
    ensures NoDuplicates(Last(h, n))
  {
    var c := Last(h, n);
    var skip := |h| - |c|;
    forall i, j | 0 <= i < j < |c| ensures c[i] != c[j] {
      assert c[i] == h[skip + i] && c[j] == h[skip + j];
    }
  }

  lemma {:induction false} RunFrom(h: seq<string>, seen: seq<string>, run: seq<Call>)
    requires seen == Last(h, NONCE_CAP) && Spaced(h, NONCE_CAP)
    ensures CacheAfter(seen, run) == Last(h + Accepted(seen, run), NONCE_CAP)
    ensures Spaced(h + Accepted(seen, run), NONCE_CAP)
    decreases |run|
  {
    if run == [] {
      assert h + [] == h;
    } else if Accepts(seen, run[0]) {
      RememberIsLast(h, run[0].nonce);
      FreshKeepsSpaced(h, run[0].nonce, NONCE_CAP);
      OneMore(h, seen, run);
      RunFrom(h + [run[0].nonce], After(seen, run[0]), run[1..]);
    } else {
      OneLess(seen, run);
      RunFrom(h, seen, run[1..]);
    }
  }

  lemma OneMore(h: seq<string>, seen: seq<string>, run: seq<Call>)
    requires run != [] && Accepts(seen, run[0])
    ensures h + Accepted(seen, run) == h + [run[0].nonce] + Accepted(After(seen, run[0]), run[1..])
  {
    var rest := Accepted(After(seen, run[0]), run[1..]);
    assert Accepted(seen, run) == [run[0].nonce] + rest;
  }

  lemma OneLess(seen: seq<string>, run: seq<Call>)
    requires run != [] && !Accepts(seen, run[0])
    ensures Accepted(seen, run) == Accepted(seen, run[1..])
  {
    var rest := Accepted(seen, run[1..]);
    assert [] + rest == rest;
  }

  /** Over any run the bounded cache is the end of the whole history: it holds exactly the last 512
      accepted nonces in order and no nonce twice, and a nonce is accepted again only after at least
      512 others. */
  lemma CacheRefinesHistory(run: seq<Call>)
    ensures CacheAfter([], run) == Last(Accepted([], run), 512)
    ensures NoDuplicates(CacheAfter([], run))
    ensures Spaced(Accepted([], run), 512)
  {
    RunFrom([], [], run);
    assert [] + Accepted([], run) == Accepted([], run);
    SpacedLastIsDistinct(Accepted([], run), NONCE_CAP);
  }

  /** The bound is the cache's: an authentic frame gets in exactly when its nonce has not been
      accepted among the last 512, so an older one returns. */
  lemma ForgottenNoncesReturn(run: seq<Call>, nonce: string)
    ensures Accepts(CacheAfter([], run), Call(nonce, true))
       <==> forall i | 0 <= i < |Accepted([], run)| && Accepted([], run)[i] == nonce :: |Accepted([], run)| - i > 512
  {
    CacheRefinesHistory(run);
    var h := Accepted([], run);
    if nonce in Last(h, NONCE_CAP) {
      var i := LastComesFrom(h, NONCE_CAP, nonce);
    }
    forall i | 0 <= i < |h| && h[i] == nonce && nonce !in Last(h, NONCE_CAP) ensures |h| - i > NONCE_CAP {
      if |h| - i <= NONCE_CAP { LastHolds(h, NONCE_CAP, i); }
    }
  }
}
