/** The command palette's search (fuzzyFilter in CommandPalette.tsx): which items it keeps, and in what
    order. Query and keys are trimmed and in lower case already. */
module Palette {

  const MAX_RESULTS := 200

  // ── Subsequences ────────────────────────────────────────────────────────────

  /** The scan takes whole characters of the key and 16-bit units of the query, so a character outside
      the Basic Multilingual Plane equals no unit. */
  predicate Same(c: char, d: char) {
    c == d && c < 0x1_0000 as char
  }

  /** Places in the key, one behind the other, that hold the query's characters. */
  predicate Embeds(f: seq<nat>, q: string, hay: string) {
    && |f| == |q|
    && (forall j | 0 <= j < |f| :: f[j] < |hay| && Same(hay[f[j]], q[j]))
    && (forall j, k | 0 <= j < k < |f| :: f[j] < f[k])
  }

  lemma EmbedsBasic(f: seq<nat>, q: string, hay: string, j: nat)
    requires Embeds(f, q, hay) && j < |q|
    ensures f[j] < |hay| && q[j] < 0x1_0000 as char
  {
    assert Same(hay[f[j]], q[j]);
  }

  ghost predicate IsSubsequence(q: string, hay: string) {
    exists f :: Embeds(f, q, hay)
  }

  /** The greedy scan misses nothing: it reaches the end of the query exactly if there is any way to find
      it in the key. */
  method Scan(q: string, hay: string) returns (found: bool)
    requires q != ""
    ensures found <==> IsSubsequence(q, hay)
  {
    var i := 0;
    ghost var f: seq<nat> := [];
    for k := 0 to |hay|
      invariant 0 <= i < |q| && Embeds(f, q[..i], hay[..k])
      invariant forall g | Embeds(g, q, hay) :: forall j | 0 <= j < |g| && g[j] < k :: j < i
    {
      ghost var before := i;
      if Same(hay[k], q[i]) {
        f := f + [k];
        i := i + 1;
      }
      forall g | Embeds(g, q, hay) ensures forall j | 0 <= j < |g| && g[j] < k + 1 :: j < i {
        forall j | 0 <= j < |g| && g[j] < k + 1 ensures j < i {
          if g[j] == k && j > 0 { assert g[j - 1] < k; }
        }
      }
      if i == |q| {
        assert q[..i] == q && Embeds(f, q, hay);
        return true;
      }
    }
    ghost var last: nat := |q| - 1;
    forall g ensures !Embeds(g, q, hay) {
      if Embeds(g, q, hay) { EmbedsBasic(g, q, hay, last); }
    }
    return false;
  }

  // ── Scores ──────────────────────────────────────────────────────────────────

  predicate OccursAt(q: string, hay: string, p: nat) {
    p + |q| <= |hay| && hay[p..p + |q|] == q
  }

  predicate IsSubstring(q: string, hay: string) {
    exists p | 0 <= p <= |hay| :: OccursAt(q, hay, p)
  }

  /** A substring is what stands somewhere in the key with anything before and behind it. */
  lemma SubstringExactly(q: string, hay: string)
    ensures IsSubstring(q, hay) <==> exists p | 0 <= p <= |hay| :: exists rest :: hay == hay[..p] + q + rest
  {
    forall p, rest | 0 <= p <= |hay| && hay == hay[..p] + q + rest ensures OccursAt(q, hay, p) {
      assert hay[p..p + |q|] == q;
    }
    forall p | 0 <= p <= |hay| && OccursAt(q, hay, p) ensures exists rest :: hay == hay[..p] + q + rest {
      assert hay == hay[..p] + q + hay[p + |q|..];
    }
  }

  /** `hay.indexOf(q)`, in characters. */
  function IndexOf(q: string, hay: string, from: nat): (p: nat)
    requires from <= |hay| && exists p | from <= p <= |hay| :: OccursAt(q, hay, p)
    ensures from <= p && OccursAt(q, hay, p) && forall k | from <= k < p :: !OccursAt(q, hay, k)
    decreases |hay| - from
  {
    if OccursAt(q, hay, from) then from else IndexOf(q, hay, from + 1)
  }

  /** Lengths as JavaScript counts them. */
  function Units(s: string): (n: nat)
    ensures n >= |s|
  {
    if s == "" then 0 else (if s[0] < 0x1_0000 as char then 1 else 2) + Units(s[1..])
  }

  /** One unit for a character of the Basic Multilingual Plane and two for any other, added up. */
  lemma {:induction false} UnitsAddUp(s: string, c: char, t: string)
    ensures Units("") == 0 && Units([c]) == (if c as int <= 0xFFFF then 1 else 2)
    ensures Units(s + t) == Units(s) + Units(t)
  {
    assert [c][1..] == "";
    if s == "" {
      assert s + t == t;
    } else {
      assert (s + t)[1..] == s[1..] + t;
      UnitsAddUp(s[1..], c, t);
    }
  }

  lemma {:induction false} UnitsGrow(s: string, k: nat)
    requires k < |s|
    ensures Units(s[..k]) < Units(s)
  {
    if k > 0 {
      UnitsGrow(s[1..], k - 1);
      assert s[..k][1..] == s[1..][..k - 1];
    } else {
      assert s[..k] == "";
    }
  }

  /** Between one and two for a substring, the more the earlier it stands. */
  function SubstringScore(q: string, hay: string): (r: real)
    requires q != "" && IsSubstring(q, hay)
    ensures 1.0 < r <= 2.0
  {
    var p := IndexOf(q, hay, 0);
    UnitsGrow(hay, p);
    RatioBelowOne(Units(hay[..p]), Units(hay));
    2.0 - Units(hay[..p]) as real / Units(hay) as real
  }

  /** The score of a substring, from its first occurrence: two at the beginning of the key, and less by the
      part of the key, in 16-bit units, that stands before it. */
  lemma SubstringScoreIs(q: string, hay: string, p: nat)
    requires q != "" && OccursAt(q, hay, p) && forall k | 0 <= k < p :: !OccursAt(q, hay, k)
    ensures Units(hay) > 0 && ScoreOf(q, hay) == 2.0 - Units(hay[..p]) as real / Units(hay) as real
  {
    assert IsSubstring(q, hay);
    assert IndexOf(q, hay, 0) == p;
  }

  /** So in keys of one length the earlier occurrence scores higher. */
  lemma EarlierScoresHigher(q: string, hay: string, p: nat, hay': string, p': nat)
    requires q != "" && Units(hay) == Units(hay')
    requires OccursAt(q, hay, p) && forall k | 0 <= k < p :: !OccursAt(q, hay, k)
    requires OccursAt(q, hay', p') && forall k | 0 <= k < p' :: !OccursAt(q, hay', k)
    requires Units(hay[..p]) < Units(hay'[..p'])
    ensures ScoreOf(q, hay) > ScoreOf(q, hay')
  {
    SubstringScoreIs(q, hay, p);
    SubstringScoreIs(q, hay', p');
    RatioGrows(Units(hay[..p]), Units(hay'[..p']), Units(hay));
  }

  lemma RatioGrows(a: nat, b: nat, n: nat)
    requires a < b && n > 0
    ensures a as real / n as real < b as real / n as real
  {
  }

  lemma RatioBelowOne(a: nat, b: nat)
    requires a < b
    ensures 0.0 <= a as real / b as real < 1.0
  {
  }

  ghost function ScoreOf(q: string, hay: string): real
    requires q != ""
  {
    if IsSubstring(q, hay) then SubstringScore(q, hay)
    else if IsSubsequence(q, hay) then 1.0
    else -1.0
  }

  method Score(q: string, hay: string) returns (r: real)
    requires q != ""
    ensures r == ScoreOf(q, hay)
  {
    if IsSubstring(q, hay) { return SubstringScore(q, hay); }
    var found := Scan(q, hay);
    r := if found then 1.0 else -1.0;
  }

  /** An item is kept exactly if its key contains the query, or the query is spread over it. */
  lemma KeptExactly(q: string, hay: string)
    requires q != ""
    ensures ScoreOf(q, hay) >= 0.0 <==> IsSubstring(q, hay) || IsSubsequence(q, hay)
    ensures ScoreOf(q, hay) > 1.0 <==> IsSubstring(q, hay)
  {
  }

  predicate AllBasic(s: string) {
    forall c | c in s :: c < 0x1_0000 as char
  }

  /** Within the Basic Multilingual Plane a substring is a subsequence, so that alone decides. */
  lemma BasicSubstringIsSubsequence(q: string, hay: string)
    requires IsSubstring(q, hay) && AllBasic(q)
    ensures IsSubsequence(q, hay)
  {
    var p :| 0 <= p <= |hay| && OccursAt(q, hay, p);
    var f := seq(|q|, j => p + j);
    forall j | 0 <= j < |f| ensures f[j] < |hay| && Same(hay[f[j]], q[j]) {
      assert hay[p..p + |q|][j] == q[j] && q[j] in q;
    }
    assert Embeds(f, q, hay);
  }

  /** Outside it nothing is ever spread: such a query finds only what contains it in one piece. */
  lemma OtherPlanesOnlyInOnePiece(q: string, hay: string)
    requires !AllBasic(q)
    ensures !IsSubsequence(q, hay)
  {
    var c :| c in q && c >= 0x1_0000 as char;
    var j :| 0 <= j < |q| && q[j] == c;
    forall f ensures !Embeds(f, q, hay) {
      if Embeds(f, q, hay) { EmbedsBasic(f, q, hay, j); }
    }
  }

  /** Its characters in order, with anything in between: what a searcher would expect to be found. */
  predicate Spreads(f: seq<nat>, q: string, hay: string) {
    && |f| == |q|
    && (forall j | 0 <= j < |f| :: f[j] < |hay| && hay[f[j]] == q[j])
    && (forall j, k | 0 <= j < k < |f| :: f[j] < f[k])
  }

  ghost predicate IsSpread(q: string, hay: string) {
    exists f :: Spreads(f, q, hay)
  }

  /** So what the search finds is exactly what contains the query, and what a query within the plane is
      spread over. */
  lemma SpreadIsFoundExactly(q: string, hay: string)
    requires q != ""
    ensures IsSubsequence(q, hay) <==> IsSpread(q, hay) && AllBasic(q)
    ensures ScoreOf(q, hay) >= 0.0 <==> IsSubstring(q, hay) || (IsSpread(q, hay) && AllBasic(q))
  {
    if IsSubsequence(q, hay) {
      var f :| Embeds(f, q, hay);
      assert Spreads(f, q, hay);
      if !AllBasic(q) {
        OtherPlanesOnlyInOnePiece(q, hay);
      }
    }
    if IsSpread(q, hay) && AllBasic(q) {
      var f :| Spreads(f, q, hay);
      forall j | 0 <= j < |f| ensures Same(hay[f[j]], q[j]) {
        assert q[j] in q;
      }
      assert Embeds(f, q, hay);
    }
  }

  lemma NotInOnePiece(c: char, b: char, d: char)
    requires b != c && b != d
    ensures !IsSubstring([c, d], [c, b, d])
  {
    var q, hay := [c, d], [c, b, d];
    forall p | 0 <= p <= |hay| ensures !OccursAt(q, hay, p) {
      if p + 2 <= |hay| {
        var piece := hay[p..p + 2];
        assert piece[0] == hay[p] && piece[1] == hay[p + 1];
        assert piece[0] != q[0] || piece[1] != q[1];
      }
    }
  }

  /** It happens: any character outside the plane and another one, in a key that has something else
      between them. */
  lemma SpreadCanBeMissed(c: char, b: char, d: char)
    requires c >= 0x1_0000 as char && b != c && b != d
    ensures IsSpread([c, d], [c, b, d]) && ScoreOf([c, d], [c, b, d]) < 0.0
  {
    assert Spreads([0, 2], [c, d], [c, b, d]);
    assert [c, d][0] == c;
    SpreadIsFoundExactly([c, d], [c, b, d]);
    NotInOnePiece(c, b, d);
  }

  // ── The list ────────────────────────────────────────────────────────────────

  /** An item by its place in the list, with its score. */
  datatype Scored = Scored(item: nat, score: real)

  function Insert(x: Scored, xs: seq<Scored>): seq<Scored> {
    if xs == [] then [x]
    else if x.score < xs[0].score then [xs[0]] + Insert(x, xs[1..])
    else [x] + xs
  }

  /** `sort((a, b) => b.score - a.score)`: descending and stable. */
  function SortDescending(xs: seq<Scored>): seq<Scored> {
    if xs == [] then [] else Insert(xs[0], SortDescending(xs[1..]))
  }

  predicate IsDescending(xs: seq<Scored>) {
    forall j, k | 0 <= j < k < |xs| :: xs[j].score >= xs[k].score
  }

  /** Those with one score, in their order. */
  function WithScore(xs: seq<Scored>, v: real): seq<Scored> {
    if xs == [] then [] else (if xs[0].score == v then [xs[0]] else []) + WithScore(xs[1..], v)
  }

  lemma {:induction false} InsertMembers(x: Scored, xs: seq<Scored>)
    ensures |Insert(x, xs)| == |xs| + 1 && forall y | y in Insert(x, xs) :: y == x || y in xs
  {
    if xs != [] && x.score < xs[0].score {
      InsertMembers(x, xs[1..]);
      assert forall y | y in xs[1..] :: y in xs;
    }
  }

  lemma ConsDescending(a: Scored, rest: seq<Scored>)
    requires IsDescending(rest) && forall y | y in rest :: a.score >= y.score
    ensures IsDescending([a] + rest)
  {
  }

  lemma {:induction false} InsertDescending(x: Scored, xs: seq<Scored>)
    requires IsDescending(xs)
    ensures IsDescending(Insert(x, xs))
  {
    if xs != [] && x.score < xs[0].score {
      InsertDescending(x, xs[1..]);
      InsertMembers(x, xs[1..]);
      forall y | y in xs[1..] ensures xs[0].score >= y.score {
        var k :| 0 <= k < |xs[1..]| && xs[1..][k] == y;
        assert xs[k + 1] == y;
      }
      ConsDescending(xs[0], Insert(x, xs[1..]));
    }
  }

  lemma WithScoreCons(a: Scored, rest: seq<Scored>, v: real)
    ensures WithScore([a] + rest, v) == (if a.score == v then [a] else []) + WithScore(rest, v)
  {
    assert ([a] + rest)[1..] == rest;
  }

  // Passing only those with another score, the new one stays before its equals.
  lemma {:induction false} InsertStable(x: Scored, xs: seq<Scored>, v: real)
    ensures WithScore(Insert(x, xs), v) == (if x.score == v then [x] else []) + WithScore(xs, v)
  {
    if xs != [] && x.score < xs[0].score {
      InsertStable(x, xs[1..], v);
      WithScoreCons(xs[0], Insert(x, xs[1..]), v);
    } else {
      WithScoreCons(x, xs, v);
    }
  }

  /** The order is by score, and among equals the order of the list; nothing appears or disappears. */
  lemma {:induction false} SortIsStable(xs: seq<Scored>, v: real)
    ensures IsDescending(SortDescending(xs)) && |SortDescending(xs)| == |xs|
    ensures WithScore(SortDescending(xs), v) == WithScore(xs, v)
  {
    if xs == [] {
    } else {
      SortIsStable(xs[1..], v);
      var rest := SortDescending(xs[1..]);
      InsertMembers(xs[0], rest);
      InsertDescending(xs[0], rest);
      InsertStable(xs[0], rest, v);
    }
  }

  function Take(xs: seq<Scored>, n: nat): seq<Scored> {
    if |xs| <= n then xs else xs[..n]
  }

  function Items(xs: seq<Scored>): seq<nat> {
    if xs == [] then [] else [xs[0].item] + Items(xs[1..])
  }

  ghost function Kept(keys: seq<string>, q: string): seq<Scored>
    requires q != ""
  {
    if keys == [] then []
    else
      var n := |keys| - 1;
      Kept(keys[..n], q) + (if ScoreOf(q, keys[n]) >= 0.0 then [Scored(n, ScoreOf(q, keys[n]))] else [])
  }

  function FirstItems(n: nat): seq<nat> {
    seq(n, i requires i >= 0 => i)
  }

  // ── What is listed ──────────────────────────────────────────────────────────

  /** The places of the items that match. */
  ghost function Matches(keys: seq<string>, q: string): set<nat>
    requires q != ""
  {
    set n: nat | n < |keys| && (IsSubstring(q, keys[n]) || IsSubsequence(q, keys[n]))
  }

  /** A higher score comes first, and among equals the earlier item. */
  ghost predicate Before(keys: seq<string>, q: string, m: nat, n: nat)
    requires q != "" && m < |keys| && n < |keys|
  {
    ScoreOf(q, keys[m]) > ScoreOf(q, keys[n]) || (ScoreOf(q, keys[m]) == ScoreOf(q, keys[n]) && m < n)
  }

  /** The answer to a query: up to two hundred matching items in that order, and whatever matches but is
      not listed would come behind all that is. */
  ghost predicate IsAnswer(keys: seq<string>, q: string, out: seq<nat>)
    requires q != ""
  {
    && |out| == (if |Matches(keys, q)| <= 200 then |Matches(keys, q)| else 200)
    && (forall j | 0 <= j < |out| :: out[j] < |keys| && out[j] in Matches(keys, q))
    && (forall j, k | 0 <= j < k < |out| :: Before(keys, q, out[j], out[k]))
    && (forall j, n | 0 <= j < |out| && n in Matches(keys, q) && n !in out :: Before(keys, q, out[j], n))
    && (|Matches(keys, q)| <= 200 ==> forall n | n in Matches(keys, q) :: n in out)
  }

  predicate Ordered(xs: seq<Scored>) {
    forall j, k | 0 <= j < k < |xs| ::
      xs[j].score > xs[k].score || (xs[j].score == xs[k].score && xs[j].item < xs[k].item)
  }

  predicate Ascending(xs: seq<Scored>) {
    forall j, k | 0 <= j < k < |xs| :: xs[j].item < xs[k].item
  }

  lemma OrderedCons(a: Scored, rest: seq<Scored>)
    requires Ordered(rest)
    requires forall y | y in rest :: a.score > y.score || (a.score == y.score && a.item < y.item)
    ensures Ordered([a] + rest)
  {
  }

  lemma {:induction false} InsertOrdered(x: Scored, xs: seq<Scored>)
    requires Ordered(xs) && forall y | y in xs :: x.item < y.item
    ensures Ordered(Insert(x, xs))
  {
    if xs != [] && x.score < xs[0].score {
      InsertOrdered(x, xs[1..]);
      InsertMembers(x, xs[1..]);
      forall y | y in xs[1..] ensures xs[0].score > y.score || (xs[0].score == y.score && xs[0].item < y.item) {
        var k :| 0 <= k < |xs[1..]| && xs[1..][k] == y;
        assert xs[k + 1] == y;
      }
      OrderedCons(xs[0], Insert(x, xs[1..]));
    } else {
      forall y | y in xs ensures x.score > y.score || (x.score == y.score && x.item < y.item) {
        var k :| 0 <= k < |xs| && xs[k] == y;
        assert k == 0 || xs[0].score >= xs[k].score;
      }
      OrderedCons(x, xs);
    }
  }

  lemma {:induction false} SortOrdered(xs: seq<Scored>)
    requires Ascending(xs)
    ensures Ordered(SortDescending(xs))
    ensures forall y | y in SortDescending(xs) :: y in xs
    ensures |SortDescending(xs)| == |xs|
  {
    if xs == [] {
    } else {
      SortOrdered(xs[1..]);
      var rest := SortDescending(xs[1..]);
      InsertMembers(xs[0], rest);
      forall y | y in rest ensures xs[0].item < y.item {
        var k :| 0 <= k < |xs[1..]| && xs[1..][k] == y;
        assert xs[k + 1] == y;
      }
      InsertOrdered(xs[0], rest);
    }
  }

  lemma {:induction false} KeptAscending(keys: seq<string>, q: string)
    requires q != ""
    ensures Ascending(Kept(keys, q)) && forall x | x in Kept(keys, q) :: x.item < |keys|
    ensures |Kept(keys, q)| == |Matches(keys, q)|
  {
    if keys == [] {
      assert Matches(keys, q) == {};
    } else {
      var m := |keys| - 1;
      KeptAscending(keys[..m], q);
      KeptExactly(q, keys[m]);
      MatchesMore(keys, q);
      var kept := Kept(keys[..m], q);
      assert forall i | 0 <= i < |kept| :: kept[i] in kept;
    }
  }

  lemma MatchesMore(keys: seq<string>, q: string)
    requires q != "" && keys != []
    ensures var m := |keys| - 1;
            && Matches(keys, q) == Matches(keys[..m], q)
                                   + (if IsSubstring(q, keys[m]) || IsSubsequence(q, keys[m]) then {m} else {})
            && m !in Matches(keys[..m], q)
  {
    var m := |keys| - 1;
    forall n: nat | n < m ensures n in Matches(keys, q) <==> n in Matches(keys[..m], q) {
      assert keys[..m][n] == keys[n];
    }
  }

  lemma {:induction false} ItemsAt(xs: seq<Scored>)
    ensures |Items(xs)| == |xs| && forall i | 0 <= i < |xs| :: Items(xs)[i] == xs[i].item
  {
    if xs == [] {
    } else {
      ItemsAt(xs[1..]);
    }
  }

  // Every match has its place in the sorted list, and every place is one of a match.
  lemma SortedMatches(keys: seq<string>, q: string)
    requires q != ""
    ensures var all := SortDescending(Kept(keys, q));
            && |all| == |Matches(keys, q)| && Ordered(all)
            && (forall x | x in all :: x.item in Matches(keys, q) && x.score == ScoreOf(q, keys[x.item]))
            && (forall n | n in Matches(keys, q) :: Scored(n, ScoreOf(q, keys[n])) in all)
  {
    var kept := Kept(keys, q);
    KeptAscending(keys, q);
    SortOrdered(kept);
    KeptIs(keys, q);
    forall x | x in SortDescending(kept) ensures x.item in Matches(keys, q) {
      KeptExactly(q, keys[x.item]);
    }
    forall n | n in Matches(keys, q) ensures Scored(n, ScoreOf(q, keys[n])) in SortDescending(kept) {
      KeptExactly(q, keys[n]);
      SortKeepsMembers(kept, Scored(n, ScoreOf(q, keys[n])));
    }
  }

  lemma AllInOrder(keys: seq<string>, q: string, all: seq<Scored>)
    requires q != "" && Ordered(all)
    requires forall x | x in all :: x.item in Matches(keys, q) && x.score == ScoreOf(q, keys[x.item])
    requires forall n | n in Matches(keys, q) :: Scored(n, ScoreOf(q, keys[n])) in all
    ensures |Items(all)| == |all| && forall n | n in Matches(keys, q) :: n in Items(all)
    ensures forall j | 0 <= j < |all| :: Items(all)[j] in Matches(keys, q)
    ensures forall j, k | 0 <= j < k < |all| :: Before(keys, q, Items(all)[j], Items(all)[k])
  {
    ItemsAt(all);
    forall n | n in Matches(keys, q) ensures n in Items(all) {
      var k :| 0 <= k < |all| && all[k] == Scored(n, ScoreOf(q, keys[n]));
      assert Items(all)[k] == n;
    }
    assert forall j | 0 <= j < |all| :: all[j] in all;
  }

  lemma ItemsOfTake(all: seq<Scored>)
    ensures Items(Take(all, MAX_RESULTS)) == Top(Items(all))
  {
    ItemsAt(all);
    ItemsAt(Take(all, MAX_RESULTS));
  }

  lemma ListIsAnswer(keys: seq<string>, q: string)
    requires q != ""
    ensures IsAnswer(keys, q, Items(Take(SortDescending(Kept(keys, q)), MAX_RESULTS)))
  {
    var all := SortDescending(Kept(keys, q));
    SortedMatches(keys, q);
    AllInOrder(keys, q, all);
    ItemsOfTake(all);
    TopIsAnswer(keys, q, Items(all));
  }

  function Top(order: seq<nat>): seq<nat> {
    if |order| <= 200 then order else order[..200]
  }

  // The beginning of the list of all matches in their order.
  lemma TopIsAnswer(keys: seq<string>, q: string, order: seq<nat>)
    requires q != "" && |order| == |Matches(keys, q)| && forall n | n in Matches(keys, q) :: n in order
    requires forall j | 0 <= j < |order| :: order[j] in Matches(keys, q)
    requires forall j, k | 0 <= j < k < |order| :: Before(keys, q, order[j], order[k])
    ensures IsAnswer(keys, q, Top(order))
  {
    var out := Top(order);
    forall j, n | 0 <= j < |out| && n in Matches(keys, q) && n !in out ensures Before(keys, q, out[j], n) {
      var k :| 0 <= k < |order| && order[k] == n;
      assert k >= |out|;
    }
  }

  /** A query has one answer. */
  lemma AnswerIsUnique(keys: seq<string>, q: string, out: seq<nat>, out': seq<nat>)
    requires q != "" && IsAnswer(keys, q, out) && IsAnswer(keys, q, out')
    ensures out == out'
  {
    AgreeUpTo(keys, q, out, out', |out|);
  }

  lemma {:induction false} AgreeUpTo(keys: seq<string>, q: string, out: seq<nat>, out': seq<nat>, n: nat)
    requires q != "" && IsAnswer(keys, q, out) && IsAnswer(keys, q, out') && n <= |out|
    ensures out[..n] == out'[..n]
  {
    if n == 0 {
    } else {
      AgreeUpTo(keys, q, out, out', n - 1);
      assert forall j | 0 <= j < n - 1 :: out[j] == out[..n - 1][j] == out'[..n - 1][j] == out'[j];
      NextIsFirst(keys, q, out, out', n - 1);
      NextIsFirst(keys, q, out', out, n - 1);
    }
  }

  // What stands at k in one answer does not come behind what stands there in the other.
  lemma NextIsFirst(keys: seq<string>, q: string, out: seq<nat>, out': seq<nat>, k: nat)
    requires q != "" && IsAnswer(keys, q, out) && IsAnswer(keys, q, out') && k < |out|
    requires forall j | 0 <= j < k :: out[j] == out'[j]
    ensures out[k] == out'[k] || Before(keys, q, out[k], out'[k])
  {
    assert forall j | 0 <= j < k :: Before(keys, q, out'[j], out'[k]);
    if out'[k] in out {
      var j :| 0 <= j < |out| && out[j] == out'[k];
      assert j >= k;
    }
  }

  /** The kept items in the order of a stable descending sort, up to the cap; everything, up to the cap,
      for an empty query. */
  method FuzzyFilter(keys: seq<string>, q: string) returns (out: seq<nat>)
    ensures q == "" ==> |out| == (if |keys| <= 200 then |keys| else 200) && forall i | 0 <= i < |out| :: out[i] == i
    ensures q != "" ==> IsAnswer(keys, q, out)
  {
    if q == "" { return FirstItems(if |keys| <= MAX_RESULTS then |keys| else MAX_RESULTS); }
    var scored: seq<Scored> := [];
    for n := 0 to |keys|
      invariant scored == Kept(keys[..n], q)
    {
      assert keys[..n + 1][..n] == keys[..n];
      var r := Score(q, keys[n]);
      if r >= 0.0 {
        scored := scored + [Scored(n, r)];
      }
    }
    assert keys[..|keys|] == keys;
    out := Items(Take(SortDescending(scored), MAX_RESULTS));
    ListIsAnswer(keys, q);
  }

  lemma {:induction false} KeptIs(keys: seq<string>, q: string)
    requires q != ""
    ensures forall x | x in Kept(keys, q) :: x.item < |keys| && x.score == ScoreOf(q, keys[x.item]) && x.score >= 0.0
    ensures forall n | 0 <= n < |keys| && ScoreOf(q, keys[n]) >= 0.0 :: Scored(n, ScoreOf(q, keys[n])) in Kept(keys, q)
  {
    if keys == [] {
    } else {
      var m := |keys| - 1;
      KeptIs(keys[..m], q);
      assert forall n | 0 <= n < m :: keys[..m][n] == keys[n];
    }
  }

  lemma {:induction false} SameMembers(xs: seq<Scored>, x: Scored)
    ensures x in xs <==> x in WithScore(xs, x.score)
  {
    if xs == [] {
    } else {
      SameMembers(xs[1..], x);
    }
  }

  lemma SortKeepsMembers(kept: seq<Scored>, x: Scored)
    ensures x in SortDescending(kept) <==> x in kept
  {
    SortIsStable(kept, x.score);
    SameMembers(SortDescending(kept), x);
    SameMembers(kept, x);
  }

  /** Up to two hundred, exactly the matching items are listed; beyond that, what is left out scores no
      higher than anything listed. */
  lemma ListedExactly(keys: seq<string>, q: string, out: seq<nat>, n: nat)
    requires q != "" && n < |keys| && IsAnswer(keys, q, out)
    ensures |out| < 200 ==> (n in out <==> IsSubstring(q, keys[n]) || IsSubsequence(q, keys[n]))
    ensures n in out ==> IsSubstring(q, keys[n]) || IsSubsequence(q, keys[n])
    ensures n !in out && n in Matches(keys, q) ==> forall j | 0 <= j < |out| :: ScoreOf(q, keys[out[j]]) >= ScoreOf(q, keys[n])
  {
  }

  /** Every item that contains the query comes before every one it is only spread over: in the list, and
      if only one of the two is listed it is the first. */
  lemma SubstringsComeFirst(keys: seq<string>, q: string, out: seq<nat>, m: nat, n: nat)
    requires q != "" && IsAnswer(keys, q, out) && m in Matches(keys, q) && n in out
    requires IsSubstring(q, keys[m]) && !IsSubstring(q, keys[n])
    ensures m in out
    ensures forall j, k | 0 <= j < |out| && 0 <= k < |out| && out[j] == m && out[k] == n :: j < k
  {
    KeptExactly(q, keys[m]);
    KeptExactly(q, keys[n]);
    var k :| 0 <= k < |out| && out[k] == n;
    assert !Before(keys, q, out[k], m);
  }
}
