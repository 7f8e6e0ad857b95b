/** The rewriter of legacy buttons (scripts/migrate_buttons.py): it finds an opening tag's end through
    quotes and braces, its closing tag through nested buttons, and replaces only those two. */
module Migrate {
  import opened Options
  import opened Weave

  // ── Patterns ────────────────────────────────────────────────────────────────

  predicate StartsAt(s: string, pat: string, p: nat) {
    p + |pat| <= |s| && s[p..p + |pat|] == pat
  }

  predicate OpensAt(s: string, p: nat) { StartsAt(s, "<button", p) }
  predicate ClosesAt(s: string, p: nat) { StartsAt(s, "</button>", p) }

  /** `s.find(pat, i)`. */
  function Find(s: string, pat: string, i: nat): (r: Option<nat>)
    ensures r.Some? ==> i <= r.value && StartsAt(s, pat, r.value) && forall p | i <= p < r.value :: !StartsAt(s, pat, p)
    ensures r.None? ==> forall p | i <= p :: !StartsAt(s, pat, p)
    decreases |s| - i
  {
    if i > |s| then None else if StartsAt(s, pat, i) then Some(i) else if i == |s| then None else Find(s, pat, i + 1)
  }

  lemma OpenText(s: string, p: nat)
    requires OpensAt(s, p)
    ensures p + 7 <= |s| && s[p] == '<' && s[p + 1] == 'b' && forall k | p < k < p + 7 :: s[k] != '<'
  {
    var w := s[p..p + 7];
    assert w == "<button";
    assert forall k | p <= k < p + 7 :: s[k] == w[k - p];
  }

  lemma CloseText(s: string, p: nat)
    requires ClosesAt(s, p)
    ensures p + 9 <= |s| && s[p] == '<' && s[p + 1] == '/' && forall k | p < k < p + 9 :: s[k] != '<'
  {
    var w := s[p..p + 9];
    assert w == "</button>";
    assert forall k | p <= k < p + 9 :: s[k] == w[k - p];
  }

  // ── The end of the opening tag ──────────────────────────────────────────────

  datatype Scan = Scan(inStr: Option<char>, inBrace: int)

  const NEUTRAL := Scan(None, 0)

  function Step(st: Scan, c: char): Scan {
    if st.inStr.Some? then (if c == st.inStr.value then st.(inStr := None) else st)
    else if c == '"' || c == '\'' then st.(inStr := Some(c))
    else if c == '{' then st.(inBrace := st.inBrace + 1)
    else if c == '}' then st.(inBrace := st.inBrace - 1)
    else st
  }

  /** Quotes and braces open before position `i`. */
  function StateAt(s: string, start: nat, i: nat): Scan
    requires start <= i <= |s|
  {
    if i == start then NEUTRAL else Step(StateAt(s, start, i - 1), s[i - 1])
  }

  predicate EndsTag(s: string, start: nat, i: nat)
    requires start <= i < |s|
  {
    s[i] == '>' && StateAt(s, start, i) == NEUTRAL
  }

  /** The first `>` outside quotes and braces. */
  ghost predicate IsTagEnd(s: string, start: nat, r: Option<nat>)
    requires start <= |s|
  {
    match r
    case Some(i) => start <= i < |s| && EndsTag(s, start, i) && forall j | start <= j < i :: !EndsTag(s, start, j)
    case None => forall j | start <= j < |s| :: !EndsTag(s, start, j)
  }

  method FindTagEnd(s: string, start: nat) returns (r: Option<nat>)
    requires start <= |s|
    ensures IsTagEnd(s, start, r)
  {
    var inStr: Option<char> := None;
    var inBrace := 0;
    var i := start;
    while i < |s|
      invariant start <= i <= |s| && StateAt(s, start, i) == Scan(inStr, inBrace)
      invariant forall j | start <= j < i :: !EndsTag(s, start, j)
    {
      var c := s[i];
      if inStr.Some? {
        if c == inStr.value { inStr := None; }
      } else if c == '"' || c == '\'' {
        inStr := Some(c);
      } else if c == '{' {
        inBrace := inBrace + 1;
      } else if c == '}' {
        inBrace := inBrace - 1;
      } else if c == '>' && inBrace == 0 {
        return Some(i);
      }
      i := i + 1;
    }
    return None;
  }

  // ── The matching closing tag ────────────────────────────────────────────────

  /** What stands at a place: a button opened, one closed, or neither. */
  function MarkAt(s: string, p: nat): int {
    if OpensAt(s, p) then 1 else if ClosesAt(s, p) then -1 else 0
  }

  ghost function Marks(s: string): seq<int> {
    seq(|s|, p requires p >= 0 => MarkAt(s, p))
  }

  ghost predicate AreMarks(s: string, m: seq<int>) {
    |m| == |s| && forall p: nat {:trigger MarkAt(s, p)} | p < |s| :: m[p] == MarkAt(s, p)
  }

  lemma MarksAre(s: string)
    ensures AreMarks(s, Marks(s))
  {
  }

  /** Buttons opened less buttons closed between two places. */
  function Depth(m: seq<int>, from: nat, to: nat): int
    requires from <= to <= |m|
  {
    if to == from then 0 else Depth(m, from, to - 1) + m[to - 1]
  }

  predicate Matches(m: seq<int>, after: nat, q: nat) {
    after <= q < |m| && m[q] == -1 && Depth(m, after, q) == 0
  }

  /** The first closing tag with everything before it closed. */
  ghost predicate IsClose(m: seq<int>, after: nat, r: Option<nat>) {
    match r
    case Some(q) => Matches(m, after, q) && forall p | after <= p < q :: !Matches(m, after, p)
    case None => forall p: nat :: !Matches(m, after, p)
  }

  lemma {:induction false} NothingBetween(m: seq<int>, from: nat, i: nat, j: nat)
    requires from <= i <= j <= |m| && forall p | i <= p < j :: m[p] == 0
    ensures Depth(m, from, j) == Depth(m, from, i)
    decreases j
  {
    if i < j { NothingBetween(m, from, i, j - 1); }
  }

  // A tag of `width` characters, and none before or inside it.
  predicate NextTag(m: seq<int>, i: nat, p: nat, width: nat) {
    && i <= p && p + width <= |m| && 0 < width
    && (forall k | i <= k < p + width && k != p :: m[k] == 0)
  }

  lemma OverTag(m: seq<int>, after: nat, i: nat, p: nat, width: nat)
    requires after <= i && NextTag(m, i, p, width)
    ensures Depth(m, after, p) == Depth(m, after, i)
    ensures Depth(m, after, p + width) == Depth(m, after, i) + m[p]
    ensures forall k | i <= k < p + width && k != p :: !Matches(m, after, k)
  {
    NothingBetween(m, after, i, p);
    NothingBetween(m, after, p + 1, p + width);
  }

  lemma OpenMarks(s: string, m: seq<int>, p: nat)
    requires AreMarks(s, m) && OpensAt(s, p)
    ensures p + 7 <= |m| && m[p] == 1 && forall k: nat | p < k < p + 7 :: m[k] == 0
  {
    OpenText(s, p);
    assert m[p] == MarkAt(s, p);
    forall k: nat | p < k < p + 7 ensures m[k] == 0 {
      assert m[k] == MarkAt(s, k);
      if OpensAt(s, k) { OpenText(s, k); }
      if ClosesAt(s, k) { CloseText(s, k); }
    }
  }

  lemma CloseMarks(s: string, m: seq<int>, p: nat)
    requires AreMarks(s, m) && ClosesAt(s, p)
    ensures p + 9 <= |m| && m[p] == -1 && forall k: nat | p < k < p + 9 :: m[k] == 0
  {
    CloseText(s, p);
    assert m[p] == MarkAt(s, p);
    if OpensAt(s, p) { OpenText(s, p); }
    forall k: nat | p < k < p + 9 ensures m[k] == 0 {
      assert m[k] == MarkAt(s, k);
      if OpensAt(s, k) { OpenText(s, k); }
      if ClosesAt(s, k) { CloseText(s, k); }
    }
  }

  // Where neither search has found anything, nothing stands.
  lemma Unmarked(s: string, m: seq<int>, i: nat, p: nat)
    requires AreMarks(s, m) && p <= |s|
    requires forall k: nat | i <= k < p :: !StartsAt(s, "<button", k) && !StartsAt(s, "</button>", k)
    ensures forall k: nat | i <= k < p :: m[k] == 0
  {
    forall k: nat | i <= k < p ensures m[k] == 0 {
      assert m[k] == MarkAt(s, k);
    }
  }

  lemma Unclosed(s: string, m: seq<int>, i: nat)
    requires AreMarks(s, m) && forall k: nat | i <= k :: !StartsAt(s, "</button>", k)
    ensures forall k: nat | i <= k < |m| :: m[k] != -1
  {
    forall k: nat | i <= k < |m| ensures m[k] != -1 {
      assert m[k] == MarkAt(s, k);
    }
  }

  /** The next tag, which of the two it is, and where the search goes on. */
  method NextOf(s: string, i: nat, ghost m: seq<int>) returns (r: Option<(bool, nat)>)
    requires AreMarks(s, m)
    ensures r.None? ==> forall k: nat | i <= k < |m| :: m[k] != -1
    ensures r.Some? ==> var (opens, p) := r.value;
      NextTag(m, i, p, if opens then 7 else 9) && m[p] == if opens then 1 else -1
  {
    var nextOpen := Find(s, "<button", i);
    var nextClose := Find(s, "</button>", i);
    if nextClose.None? {
      Unclosed(s, m, i);
      return None;
    }
    if nextOpen.Some? && nextOpen.value < nextClose.value {
      OpenMarks(s, m, nextOpen.value);
      Unmarked(s, m, i, nextOpen.value);
      return Some((true, nextOpen.value));
    }
    CloseMarks(s, m, nextClose.value);
    Unmarked(s, m, i, nextClose.value);
    return Some((false, nextClose.value));
  }

  method FindClose(s: string, after: nat, ghost m: seq<int>) returns (r: Option<nat>)
    requires AreMarks(s, m)
    ensures IsClose(m, after, r)
  {
    var depth := 1;
    var i := after;
    while i < |s|
      invariant after <= i && (i <= |m| ==> depth == 1 + Depth(m, after, i)) && (after < i ==> i <= |m|) && depth >= 1
      invariant forall p: nat | after <= p < i :: !Matches(m, after, p)
    {
      var tag := NextOf(s, i, m);
      if tag.None? { return None; }
      var (opens, p) := tag.value;
      OverTag(m, after, i, p, if opens then 7 else 9);
      if opens {
        depth := depth + 1;
        i := p + 7;
      } else {
        depth := depth - 1;
        if depth == 0 { return Some(p); }
        i := p + 9;
      }
    }
    return None;
  }

  /** Inside a matched pair the buttons balance, and no beginning of it closes more than it opens. */
  lemma {:induction false} InsideIsBalanced(m: seq<int>, after: nat, q: nat, k: nat)
    requires IsClose(m, after, Some(q)) && after <= k <= q && forall p | 0 <= p < |m| :: -1 <= m[p] <= 1
    ensures Depth(m, after, k) >= 0 && Depth(m, after, q) == 0
    decreases k
  {
    if k <= after {
    } else {
      InsideIsBalanced(m, after, q, k - 1);
      assert !Matches(m, after, k - 1);
    }
  }

  // Tags of the inner text are tags of the whole: none reaches over the closing tag.
  lemma InnerTags(s: string, after: nat, q: nat, k: nat)
    requires ClosesAt(s, q) && after + k < q
    ensures MarkAt(s[after..q], k) == MarkAt(s, after + k)
  {
    CloseText(s, q);
    var t, p := s[after..q], after + k;
    if OpensAt(s, p) { OpenText(s, p); }
    if ClosesAt(s, p) { CloseText(s, p); }
    if k + 7 <= |t| { SliceOfSlice(s, after, q, k, 7); }
    if k + 9 <= |t| { SliceOfSlice(s, after, q, k, 9); }
  }

  lemma SliceOfSlice(s: string, after: nat, q: nat, k: nat, width: nat)
    requires after + k + width <= q <= |s|
    ensures s[after..q][k..k + width] == s[after + k..after + k + width]
  {
    var inner, outer := s[after..q][k..k + width], s[after + k..after + k + width];
    forall i | 0 <= i < width ensures inner[i] == outer[i] {
      assert inner[i] == s[after..q][k + i] == s[after + (k + i)];
    }
  }

  lemma InnerMarks(s: string, after: nat, q: nat)
    requires ClosesAt(s, q) && after <= q <= |s|
    ensures Marks(s[after..q]) == Marks(s)[after..q]
  {
    forall k | 0 <= k < q - after ensures Marks(s[after..q])[k] == Marks(s)[after..q][k] {
      InnerTags(s, after, q, k);
    }
  }

  lemma {:induction false} InnerDepth(m: seq<int>, after: nat, q: nat, k: nat)
    requires after + k <= q <= |m|
    ensures Depth(m[after..q], 0, k) == Depth(m, after, after + k)
  {
    if k == 0 {
    } else {
      InnerDepth(m, after, q, k - 1);
    }
  }

  // ── The head that is replaced ───────────────────────────────────────────────

  /** Python's whitespace. */
  predicate IsSpace(c: char) {
    || '\t' <= c <= '\r' || '\U{1C}' <= c <= ' ' || c == '\U{85}' || c == '\U{A0}' || c == '\U{1680}'
    || '\U{2000}' <= c <= '\U{200A}' || c == '\U{2028}' || c == '\U{2029}' || c == '\U{202F}' || c == '\U{205F}'
    || c == '\U{3000}'
  }

  function SkipSpaces(s: string, i: nat): (j: nat)
    requires i <= |s|
    ensures i <= j <= |s| && forall k | i <= k < j :: IsSpace(s[k])
    decreases |s| - i
  {
    if i < |s| && IsSpace(s[i]) then SkipSpaces(s, i + 1) else i
  }

  predicate IsLegacy(cls: string) {
    cls in {"ghost", "primary", "danger", "secondary", "success"} || "mini" <= cls
  }

  function TrimLeft(s: string): string {
    if s != "" && IsSpace(s[0]) then TrimLeft(s[1..]) else s
  }

  function TrimRight(s: string): string {
    if s != "" && IsSpace(s[|s| - 1]) then TrimRight(s[..|s| - 1]) else s
  }

  /** Variant and size for a class list; `mini` with anything unknown behind it is plain secondary. */
  function Legacy(cls: string): (string, Option<string>) {
    if cls == "primary" then ("primary", None)
    else if cls == "ghost" then ("ghost", None)
    else if cls == "danger" then ("danger", None)
    else if cls == "secondary" then ("secondary", None)
    else if cls == "success" then ("success", None)
    else if cls == "mini" then ("secondary", Some("sm"))
    else if cls == "mini primary" then ("primary", Some("sm"))
    else if cls == "mini danger" then ("danger", Some("sm"))
    else ("secondary", None)
  }

  function NewHead(cls: string): string {
    var (variant, size) := Legacy(TrimLeft(TrimRight(cls)));
    "<Button variant=\"" + variant + "\"" + (if size.Some? then " size=\"" + size.value + "\"" else "")
  }

  /** A legacy head in the text, and what it becomes. */
  datatype Head = Head(start: nat, end: nat, newHead: string)

  const ATTRIBUTE := "className=\""

  /** The pattern at one place: tag name, white space, and one of the class lists up to its quote. */
  function MatchAt(s: string, p: nat): (r: Option<Head>)
    ensures r.Some? ==> r.value.start == p && p < r.value.end <= |s|
  {
    if !OpensAt(s, p) then None
    else
      var at := SkipSpaces(s, p + 7);
      if at == p + 7 || !StartsAt(s, ATTRIBUTE, at) then None
      else
        var from := at + |ATTRIBUTE|;
        match Find(s, "\"", from)
        case None => None
        case Some(quote) => if IsLegacy(s[from..quote]) then Some(Head(p, quote + 1, NewHead(s[from..quote]))) else None
  }

  function Search(s: string, i: nat): (r: Option<Head>)
    ensures r.Some? ==> i <= r.value.start && MatchAt(s, r.value.start) == r
    ensures r.Some? ==> forall p | i <= p < r.value.start :: MatchAt(s, p).None?
    ensures r.None? ==> forall p | i <= p :: MatchAt(s, p).None?
    decreases |s| - i
  {
    if i >= |s| then None else if MatchAt(s, i).Some? then MatchAt(s, i) else Search(s, i + 1)
  }

  // ── What is matched, and what it becomes ────────────────────────────────────

  lemma SpacesAre(c: char)
    ensures IsSpace(c) <==>
            c as int in {0x09, 0x0A, 0x0B, 0x0C, 0x0D, 0x1C, 0x1D, 0x1E, 0x1F, 0x20, 0x85, 0xA0, 0x1680, 0x2000, 0x2001,
                         0x2002, 0x2003, 0x2004, 0x2005, 0x2006, 0x2007, 0x2008, 0x2009, 0x200A, 0x2028, 0x2029, 0x202F,
                         0x205F, 0x3000}
  {
  }

  predicate AllSpaces(s: string) {
    forall k | 0 <= k < |s| :: IsSpace(s[k])
  }

  /** A legacy head written out: the tag name, white space, the attribute, and a class list that is one of
      five words or begins with a sixth. */
  predicate IsHeadText(head: string, spaces: string, cls: string) {
    && head == "<button" + spaces + "className=\"" + cls + "\""
    && spaces != "" && AllSpaces(spaces) && '"' !in cls
    && (cls == "ghost" || cls == "primary" || cls == "danger" || cls == "secondary" || cls == "success" || "mini" <= cls)
  }

  lemma QuoteAt(s: string, k: nat)
    requires k < |s|
    ensures StartsAt(s, "\"", k) <==> s[k] == '"'
  {
    assert s[k..k + 1] == [s[k]];
  }

  lemma Pieces(a: string, b: string, c: string, d: string, e: string, t: string)
    requires t == a + b + c + d + e
    ensures |t| == |a| + |b| + |c| + |d| + |e|
    ensures t[..|a|] == a && t[|a|..|a| + |b|] == b && t[|a| + |b|..|a| + |b| + |c|] == c
    ensures t[|a| + |b| + |c|..|a| + |b| + |c| + |d|] == d && t[|a| + |b| + |c| + |d|..] == e
  {
  }

  lemma Slice(s: string, p: nat, n: nat, i: nat, j: nat)
    requires i <= j <= n && p + n <= |s|
    ensures s[p..p + n][i..j] == s[p + i..p + j]
  {
    var t := s[p..p + n];
    forall k | 0 <= k < j - i ensures t[i..j][k] == s[p + i..p + j][k] {
      assert t[i + k] == s[p + (i + k)];
    }
  }

  // Where the pieces of the head stand in the text.
  lemma HeadPieces(s: string, p: nat, spaces: string, cls: string, head: string)
    requires IsHeadText(head, spaces, cls) && StartsAt(s, head, p)
    ensures var n := 7 + |spaces|;
            && |head| == n + 12 + |cls| && p + |head| <= |s|
            && s[p..p + 7] == "<button" && s[p + 7..p + n] == spaces && s[p + n..p + n + 11] == ATTRIBUTE
            && s[p + n + 11..p + n + 11 + |cls|] == cls && s[p + n + 11 + |cls|..p + |head|] == "\""
  {
    var n := 7 + |spaces|;
    Pieces("<button", spaces, ATTRIBUTE, cls, "\"", head);
    Slice(s, p, |head|, 0, 7);
    Slice(s, p, |head|, 7, n);
    Slice(s, p, |head|, n, n + 11);
    Slice(s, p, |head|, n + 11, n + 11 + |cls|);
    Slice(s, p, |head|, n + 11 + |cls|, |head|);
  }

  // The first character behind the white space, and the first quote behind the class list.
  lemma HeadLandmarks(s: string, at: nat, from: nat, quote: nat)
    requires at + 11 == from <= quote < |s| && StartsAt(s, ATTRIBUTE, at) && '"' !in s[from..quote]
    ensures s[at] == 'c' && forall k | from <= k < quote :: !StartsAt(s, "\"", k)
  {
    assert s[at..at + 11][0] == 'c';
    forall k | from <= k < quote ensures !StartsAt(s, "\"", k) {
      QuoteAt(s, k);
      assert s[from..quote][k - from] == s[k];
    }
  }

  /** A place matches exactly if such a head begins there, and then it is all of the head. */
  lemma HeadMatches(s: string, p: nat, spaces: string, cls: string, head: string)
    requires IsHeadText(head, spaces, cls) && StartsAt(s, head, p)
    ensures MatchAt(s, p) == Some(Head(p, p + |head|, NewHead(cls)))
  {
    var at := p + 7 + |spaces|;
    var quote := at + 11 + |cls|;
    HeadPieces(s, p, spaces, cls, head);
    LandmarksMatch(s, p, at, quote);
  }

  // A head with its pieces in place.
  predicate IsHeadAt(s: string, p: nat, at: nat, quote: nat) {
    && p + 7 < at && at + 11 <= quote < |s| && StartsAt(s, "<button", p) && AllSpaces(s[p + 7..at])
    && StartsAt(s, ATTRIBUTE, at) && '"' !in s[at + 11..quote] && StartsAt(s, "\"", quote) && IsLegacy(s[at + 11..quote])
  }

  lemma MatchFrom(s: string, p: nat, at: nat, quote: nat)
    requires OpensAt(s, p) && SkipSpaces(s, p + 7) == at != p + 7 && StartsAt(s, ATTRIBUTE, at) && at + 11 <= quote < |s|
    requires Find(s, "\"", at + 11) == Some(quote) && IsLegacy(s[at + 11..quote])
    ensures MatchAt(s, p) == Some(Head(p, quote + 1, NewHead(s[at + 11..quote])))
  {
  }

  lemma LandmarksFound(s: string, p: nat, at: nat, quote: nat)
    requires IsHeadAt(s, p, at, quote)
    ensures SkipSpaces(s, p + 7) == at && Find(s, "\"", at + 11) == Some(quote)
  {
    HeadLandmarks(s, at, at + 11, quote);
    SpacesThere(s, p + 7, at);
    SkipsTo(s, p + 7, at);
    FindsAt(s, "\"", at + 11, quote);
  }

  lemma LandmarksMatch(s: string, p: nat, at: nat, quote: nat)
    requires IsHeadAt(s, p, at, quote)
    ensures MatchAt(s, p) == Some(Head(p, quote + 1, NewHead(s[at + 11..quote])))
  {
    LandmarksFound(s, p, at, quote);
    MatchFrom(s, p, at, quote);
  }

  lemma MatchLandmarks(s: string, p: nat) returns (at: nat, quote: nat)
    requires MatchAt(s, p).Some?
    ensures IsHeadAt(s, p, at, quote)
  {
    at := SkipSpaces(s, p + 7);
    quote := Find(s, "\"", at + 11).value;
    NoQuoteBetween(s, at + 11, quote);
  }

  lemma SpacesThere(s: string, i: nat, j: nat)
    requires i <= j <= |s| && AllSpaces(s[i..j])
    ensures forall k | i <= k < j :: IsSpace(s[k])
  {
    forall k | i <= k < j ensures IsSpace(s[k]) {
      assert s[i..j][k - i] == s[k];
    }
  }

  // White space ends at the first character that is none.
  lemma {:induction false} SkipsTo(s: string, i: nat, j: nat)
    requires i <= j < |s| && !IsSpace(s[j]) && forall k | i <= k < j :: IsSpace(s[k])
    ensures SkipSpaces(s, i) == j
    decreases j - i
  {
    if i == j {
    } else {
      SkipsTo(s, i + 1, j);
    }
  }

  lemma FindsAt(s: string, pat: string, i: nat, j: nat)
    requires i <= j <= |s| && StartsAt(s, pat, j) && forall k | i <= k < j :: !StartsAt(s, pat, k)
    ensures Find(s, pat, i) == Some(j)
  {
  }

  lemma MatchIsHead(s: string, p: nat) returns (spaces: string, cls: string, head: string)
    requires MatchAt(s, p).Some?
    ensures IsHeadText(head, spaces, cls) && StartsAt(s, head, p)
  {
    var at, quote := MatchLandmarks(s, p);
    spaces, cls := s[p + 7..at], s[at + 11..quote];
    head := "<button" + spaces + "className=\"" + cls + "\"";
    HeadIsThere(s, p, at, quote);
  }

  lemma NoQuoteBetween(s: string, i: nat, j: nat)
    requires i <= j <= |s| && forall k | i <= k < j :: !StartsAt(s, "\"", k)
    ensures '"' !in s[i..j]
  {
    forall k | i <= k < j ensures s[k] != '"' {
      QuoteAt(s, k);
    }
  }

  lemma HeadIsThere(s: string, p: nat, at: nat, quote: nat)
    requires OpensAt(s, p) && p + 7 <= at && StartsAt(s, ATTRIBUTE, at) && at + 11 <= quote && StartsAt(s, "\"", quote)
    ensures StartsAt(s, "<button" + s[p + 7..at] + "className=\"" + s[at + 11..quote] + "\"", p)
  {
    var head := "<button" + s[p + 7..at] + "className=\"" + s[at + 11..quote] + "\"";
    TwoPieces(s, p, p + 7, at);
    TwoPieces(s, p, at, at + 11);
    TwoPieces(s, p, at + 11, quote);
    TwoPieces(s, p, quote, quote + 1);
    assert s[p..quote + 1] == head;
  }

  lemma TwoPieces(s: string, i: nat, j: nat, k: nat)
    requires i <= j <= k <= |s|
    ensures s[i..k] == s[i..j] + s[j..k]
  {
  }

  lemma {:induction false} TrimRightIs(s: string, b: string)
    requires AllSpaces(b) && (s != "" ==> !IsSpace(s[|s| - 1]))
    ensures TrimRight(s + b) == s
  {
    if b == "" {
      assert s + b == s;
    } else {
      assert (s + b)[..|s + b| - 1] == s + b[..|b| - 1];
      TrimRightIs(s, b[..|b| - 1]);
    }
  }

  lemma {:induction false} TrimLeftIs(a: string, s: string)
    requires AllSpaces(a) && (s != "" ==> !IsSpace(s[0]))
    ensures TrimLeft(a + s) == s
  {
    if a == "" {
      assert a + s == s;
    } else {
      assert (a + s)[1..] == a[1..] + s;
      TrimLeftIs(a[1..], s);
    }
  }

  // What the class list means once the white space around it is gone.
  lemma StripIs(a: string, core: string, b: string)
    requires AllSpaces(a) && AllSpaces(b) && core != "" && !IsSpace(core[0]) && !IsSpace(core[|core| - 1])
    ensures TrimLeft(TrimRight(a + core + b)) == core
  {
    assert (a + core)[|a + core| - 1] == core[|core| - 1];
    TrimRightIs(a + core, b);
    TrimLeftIs(a, core);
  }

  /** What a head becomes, by the word or words in its class list; any other words give the plain one. */
  lemma NewHeads(a: string, core: string, b: string)
    requires AllSpaces(a) && AllSpaces(b) && core != "" && !IsSpace(core[0]) && !IsSpace(core[|core| - 1])
    ensures NewHead(a + core + b)
         == "<Button variant=\"" + VariantOf(core) + "\""
            + (if core == "mini" || core == "mini primary" || core == "mini danger" then " size=\"sm\"" else "")
  {
    StripIs(a, core, b);
    var (variant, size) := Legacy(core);
    assert variant == VariantOf(core);
    if size.Some? { assert " size=\"" + size.value + "\"" == " size=\"sm\""; }
  }

  function VariantOf(core: string): string {
    if core == "primary" || core == "mini primary" then "primary"
    else if core == "danger" || core == "mini danger" then "danger"
    else if core == "ghost" || core == "success" then core
    else "secondary"
  }

  // ── Within the head everything quoted is closed again ───────────────────────

  lemma {:induction false} Unquoted(s: string, start: nat, i: nat, j: nat)
    requires start <= i <= j <= |s|
    requires forall k | i <= k < j :: s[k] != '"' && s[k] != '\'' && s[k] != '{' && s[k] != '}'
    requires StateAt(s, start, i) == NEUTRAL
    ensures StateAt(s, start, j) == NEUTRAL
    decreases j
  {
    if i < j { Unquoted(s, start, i, j - 1); }
  }

  lemma {:induction false} Quoted(s: string, start: nat, i: nat, j: nat)
    requires start <= i <= j <= |s| && StateAt(s, start, i) == Scan(Some('"'), 0)
    requires forall k | i <= k < j :: s[k] != '"'
    ensures forall k | i <= k <= j :: StateAt(s, start, k) == Scan(Some('"'), 0)
    decreases j
  {
    if i < j { Quoted(s, start, i, j - 1); }
  }

  predicate IsPlain(c: char) {
    c != '"' && c != '\'' && c != '{' && c != '}' && c != '>'
  }

  lemma AttributeText(s: string, at: nat)
    requires StartsAt(s, ATTRIBUTE, at)
    ensures s[at + 10] == '"' && forall k | at <= k < at + 10 :: IsPlain(s[k])
  {
    var w := s[at..at + |ATTRIBUTE|];
    assert w == "className=\"";
    assert forall k | at <= k < at + 11 :: s[k] == w[k - at];
  }

  lemma TagNameText(s: string, p: nat)
    requires OpensAt(s, p)
    ensures forall k | p <= k < p + 7 :: IsPlain(s[k])
  {
    var w := s[p..p + 7];
    assert w == "<button";
    assert forall k | p <= k < p + 7 :: s[k] == w[k - p];
  }

  lemma QuoteText(s: string, p: nat)
    ensures StartsAt(s, "\"", p) <==> p < |s| && s[p] == '"'
  {
    if p < |s| { assert s[p..p + 1] == [s[p]]; }
  }

  ghost predicate Passes(s: string, h: Head) {
    h.start < h.end <= |s| && forall k | h.start <= k < h.end :: !EndsTag(s, h.start, k)
  }

  lemma HeadParts(s: string, p: nat, at: nat, quote: nat)
    requires OpensAt(s, p) && p + 7 <= at && StartsAt(s, ATTRIBUTE, at) && at + 11 <= quote && StartsAt(s, "\"", quote)
    requires forall k | p + 7 <= k < at :: IsSpace(s[k])
    requires forall k: nat | at + 11 <= k < quote :: !StartsAt(s, "\"", k)
    ensures quote < |s| && s[quote] == '"' && s[at + 10] == '"'
    ensures forall k | p <= k < at + 10 :: IsPlain(s[k])
    ensures forall k | at + 11 <= k < quote :: s[k] != '"'
  {
    TagNameText(s, p);
    AttributeText(s, at);
    QuoteText(s, quote);
    forall k | at + 11 <= k < quote ensures s[k] != '"' { QuoteText(s, k); }
  }

  lemma PassesParts(s: string, p: nat, at: nat, quote: nat)
    requires p <= at && at + 11 <= quote < |s| && s[quote] == '"' && s[at + 10] == '"'
    requires forall k | p <= k < at + 10 :: IsPlain(s[k])
    requires forall k | at + 11 <= k < quote :: s[k] != '"'
    ensures StateAt(s, p, quote + 1) == NEUTRAL
    ensures forall k | p <= k < quote + 1 :: !EndsTag(s, p, k)
  {
    Unquoted(s, p, p, at + 10);
    assert StateAt(s, p, at + 11) == Scan(Some('"'), 0);
    Quoted(s, p, at + 11, quote);
  }

  /** The tag ends behind the head: up to there everything quoted is closed again and no `>` counts. */
  lemma TagEndsBehindHead(s: string, h: Head)
    requires MatchAt(s, h.start) == Some(h)
    ensures StateAt(s, h.start, h.end) == NEUTRAL && Passes(s, h)
  {
    var at := SkipSpaces(s, h.start + 7);
    HeadParts(s, h.start, at, h.end - 1);
    PassesParts(s, h.start, at, h.end - 1);
  }

  // ── The edits ───────────────────────────────────────────────────────────────

  ghost predicate IsPair(s: string, m: seq<int>, start: nat, t: nat, q: nat) {
    start <= |s| && IsTagEnd(s, start, Some(t)) && IsClose(m, t + 1, Some(q))
  }

  /** The rewriting of a found head: none if its tag does not end or its closing tag is missing. */
  ghost function EditOf(s: string, m: seq<int>, found: Option<Head>): Option<Edit> {
    match found
    case None => None
    case Some(h) =>
      if exists t: nat, q: nat :: IsPair(s, m, h.start, t, q) then
        var t: nat, q: nat :| IsPair(s, m, h.start, t, q);
        Some(Edit(h.start, h.end, t, q, h.newHead))
      else None
  }

  /** The next button to rewrite: the first legacy head from `i` on. */
  ghost function NextEdit(s: string, i: nat): Option<Edit> {
    EditOf(s, Marks(s), Search(s, i))
  }

  lemma SameTagEnd(s: string, start: nat, t: nat, t': nat)
    requires start <= |s| && IsTagEnd(s, start, Some(t)) && IsTagEnd(s, start, Some(t'))
    ensures t == t'
  {
  }

  lemma PairIsUnique(s: string, m: seq<int>, start: nat, t: nat, q: nat, t': nat, q': nat)
    requires IsPair(s, m, start, t, q) && IsPair(s, m, start, t', q')
    ensures t == t' && q == q'
  {
    SameTagEnd(s, start, t, t');
  }

  lemma MarkedClose(s: string, m: seq<int>, q: nat)
    requires AreMarks(s, m) && q < |m| && m[q] == -1
    ensures ClosesAt(s, q) && q + CLOSING <= |s| && s[q..q + CLOSING] == "</button>"
  {
    assert m[q] == MarkAt(s, q);
  }

  lemma EditOfIs(s: string, m: seq<int>, h: Head, e: Edit)
    requires AreMarks(s, m) && Passes(s, h) && EditOf(s, m, Some(h)) == Some(e)
    ensures IsPair(s, m, e.start, e.tagEnd, e.close)
    ensures e == Edit(h.start, h.end, e.tagEnd, e.close, h.newHead) && InPlace(s, h.start, e)
    ensures s[e.tagEnd] == '>' && s[e.close..e.close + CLOSING] == "</button>"
  {
    MarkedClose(s, m, e.close);
  }

  lemma FoundEdit(s: string, m: seq<int>, h: Head, t: nat, q: nat)
    requires AreMarks(s, m) && Passes(s, h) && IsTagEnd(s, h.start, Some(t)) && IsClose(m, t + 1, Some(q))
    ensures EditOf(s, m, Some(h)) == Some(Edit(h.start, h.end, t, q, h.newHead))
  {
    assert IsPair(s, m, h.start, t, q);
    var e := EditOf(s, m, Some(h)).value;
    PairIsUnique(s, m, h.start, t, q, e.tagEnd, e.close);
  }

  lemma NoTagEnd(s: string, m: seq<int>, h: Head)
    requires h.start <= |s| && IsTagEnd(s, h.start, None)
    ensures EditOf(s, m, Some(h)) == None
  {
    assert forall t: nat, q: nat :: !IsPair(s, m, h.start, t, q);
  }

  lemma NoClose(s: string, m: seq<int>, h: Head, t: nat)
    requires h.start <= |s| && IsTagEnd(s, h.start, Some(t)) && IsClose(m, t + 1, None)
    ensures EditOf(s, m, Some(h)) == None
  {
    forall t': nat, q: nat ensures !IsPair(s, m, h.start, t', q) {
      if IsPair(s, m, h.start, t', q) { SameTagEnd(s, h.start, t, t'); }
    }
  }

  lemma SearchPasses(s: string, i: nat, h: Head)
    requires Search(s, i) == Some(h)
    ensures i <= h.start && Passes(s, h) && MatchAt(s, h.start) == Some(h)
    ensures forall p | i <= p < h.start :: MatchAt(s, p).None?
  {
    TagEndsBehindHead(s, h);
  }

  /** What an edit is, in the text: the first legacy head from there on, the first end of its tag, and
      the closing tag that matches. */
  lemma EditIs(s: string, i: nat, e: Edit)
    requires NextEdit(s, i) == Some(e)
    ensures InPlace(s, i, e) && s[e.tagEnd] == '>' && s[e.close..e.close + CLOSING] == "</button>"
    ensures MatchAt(s, e.start) == Some(Head(e.start, e.headEnd, e.newHead))
    ensures forall p | i <= p < e.start :: MatchAt(s, p).None?
    ensures IsPair(s, Marks(s), e.start, e.tagEnd, e.close)
  {
    var h := Search(s, i).value;
    SearchPasses(s, i, h);
    MarksAre(s);
    EditOfIs(s, Marks(s), h, e);
  }

  // ── The rewriter, against a name for the step ───────────────────────────────

  ghost predicate IsNext(s: string, m: seq<int>, next: nat -> Option<Edit>) {
    && m == Marks(s)
    && forall i: nat {:trigger NextEdit(s, i)} :: next(i) == NextEdit(s, i)
  }

  function Concat(parts: seq<string>): string {
    if parts == [] then "" else Concat(parts[..|parts| - 1]) + parts[|parts| - 1]
  }

  lemma ConcatMore(parts: seq<string>, p: string)
    ensures Concat(parts + [p]) == Concat(parts) + p
  {
    assert (parts + [p])[..|parts|] == parts;
  }

  /** What one round leaves: the next button's pieces, or that there is none. */
  datatype Round = Rewritten(newOpen: string, inner: string, resume: nat) | Over

  method OneRound(text: string, h: Head, ghost m: seq<int>) returns (r: Round, ghost e: Option<Edit>)
    requires AreMarks(text, m) && Passes(text, h)
    ensures e == EditOf(text, m, Some(h))
    ensures match r
            case Over => e == None
            case Rewritten(newOpen, inner, resume) =>
              && e.Some? && InPlace(text, h.start, e.value) && e.value.start == h.start && resume == e.value.close + CLOSING
              && newOpen == e.value.newHead + (text[e.value.headEnd..e.value.tagEnd] + ">") && text[e.value.tagEnd] == '>'
              && inner == text[e.value.tagEnd + 1..e.value.close]
  {
    var tagEnd := FindTagEnd(text, h.start);
    if tagEnd.None? {
      NoTagEnd(text, m, h);
      return Over, None;
    }
    var close := FindClose(text, tagEnd.value + 1, m);
    if close.None? {
      NoClose(text, m, h, tagEnd.value);
      return Over, None;
    }
    FoundEdit(text, m, h, tagEnd.value, close.value);
    ghost var found := Edit(h.start, h.end, tagEnd.value, close.value, h.newHead);
    EditOfIs(text, m, h, found);
    var restAttrs := text[h.end..tagEnd.value];
    var inner := text[tagEnd.value + 1..close.value];
    r := Rewritten(h.newHead + (restAttrs + ">"), inner, close.value + 9);
    e := Some(found);
  }

  /** The first head from `i` on. */
  method FindHead(text: string, i: nat, ghost m: seq<int>, ghost next: nat -> Option<Edit>) returns (found: Option<Head>)
    requires IsNext(text, m, next)
    ensures next(i) == EditOf(text, m, found) && AreMarks(text, m)
    ensures found.Some? ==> i <= found.value.start && Passes(text, found.value)
  {
    MarksAre(text);
    assert next(i) == NextEdit(text, i);
    found := Search(text, i);
    if found.Some? { SearchPasses(text, i, found.value); }
  }

  lemma PieceText(s: string, i: nat, e: Edit, open: string, inner: string)
    requires InPlace(s, i, e) && s[e.tagEnd] == '>'
    requires open == e.newHead + (s[e.headEnd..e.tagEnd] + ">") && inner == s[e.tagEnd + 1..e.close]
    ensures s[i..e.start] + (open + inner + "</Button>") == Piece(s, i, e, true)
  {
    assert s[e.headEnd..e.close] == s[e.headEnd..e.tagEnd] + ">" + inner;
  }

  method Rewrite(text: string, ghost m: seq<int>, ghost next: nat -> Option<Edit>)
    returns (result: string, count: nat, ghost edits: seq<Edit>)
    requires IsNext(text, m, next)
    ensures WholeRun(next, edits) && Ordered(text, edits) && End(edits) <= |text| && count == |edits|
    ensures result == Woven(text, edits, true) + text[End(edits)..]
  {
    count := 0;
    edits := [];
    var out: seq<string> := [];
    var i := 0;
    while true
      invariant Run(next, edits) && Ordered(text, edits) && count == |edits| && i == End(edits) <= |text|
      invariant Concat(out) == Woven(text, edits, true)
      decreases |text| - i
    {
      var found := FindHead(text, i, m, next);
      if found.None? {
        ConcatMore(out, text[i..]);
        out := out + [text[i..]];
        break;
      }
      var h := found.value;
      ghost var before := out;
      ConcatMore(out, text[i..h.start]);
      out := out + [text[i..h.start]];
      var r;
      ghost var e;
      r, e := OneRound(text, h, m);
      if r.Over? {
        Rest(before, text, i, h.start);
        out := out + [text[h.start..]];
        break;
      }
      PieceText(text, i, e.value, r.newOpen, r.inner);
      WovenMore(text, edits, e.value);
      RunMore(next, edits, e.value);
      TwoMore(before, text[i..h.start], r.newOpen + r.inner + "</Button>");
      out := out + [r.newOpen + r.inner + "</Button>"];
      edits := edits + [e.value];
      count := count + 1;
      i := r.resume;
    }
    result := Concat(out);
  }

  lemma TwoMore(out: seq<string>, a: string, b: string)
    ensures Concat(out + [a] + [b]) == Concat(out) + (a + b)
  {
    ConcatMore(out, a);
    ConcatMore(out + [a], b);
  }

  lemma Rest(out: seq<string>, text: string, i: nat, start: nat)
    requires i <= start <= |text|
    ensures Concat(out + [text[i..start]] + [text[start..]]) == Concat(out) + text[i..]
  {
    TwoMore(out, text[i..start], text[start..]);
    assert text[i..] == text[i..start] + text[start..];
  }

  /** Conservation: input and output are one weave that differs only in the replaced parts, and every
      replaced part is the head of a legacy button and the closing tag that matches it. */
  lemma TextIsConserved(text: string, edits: seq<Edit>)
    requires Ordered(text, edits)
    ensures End(edits) <= |text| && text == Woven(text, edits, false) + text[End(edits)..]
  {
    WovenIsInput(text, edits);
    assert text == text[..End(edits)] + text[End(edits)..];
  }

  /** The text alone decides what is rewritten. */
  lemma RewritingIsDetermined(text: string, m: seq<int>, next: nat -> Option<Edit>, edits: seq<Edit>, edits': seq<Edit>)
    requires IsNext(text, m, next) && WholeRun(next, edits) && WholeRun(next, edits')
    ensures edits == edits'
  {
    WholeRunIsUnique(next, edits, edits');
  }

  lemma BalancedInside(m: seq<int>, after: nat, q: nat, k: nat)
    requires IsClose(m, after, Some(q)) && after + k <= q && forall p | 0 <= p < |m| :: -1 <= m[p] <= 1
    ensures Depth(m[after..q], 0, k) >= 0 && Depth(m[after..q], 0, q - after) == 0
  {
    InsideIsBalanced(m, after, q, after + k);
    InnerDepth(m, after, q, k);
    InnerDepth(m, after, q, q - after);
  }

  lemma BalancedText(s: string, m: seq<int>, after: nat, q: nat, k: nat)
    requires m == Marks(s) && IsClose(m, after, Some(q)) && after + k <= q
    ensures q <= |s| && Depth(Marks(s[after..q]), 0, k) >= 0 && Depth(Marks(s[after..q]), 0, q - after) == 0
  {
    MarksAre(s);
    MarkedClose(s, m, q);
    InnerMarks(s, after, q);
    BalancedInside(m, after, q, k);
  }

  lemma EditCloses(text: string, m: seq<int>, next: nat -> Option<Edit>, i: nat, e: Edit)
    requires IsNext(text, m, next) && next(i) == Some(e)
    ensures IsClose(m, e.tagEnd + 1, Some(e.close))
  {
    assert NextEdit(text, i) == Some(e);
    EditIs(text, i, e);
  }

  /** Between a replaced head and its closing tag the buttons balance, and no beginning of that text
      closes more than it opens. */
  lemma ReplacedPairsAreBalanced(text: string, m: seq<int>, next: nat -> Option<Edit>, i: nat, e: Edit, k: nat)
    requires IsNext(text, m, next) && next(i) == Some(e) && e.tagEnd + 1 + k <= e.close
    ensures e.close <= |text| && Depth(Marks(text[e.tagEnd + 1..e.close]), 0, k) >= 0
    ensures Depth(Marks(text[e.tagEnd + 1..e.close]), 0, e.close - (e.tagEnd + 1)) == 0
  {
    EditCloses(text, m, next, i, e);
    BalancedText(text, m, e.tagEnd + 1, e.close, k);
  }

  ghost function Next(text: string): nat -> Option<Edit> {
    (i: nat) => NextEdit(text, i)
  }

  lemma NextIs(text: string)
    ensures IsNext(text, Marks(text), Next(text))
  {
  }

  /** What the rewriter promises: input and output are one weave, with the two parts of `count` disjoint
      buttons as they were or replaced. Each is the first legacy button behind the one before, up to
      where the next cannot be completed. */
  ghost predicate IsRewriting(text: string, edits: seq<Edit>, result: string, count: nat) {
    && WholeRun(Next(text), edits) && count == |edits|
    && Ordered(text, edits) && End(edits) <= |text|
    && text == Woven(text, edits, false) + text[End(edits)..]
    && result == Woven(text, edits, true) + text[End(edits)..]
  }

  method MigrateText(text: string) returns (result: string, count: nat)
    ensures exists edits :: IsRewriting(text, edits, result, count)
  {
    NextIs(text);
    ghost var edits;
    result, count, edits := Rewrite(text, Marks(text), Next(text));
    TextIsConserved(text, edits);
    assert IsRewriting(text, edits, result, count);
  }

  /** The text alone decides the result. */
  lemma ResultIsDetermined(text: string, edits: seq<Edit>, result: string, count: nat, edits': seq<Edit>, result': string, count': nat)
    requires IsRewriting(text, edits, result, count) && IsRewriting(text, edits', result', count')
    ensures result == result' && count == count'
  {
    NextIs(text);
    RewritingIsDetermined(text, Marks(text), Next(text), edits, edits');
  }
}
