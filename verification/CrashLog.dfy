/** The crash relay's two guards: payloads cut to a byte budget without breaking a character, and a
    limit on reports per window (web/src/crashLog.ts). */
module CrashLog {
  import opened Bits
  import opened Options
  import Utf8

  // ── truncate ────────────────────────────────────────────────────────────────

  const TRUNC_SUFFIX := "\U{2026}[truncated]"
  const TRUNC_SUFFIX_BYTES := 14

  lemma SuffixBytes()
    ensures TRUNC_SUFFIX == "\U{2026}[truncated]" && Utf8.Size(TRUNC_SUFFIX) == 14 == TRUNC_SUFFIX_BYTES
  {
    ThreeByteHead('\U{2026}', "[truncated]", TRUNC_SUFFIX);
  }

  lemma ThreeByteHead(c: char, text: string, all: string)
    requires 0x800 as char <= c <= 0xFFFF as char && all == [c] + text
    requires forall d | d in text :: d < 0x80 as char
    ensures Utf8.Size(all) == 3 + |text|
  {
    Utf8.AsciiTakesOneByte(text);
    assert all[1..] == text;
  }

  /** `k` characters of `s` fit the budget, and no more do. */
  predicate IsLongestFit(s: string, budget: nat, k: nat) {
    && k <= |s| && Utf8.Size(s[..k]) <= budget
    && (k < |s| ==> Utf8.Size(s[..k + 1]) > budget)
  }

  lemma {:induction false} SizeGrows(s: string, j: nat, k: nat)
    requires j < k <= |s|
    ensures Utf8.Size(s[..j]) < Utf8.Size(s[..k]) && (k == j + 1 ==> Utf8.Size(s[..k]) <= Utf8.Size(s[..j]) + 4)
  {
    var last := [s[k - 1]];
    assert s[..k] == s[..k - 1] + last;
    Utf8.EncodeConcat(s[..k - 1], last);
    assert last[1..] == "";
    if j < k - 1 { SizeGrows(s, j, k - 1); }
  }

  // Being the longest fit leaves no choice.
  lemma LongestFitIsUnique(s: string, budget: nat, j: nat, k: nat)
    requires IsLongestFit(s, budget, j) && IsLongestFit(s, budget, k)
    ensures j == k
  {
    if j < k && j + 1 < k { SizeGrows(s, j + 1, k); }
    if k < j && k + 1 < j { SizeGrows(s, k + 1, j); }
  }

  lemma {:induction false} LongestFitExists(s: string, budget: nat, upTo: nat) returns (k: nat)
    requires upTo <= |s| && (upTo < |s| ==> Utf8.Size(s[..upTo + 1]) > budget)
    ensures IsLongestFit(s, budget, k)
  {
    k := upTo;
    if Utf8.Size(s[..k]) <= budget {
    } else {
      assert s[..0] == "";
      k := LongestFitExists(s, budget, upTo - 1);
    }
  }

  /** A cut of the bytes decodes exactly when it falls between two characters. */
  lemma CutDecodes(s: string, end: nat) returns (k: nat)
    requires end <= Utf8.Size(s)
    ensures match Utf8.Decode(Utf8.Encode(s)[..end])
            case Some(head) => k <= |s| && head == s[..k] && Utf8.Size(s[..k]) == end
            case None => forall j | 0 <= j <= |s| :: Utf8.Size(s[..j]) != end
  {
    var bs := Utf8.Encode(s);
    match Utf8.Decode(bs[..end])
    case Some(head) =>
      Utf8.EncodeDecode(bs[..end], head);
      assert bs == bs[..end] + bs[end..];
      Utf8.PrefixOfEncoding(head, bs[end..], s);
      k := |head|;
    case None =>
      forall j | 0 <= j <= |s| ensures Utf8.Size(s[..j]) != end {
        assert s == s[..j] + s[j..];
        Utf8.EncodeConcat(s[..j], s[j..]);
        if Utf8.Size(s[..j]) == end {
          assert bs[..end] == Utf8.Encode(s[..j]);
          Utf8.DecodeEncode(s[..j]);
          assert false;
        }
      }
      k := 0;
  }

  function Budget(max: nat): nat {
    if max < TRUNC_SUFFIX_BYTES then 0 else max - TRUNC_SUFFIX_BYTES
  }

  /** Nothing for an empty text; the text itself when it fits; otherwise its longest prefix that
      leaves room for the suffix. */
  ghost predicate IsTruncation(s: Option<string>, max: nat, r: Option<string>) {
    if s.None? || s.value == "" then r == None
    else if Utf8.Size(s.value) <= max then r == s
    else exists k: nat :: IsLongestFit(s.value, Budget(max), k) && r == Some(s.value[..k] + TRUNC_SUFFIX)
  }

  /** The walk back needs at most three steps and never passes zero. */
  method Truncate(s: Option<string>, max: nat) returns (r: Option<string>, ghost steps: nat)
    ensures IsTruncation(s, max, r) && steps <= 3
  {
    steps := 0;
    if s.None? || s.value == "" { return None, 0; }
    var text := s.value;
    var bytes := Utf8.Encode(text);
    if |bytes| <= max { return s, 0; }
    var budget := Budget(max);
    var end := if budget < |bytes| then budget else |bytes|;
    ghost var fit := LongestFitExists(text, budget, |text|);
    assert text[..|text|] == text;
    SizeGrowsBy(text, fit);
    while true
      invariant Utf8.Size(text[..fit]) <= end && end + steps == budget < |bytes| && steps <= 3
      decreases end
    {
      ghost var k := CutDecodes(text, end);
      match Utf8.Decode(bytes[..end]) {
        case Some(head) =>
          CutIsFit(text, budget, fit, k, end);
          return Some(head + TRUNC_SUFFIX), steps;
        case None =>
          if end == 0 {
            assert false;
          }
          end := end - 1;
          steps := steps + 1;
      }
    }
  }

  // The next character would not fit, and it is at most four bytes long.
  lemma SizeGrowsBy(s: string, k: nat)
    requires k <= |s|
    ensures k < |s| ==> Utf8.Size(s[..k + 1]) <= Utf8.Size(s[..k]) + 4
  {
    if k < |s| { SizeGrows(s, k, k + 1); }
  }

  lemma CutIsFit(s: string, budget: nat, fit: nat, k: nat, end: nat)
    requires IsLongestFit(s, budget, fit) && k <= |s| && Utf8.Size(s[..k]) == end
    requires Utf8.Size(s[..fit]) <= end <= budget
    ensures k == fit
  {
    if k < fit {
      SizeGrows(s, k, fit);
    } else if fit < k {
      if fit + 1 < k { SizeGrows(s, fit + 1, k); }
    }
  }

  lemma CutSize(s: string, max: nat, k: nat, suffix: string)
    requires IsLongestFit(s, Budget(max), k) && Utf8.Size(suffix) == TRUNC_SUFFIX_BYTES && Utf8.Size(s) > max
    ensures k < |s|
    ensures Utf8.Size(s[..k] + suffix) == Utf8.Size(s[..k]) + TRUNC_SUFFIX_BYTES
    ensures max < TRUNC_SUFFIX_BYTES ==> k == 0
  {
    Utf8.EncodeConcat(s[..k], suffix);
    assert s[..|s|] == s;
    if k > 0 { SizeGrows(s, 0, k); }
  }

  /** What the callers rely on: the budget is kept whenever the suffix itself fits, and a cut text
      is a proper prefix with the suffix behind it. */
  lemma TruncationFits(s: Option<string>, max: nat, r: Option<string>)
    requires IsTruncation(s, max, r) && r.Some?
    ensures max >= 14 ==> Utf8.Size(r.value) <= max
    ensures r == s || exists k :: 0 <= k < |s.value| && r.value == s.value[..k] + TRUNC_SUFFIX
  {
    if Utf8.Size(s.value) > max {
      var k: nat :| IsLongestFit(s.value, Budget(max), k) && r == Some(s.value[..k] + TRUNC_SUFFIX);
      SuffixBytes();
      CutSize(s.value, max, k, TRUNC_SUFFIX);
    }
  }

  /** A text that fits is left alone, and any other one is cut as late as possible. */
  lemma TruncationIsLongest(s: string, max: nat, r: Option<string>) returns (k: nat)
    requires IsTruncation(Some(s), max, r) && s != ""
    ensures Utf8.Size(s) <= max ==> r == Some(s)
    ensures Utf8.Size(s) > max ==> r.Some? && IsCutAt(s, max, k, r.value)
  {
    k := 0;
    if Utf8.Size(s) > max {
      k :| IsLongestFit(s, Budget(max), k) && r == Some(s[..k] + TRUNC_SUFFIX);
      SuffixBytes();
      CutSize(s, max, k, TRUNC_SUFFIX);
    }
  }

  /** The first `k` characters and the suffix, where one character more would be too much; below fourteen
      the suffix alone. */
  predicate IsCutAt(s: string, max: nat, k: nat, r: string) {
    && k < |s| && r == s[..k] + "\U{2026}[truncated]" && Utf8.Size(s[..k + 1]) + 14 > max
    && (max < 14 ==> k == 0)
  }

  /** Below fourteen the suffix alone is longer than the limit: the result is over it exactly when
      the text was. */
  lemma TinyLimits(s: Option<string>, max: nat, r: Option<string>)
    requires IsTruncation(s, max, r) && r.Some? && max < TRUNC_SUFFIX_BYTES
    ensures Utf8.Size(r.value) > max <==> Utf8.Size(s.value) > max
  {
    if Utf8.Size(s.value) > max {
      var k: nat :| IsLongestFit(s.value, Budget(max), k) && r == Some(s.value[..k] + TRUNC_SUFFIX);
      SuffixBytes();
      CutSize(s.value, max, k, TRUNC_SUFFIX);
    }
  }

  // ── rateLimitOk ─────────────────────────────────────────────────────────────

  const RATE_LIMIT := 30
  const WINDOW := 60_000

  datatype Rate = Rate(count: nat, start: int)

  function Renewed(r: Rate, now: int): Rate {
    if now - r.start >= WINDOW then Rate(0, now) else r
  }

  function Asked(r: Rate, now: int): (Rate, bool) {
    var w := Renewed(r, now);
    if w.count >= RATE_LIMIT then (w, false) else (Rate(w.count + 1, w.start), true)
  }

  class Limiter {
    var rateCount: nat
    var rateWindowStart: int

    constructor (now: int)
      ensures rateCount == 0 && rateWindowStart == now
    {
      rateCount, rateWindowStart := 0, now;
    }

    function State(): Rate
      reads this
    {
      Rate(rateCount, rateWindowStart)
    }

    method RateLimitOk(now: int) returns (ok: bool)
      modifies this
      ensures (State(), ok) == Asked(old(State()), now)
    {
      if now - rateWindowStart >= WINDOW {
        rateWindowStart := now;
        rateCount := 0;
      }
      if rateCount >= RATE_LIMIT { return false; }
      rateCount := rateCount + 1;
      return true;
    }
  }

  /** How many of a run of calls were let through within [a, b). */
  function Passed(r: Rate, times: seq<int>, a: int, b: int): nat
    decreases |times|
  {
    if times == [] then 0
    else (if Asked(r, times[0]).1 && a <= times[0] < b then 1 else 0) + Passed(Asked(r, times[0]).0, times[1..], a, b)
  }

  predicate Monotone(from: int, times: seq<int>) {
    (forall i | 0 <= i < |times| :: from <= times[i]) && forall i, j | 0 <= i < j < |times| :: times[i] <= times[j]
  }

  // How many calls can still pass within a window-long interval beginning at `a`, seen from a state.
  function Room(r: Rate, a: int): int {
    if r.start >= a + WINDOW then 0
    else if r.start >= a then RATE_LIMIT - r.count
    else if r.start > a - WINDOW then 2 * RATE_LIMIT - r.count
    else 2 * RATE_LIMIT
  }

  lemma {:induction false} PassedWithinRoom(r: Rate, times: seq<int>, a: int)
    requires r.count <= RATE_LIMIT && Monotone(r.start, times)
    ensures Passed(r, times, a, a + WINDOW) <= Room(r, a)
    decreases |times|
  {
    if times == [] {
    } else {
      var r' := Asked(r, times[0]).0;
      assert forall i | 0 <= i < |times[1..]| :: times[1..][i] == times[i + 1];
      PassedWithinRoom(r', times[1..], a);
    }
  }

  // ── Cutting a run ───────────────────────────────────────────────────────────

  function AfterAll(r: Rate, times: seq<int>): Rate
    decreases |times|
  {
    if times == [] then r else AfterAll(Asked(r, times[0]).0, times[1..])
  }

  lemma {:induction false} PassedConcat(r: Rate, xs: seq<int>, ys: seq<int>, a: int, b: int)
    ensures Passed(r, xs + ys, a, b) == Passed(r, xs, a, b) + Passed(AfterAll(r, xs), ys, a, b)
    decreases |xs|
  {
    if xs == [] {
      assert xs + ys == ys;
    } else {
      assert (xs + ys)[1..] == xs[1..] + ys;
      PassedConcat(Asked(r, xs[0]).0, xs[1..], ys, a, b);
    }
  }

  predicate AllFrom(times: seq<int>, t: int) {
    forall i | 0 <= i < |times| :: t <= times[i]
  }

  predicate AllBefore(times: seq<int>, t: int) {
    forall i | 0 <= i < |times| :: times[i] < t
  }

  // No call is further from the beginning of the window it leaves behind than the window is long.
  lemma {:induction false} StateOf(r: Rate, times: seq<int>)
    requires r.count <= RATE_LIMIT && Monotone(r.start, times)
    ensures AfterAll(r, times).count <= RATE_LIMIT && AfterAll(r, times).start >= r.start
    ensures AllBefore(times, AfterAll(r, times).start + WINDOW)
    decreases |times|
  {
    if times == [] {
    } else {
      var r' := Asked(r, times[0]).0;
      assert forall i | 0 <= i < |times[1..]| :: times[1..][i] == times[i + 1];
      StateOf(r', times[1..]);
      assert r'.start + WINDOW > times[0];
      forall i | 0 <= i < |times| ensures times[i] < AfterAll(r', times[1..]).start + WINDOW {
        if i > 0 { assert times[1..][i - 1] == times[i]; }
      }
    }
  }

  lemma {:induction false} OutsideNonePass(r: Rate, times: seq<int>, a: int, b: int)
    requires AllBefore(times, a) || AllFrom(times, b)
    ensures Passed(r, times, a, b) == 0
    decreases |times|
  {
    if times == [] {
    } else {
      OutsideNonePass(Asked(r, times[0]).0, times[1..], a, b);
    }
  }

  function Min(x: int, y: int): int {
    if x <= y then x else y
  }

  // Within one window the first calls up to the limit pass, and no other.
  lemma {:induction false} InsideWindow(r: Rate, times: seq<int>, a: int, b: int)
    requires r.count <= RATE_LIMIT && AllFrom(times, a) && AllBefore(times, b) && AllBefore(times, r.start + WINDOW)
    ensures Passed(r, times, a, b) == Min(|times|, RATE_LIMIT - r.count)
    ensures AfterAll(r, times).start == r.start
    decreases |times|
  {
    if times == [] {
    } else {
      InsideWindow(Asked(r, times[0]).0, times[1..], a, b);
    }
  }

  lemma InsideNextWindow(r: Rate, times: seq<int>, a: int, b: int)
    requires b <= a + WINDOW && AllFrom(times, a) && AllBefore(times, b) && AllFrom(times, r.start + WINDOW)
    ensures Passed(r, times, a, b) == Min(|times|, RATE_LIMIT)
  {
    if times == [] {
    } else {
      InsideWindow(Asked(r, times[0]).0, times[1..], a, b);
    }
  }

  /** How many calls of a run come before a time. */
  function Before(times: seq<int>, t: int): (n: nat)
    ensures n <= |times| && (n < |times| ==> times[n] >= t) && AllBefore(times[..n], t)
  {
    if times == [] || times[0] >= t then 0
    else
      var n := Before(times[1..], t);
      assert times[..n + 1] == [times[0]] + times[1..][..n];
      n + 1
  }

  lemma NotBefore(from: int, times: seq<int>, t: int)
    requires Monotone(from, times)
    ensures AllFrom(times[Before(times, t)..], t)
  {
    var n := Before(times, t);
    forall i | 0 <= i < |times[n..]| ensures t <= times[n..][i] {
      assert i == 0 || times[n] <= times[n + i];
    }
  }

  lemma PassedCut(r: Rate, times: seq<int>, n: nat, a: int, b: int)
    requires n <= |times|
    ensures Passed(r, times, a, b) == Passed(r, times[..n], a, b) + Passed(AfterAll(r, times[..n]), times[n..], a, b)
  {
    assert times == times[..n] + times[n..];
    PassedConcat(r, times[..n], times[n..], a, b);
  }

  // The calls after an interval do nothing at all.
  lemma PassedUpTo(r: Rate, times: seq<int>, a: int, b: int, from: int)
    requires Monotone(from, times)
    ensures Passed(r, times, a, b) == Passed(r, times[..Before(times, b)], a, b)
  {
    var n := Before(times, b);
    NotBefore(from, times, b);
    PassedCut(r, times, n, a, b);
    OutsideNonePass(AfterAll(r, times[..n]), times[n..], a, b);
  }

  // A run in two parts.
  lemma Suffix(from: int, times: seq<int>, n: nat)
    requires n <= |times| && Monotone(from, times)
    ensures Monotone(from, times[..n]) && Monotone(from, times[n..])
  {
    assert forall i | 0 <= i < |times| - n :: times[n..][i] == times[n + i];
  }

  // ── Thirty a window ─────────────────────────────────────────────────────────

  /** A call that finds the last window over opens one, and of the calls of that window exactly the
      first thirty pass: over every run, every window. */
  lemma EachWindowPassesThirty(r: Rate, times: seq<int>, n: nat)
    requires r.count <= RATE_LIMIT && Monotone(r.start, times)
    requires n < |times| && times[n] - AfterAll(r, times[..n]).start >= 60_000
    ensures Passed(r, times, times[n], times[n] + 60_000) == Min(Before(times[n..], times[n] + 60_000), 30)
  {
    Suffix(r.start, times, n);
    StateOf(r, times[..n]);
    PassedCut(r, times, n, times[n], times[n] + WINDOW);
    OutsideNonePass(r, times[..n], times[n], times[n] + WINDOW);
    OneWindow(AfterAll(r, times[..n]), times[n..], r.start);
  }

  lemma OneWindow(s: Rate, ys: seq<int>, from: int)
    requires ys != [] && Monotone(from, ys) && ys[0] >= s.start + WINDOW
    ensures Passed(s, ys, ys[0], ys[0] + WINDOW) == Min(Before(ys, ys[0] + WINDOW), RATE_LIMIT)
  {
    var b := ys[0] + WINDOW;
    PassedUpTo(s, ys, ys[0], b, from);
    assert forall i | 0 < i < |ys| :: ys[0] <= ys[i];
    InsideNextWindow(s, ys[..Before(ys, b)], ys[0], b);
  }

  /** Any window-long interval of any run sees at most sixty reports; the one that begins with the run,
      which opens its first window, at most thirty. */
  lemma AtMostTwiceTheLimit(start: int, times: seq<int>, a: int)
    requires Monotone(start, times)
    ensures Passed(Rate(0, start), times, a, a + 60_000) <= 60
    ensures a == start ==> Passed(Rate(0, start), times, a, a + 60_000) <= 30
  {
    PassedWithinRoom(Rate(0, start), times, a);
  }

  // ── Thirty a minute ─────────────────────────────────────────────────────────

  /** A run seen from a minute that begins anywhere: what the window that is running then has let
      through before, how many calls of the minute still fall into it, and how many come after it. */
  datatype Minute = Minute(spent: nat, late: nat, next: nat)

  function MinuteFrom(r: Rate, times: seq<int>, a: int): Minute {
    var i := Before(times, a);
    MinuteOf(AfterAll(r, times[..i]), times[i..], a)
  }

  function MinuteOf(s: Rate, rest: seq<int>, a: int): Minute {
    var inside := rest[..Before(rest, a + WINDOW)];
    var late := Before(inside, s.start + WINDOW);
    Minute(s.count, late, |inside| - late)
  }

  lemma PassedInside(s: Rate, inside: seq<int>, a: int, from: int)
    requires s.count <= RATE_LIMIT && Monotone(from, inside) && AllFrom(inside, a) && AllBefore(inside, a + WINDOW)
    ensures var late := Before(inside, s.start + WINDOW);
            Passed(s, inside, a, a + WINDOW) == Min(late, RATE_LIMIT - s.count) + Min(|inside| - late, RATE_LIMIT)
  {
    var b := a + WINDOW;
    var j := Before(inside, s.start + WINDOW);
    NotBefore(from, inside, s.start + WINDOW);
    PassedCut(s, inside, j, a, b);
    InsideWindow(s, inside[..j], a, b);
    InsideNextWindow(AfterAll(s, inside[..j]), inside[j..], a, b);
  }

  lemma PassedOfRest(s: Rate, rest: seq<int>, a: int, from: int)
    requires s.count <= RATE_LIMIT && Monotone(from, rest) && AllFrom(rest, a)
    ensures var m := MinuteOf(s, rest, a);
            Passed(s, rest, a, a + WINDOW) == Min(m.late, RATE_LIMIT - m.spent) + Min(m.next, RATE_LIMIT)
  {
    PassedUpTo(s, rest, a, a + WINDOW, from);
    Suffix(from, rest, Before(rest, a + WINDOW));
    PassedInside(s, rest[..Before(rest, a + WINDOW)], a, from);
  }

  /** How many of a minute's calls pass, exactly: those of the running window as far as it has room,
      and the first thirty of the next. */
  lemma PassedExactly(r: Rate, times: seq<int>, a: int)
    requires r.count <= RATE_LIMIT && Monotone(r.start, times)
    ensures var m := MinuteFrom(r, times, a);
            m.spent <= 30
            && Passed(r, times, a, a + 60_000) == Min(m.late, 30 - m.spent) + Min(m.next, 30)
  {
    var i := Before(times, a);
    Suffix(r.start, times, i);
    NotBefore(r.start, times, a);
    StateOf(r, times[..i]);
    PassedCut(r, times, i, a, a + WINDOW);
    OutsideNonePass(r, times[..i], a, a + WINDOW);
    PassedOfRest(AfterAll(r, times[..i]), times[i..], a, r.start);
  }

  /** So the thirty a minute that the relay is said to keep hold for a minute if and only if the window
      that ends in it takes no call of it, or had no room left, or had let at least as many through
      before as the next one is asked, or both together are asked no more than thirty times. */
  lemma ThirtyAMinuteExactly(r: Rate, times: seq<int>, a: int)
    requires r.count <= RATE_LIMIT && Monotone(r.start, times)
    ensures var m := MinuteFrom(r, times, a);
            Passed(r, times, a, a + 60_000) <= 30
            <==> m.late == 0 || m.spent == 30 || m.next <= m.spent || m.late + m.next <= 30
  {
    PassedExactly(r, times, a);
  }

  function Burst(at: int, n: nat): (ts: seq<int>)
    ensures |ts| == n && forall i | 0 <= i < n :: ts[i] == at
  {
    seq(n, i => at)
  }

  lemma {:induction false} BurstPasses(r: Rate, at: int, n: nat, rest: seq<int>, a: int, b: int)
    requires r.count + n <= RATE_LIMIT && at - r.start < WINDOW && a <= at < b
    ensures Passed(r, Burst(at, n) + rest, a, b) == n + Passed(Rate(r.count + n, r.start), rest, a, b)
    decreases n
  {
    if n == 0 {
      assert Burst(at, n) + rest == rest;
    } else {
      assert (Burst(at, n) + rest)[0] == at && (Burst(at, n) + rest)[1..] == Burst(at, n - 1) + rest;
      BurstPasses(Rate(r.count + 1, r.start), at, n - 1, rest, a, b);
    }
  }

  /** The bound is reached: thirty calls at the end of one window and thirty at the beginning of the
      next all pass, so the limit is not one per minute of the clock. */
  lemma SixtyInOneMinute(start: int) returns (times: seq<int>, a: int)
    ensures Monotone(start, times) && Passed(Rate(0, start), times, a, a + 60_000) == 60
  {
    var late, next := start + WINDOW - 1, start + WINDOW;
    a := late;
    times := Burst(late, RATE_LIMIT) + Burst(next, RATE_LIMIT);
    BurstPasses(Rate(0, start), late, RATE_LIMIT, Burst(next, RATE_LIMIT), a, a + WINDOW);
    NextWindow(Rate(RATE_LIMIT, start), next, RATE_LIMIT, a, a + WINDOW);
  }

  lemma NextWindow(r: Rate, at: int, n: nat, a: int, b: int)
    requires 0 < n <= RATE_LIMIT && at - r.start >= WINDOW && a <= at < b
    ensures Passed(r, Burst(at, n), a, b) == n
  {
    assert Burst(at, n)[1..] == Burst(at, n - 1) + [];
    BurstPasses(Rate(1, at), at, n - 1, [], a, b);
  }
}
