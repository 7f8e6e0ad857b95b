/** Line buffers fed from a terminal in chunks (Scrollback and SessionBuffer in pty.rs): what they hold
    is a function of the whole stream, wherever it was cut, except between a carriage return and the
    newline behind it. */
module Scrollback {
  import opened Bits
  import opened Sequences
  import Utf8

  const MAX_PARTIAL := 8192

  /** Every line completed so far, and the one in progress. */
  datatype History = History(lines: seq<string>, partial: string)

  const EMPTY := History([], "")

  // ── One character, one chunk ────────────────────────────────────────────────

  /** The cut falls between a carriage return and its newline. */
  predicate Straddled(a: string, b: string) {
    a != "" && b != "" && a[|a| - 1] == '\r' && b[0] == '\n'
  }

  /** `chunk.replace("\r\n", "\n")`: a return goes when a newline is right behind it. */
  function Normalise(s: string): string
    decreases |s|
  {
    if s == "" then "" else (if Straddled(s[..1], s[1..]) then "" else s[..1]) + Normalise(s[1..])
  }

  function Put(h: History, c: char): History {
    if c == '\n' then History(h.lines + [h.partial], "")
    else if c == '\r' then h.(partial := "")
    else if Utf8.Size(h.partial) < MAX_PARTIAL then h.(partial := h.partial + [c])
    else h
  }

  function PutAll(h: History, s: string): History
    decreases |s|
  {
    if s == "" then h else Put(PutAll(h, s[..|s| - 1]), s[|s| - 1])
  }

  function Feed(h: History, chunk: string): History {
    PutAll(h, Normalise(chunk))
  }

  function FeedAll(h: History, chunks: seq<string>): History
    decreases |chunks|
  {
    if chunks == [] then h else FeedAll(Feed(h, chunks[0]), chunks[1..])
  }

  function Join(chunks: seq<string>): string {
    if chunks == [] then "" else chunks[0] + Join(chunks[1..])
  }

  // ── The buffer ──────────────────────────────────────────────────────────────

  const SCROLLBACK_MAX_LINES := 50
  const SESSION_BUFFER_MAX_LINES := 500

  /** Scrollback keeps 50 lines, SessionBuffer 500; their loops are the same. */
  class LineBuffer {
    const maxLines: nat
    var lines: seq<string>
    var partial: string
    ghost var all: seq<string>

    ghost predicate Valid()
      reads this
    {
      lines == Last(all, maxLines)
    }

    ghost function Seen(): History
      reads this
    {
      History(all, partial)
    }

    constructor (maxLines: nat)
      ensures Valid() && Seen() == EMPTY && this.maxLines == maxLines
    {
      this.maxLines := maxLines;
      lines, partial, all := [], "", [];
    }

    method Push(chunk: string)
      requires Valid()
      modifies this
      ensures Valid() && Seen() == Feed(old(Seen()), chunk)
    {
      var normalized := Normalise(chunk);
      for i := 0 to |normalized|
        invariant Valid() && Seen() == PutAll(old(Seen()), normalized[..i])
      {
        var c := normalized[i];
        assert normalized[..i + 1][..i] == normalized[..i];
        PushChar(c);
      }
      assert normalized[..|normalized|] == normalized;
    }

    /** A run of chunks, in the order they arrive. */
    method PushAll(chunks: seq<string>)
      requires Valid()
      modifies this
      ensures Valid() && Seen() == FeedAll(old(Seen()), chunks)
    {
      for i := 0 to |chunks|
        invariant Valid() && FeedAll(Seen(), chunks[i..]) == FeedAll(old(Seen()), chunks)
      {
        assert chunks[i..][1..] == chunks[i + 1..];
        Push(chunks[i]);
      }
    }

    method PushChar(c: char)
      requires Valid()
      modifies this
      ensures Valid() && Seen() == Put(old(Seen()), c)
    {
      if c == '\n' {
        var line := partial;
        partial := "";
        all := all + [line];
        lines := lines + [line];
        while |lines| > maxLines
          invariant all == old(all) + [line] && line == old(partial) && partial == ""
          invariant |lines| <= |all| && lines == all[|all| - |lines|..]
          invariant |lines| >= (if |all| < maxLines then |all| else maxLines)
        {
          lines := lines[1..];
        }
      } else if c == '\r' {
        partial := "";
      } else if Utf8.Size(partial) < MAX_PARTIAL {
        partial := partial + [c];
      }
    }

    method Snapshot() returns (out: seq<string>)
      requires Valid()
      ensures out == Last(Seen().lines, maxLines) + (if Seen().partial == "" then [] else [Seen().partial])
      ensures |out| > maxLines <==> |Seen().lines| >= maxLines && Seen().partial != ""
    {
      out := lines;
      if partial != "" {
        out := out + [partial];
      }
    }
  }

  // ── The whole stream at once ────────────────────────────────────────────────

  /** The text between newlines; one segment more than there are newlines. */
  function Segments(s: string): (segs: seq<string>)
    ensures |segs| > 0
  {
    if s == "" then [""]
    else
      var segs := Segments(s[..|s| - 1]);
      var c := s[|s| - 1];
      if c == '\n' then segs + [""] else segs[..|segs| - 1] + [segs[|segs| - 1] + [c]]
  }

  function AfterLastReturn(s: string): string {
    if s == "" then ""
    else if s[|s| - 1] == '\r' then ""
    else AfterLastReturn(s[..|s| - 1]) + [s[|s| - 1]]
  }

  /** The shortest prefix that reaches the limit, or all. */
  function Cut(s: string): string {
    if s == "" then ""
    else
      var p := Cut(s[..|s| - 1]);
      if Utf8.Size(p) < MAX_PARTIAL then p + [s[|s| - 1]] else p
  }

  function LineOf(segment: string): string {
    Cut(AfterLastReturn(segment))
  }

  function LinesOf(segs: seq<string>): seq<string> {
    if segs == [] then [] else LinesOf(segs[..|segs| - 1]) + [LineOf(segs[|segs| - 1])]
  }

  /** What a stream leaves, said without a machine. */
  function Whole(s: string): History {
    var segs := Segments(Normalise(s));
    History(LinesOf(segs[..|segs| - 1]), LineOf(segs[|segs| - 1]))
  }

  // ── What the parts of that definition mean ──────────────────────────────────

  lemma {:induction false} AfterLastReturnIs(s: string) returns (before: string)
    ensures s == before + AfterLastReturn(s) && '\r' !in AfterLastReturn(s)
    ensures before == "" || before[|before| - 1] == '\r'
  {
    if s == "" {
      before := "";
    } else if s[|s| - 1] == '\r' {
      before := s;
    } else {
      before := AfterLastReturnIs(s[..|s| - 1]);
    }
  }

  lemma SizeMore(s: string, c: char)
    ensures Utf8.Size(s) < Utf8.Size(s + [c]) <= Utf8.Size(s) + 4
  {
    Utf8.EncodeConcat(s, [c]);
    assert [c][1..] == "";
  }

  /** A prefix; all of the text when that stays below the limit; otherwise at the limit, and no more
      than one character over what was below it. */
  lemma {:induction false} CutIsShortest(s: string)
    ensures Cut(s) <= s && Utf8.Size(Cut(s)) <= 8195
    ensures Utf8.Size(Cut(s)) < 8192 ==> Cut(s) == s
    ensures forall k | 0 <= k < |Cut(s)| :: Utf8.Size(s[..k]) < 8192
  {
    if s == "" {
    } else {
      var t, c := s[..|s| - 1], s[|s| - 1];
      CutIsShortest(t);
      var p := Cut(t);
      SizeMore(p, c);
      assert s == t + [c];
      forall k | 0 <= k < |Cut(s)| ensures Utf8.Size(s[..k]) < MAX_PARTIAL {
        if k < |p| {
          assert s[..k] == t[..k];
        } else {
          assert s[..k] == p;
        }
      }
    }
  }

  /** No line of a stream is over the limit by more than the rest of one character. */
  lemma {:induction false} LinesAreBounded(segs: seq<string>)
    ensures forall line | line in LinesOf(segs) :: Utf8.Size(line) <= 8195
  {
    if segs == [] {
    } else {
      LinesAreBounded(segs[..|segs| - 1]);
      CutIsShortest(AfterLastReturn(segs[|segs| - 1]));
    }
  }

  lemma {:induction false} SegmentsHaveNoNewline(s: string)
    ensures forall g | g in Segments(s) :: '\n' !in g
  {
    if s == "" {
    } else {
      SegmentsHaveNoNewline(s[..|s| - 1]);
    }
  }

  lemma TogetherMore(init: seq<string>, last: string)
    requires init != []
    ensures Together(init + [last]) == Together(init) + "\n" + last
  {
    assert (init + [last])[..|init|] == init;
  }

  /** Putting the newlines back gives the text. */
  lemma {:induction false} JoinSegments(s: string)
    ensures Together(Segments(s)) == s
  {
    if s == "" {
    } else {
      var t, c := s[..|s| - 1], s[|s| - 1];
      JoinSegments(t);
      var segs := Segments(t);
      assert s == t + [c];
      if c == '\n' {
        TogetherMore(segs, "");
      } else {
        var init, last := segs[..|segs| - 1], segs[|segs| - 1];
        assert segs == init + [last];
        LastGrows(init, last, c);
      }
    }
  }

  lemma LastGrows(init: seq<string>, last: string, c: char)
    ensures Together(init + [last + [c]]) == Together(init + [last]) + [c]
  {
    if init != [] {
      TogetherMore(init, last);
      TogetherMore(init, last + [c]);
    }
  }

  /** Segments with a newline between each two. */
  function Together(segs: seq<string>): string
    requires |segs| > 0
  {
    if |segs| == 1 then segs[0] else Together(segs[..|segs| - 1]) + "\n" + segs[|segs| - 1]
  }

  // ── The machine computes it ─────────────────────────────────────────────────

  lemma {:induction false} MachineIs(s: string)
    ensures var segs := Segments(s);
            PutAll(EMPTY, s) == History(LinesOf(segs[..|segs| - 1]), LineOf(segs[|segs| - 1]))
  {
    if s == "" {
    } else {
      var t, c := s[..|s| - 1], s[|s| - 1];
      MachineIs(t);
      var segs := Segments(t);
      var init, last := segs[..|segs| - 1], segs[|segs| - 1];
      if c == '\n' {
        assert (segs + [""])[..|segs|] == segs;
        assert segs == init + [last];
      } else {
        assert (init + [last + [c]])[..|init|] == init;
        LineMore(last, c);
      }
    }
  }

  lemma LineMore(g: string, c: char)
    requires c != '\n'
    ensures LineOf(g + [c]) == if c == '\r' then "" else if Utf8.Size(LineOf(g)) < 8192 then LineOf(g) + [c] else LineOf(g)
  {
    assert (g + [c])[..|g|] == g;
    if c != '\r' {
      var t := AfterLastReturn(g);
      assert (t + [c])[..|t|] == t;
    }
  }

  // ── Cutting the stream ──────────────────────────────────────────────────────

  lemma {:induction false} PutAllConcat(h: History, s: string, t: string)
    ensures PutAll(h, s + t) == PutAll(PutAll(h, s), t)
    decreases |t|
  {
    if t == "" {
      assert s + t == s;
    } else {
      assert (s + t)[..|s + t| - 1] == s + t[..|t| - 1];
      PutAllConcat(h, s, t[..|t| - 1]);
    }
  }

  lemma NormaliseCons(c: string, s: string)
    requires |c| == 1
    ensures Normalise(c + s) == Kept(c, s) + Normalise(s)
  {
    assert (c + s)[..1] == c && (c + s)[1..] == s;
  }

  /** What becomes of a text when another one follows. */
  function NormaliseBefore(a: string, b: string): string {
    if Straddled(a, b) then Normalise(a[..|a| - 1]) else Normalise(a)
  }

  function Kept(c: string, t: string): string {
    if Straddled(c, t) then "" else c
  }

  lemma {:induction false} NormaliseConcat(a: string, b: string)
    ensures Normalise(a + b) == NormaliseBefore(a, b) + Normalise(b)
    decreases |a|
  {
    if a == "" {
      assert a + b == b;
    } else {
      var c, t := a[..1], a[1..];
      assert a == c + t;
      if t == "" {
        assert a == c && a[..|a| - 1] == "";
        NormaliseCons(c, b);
        NormaliseCons(c, "");
        assert c + "" == c;
      } else {
        calc {
          Normalise(c + t + b);
          { assert c + t + b == c + (t + b); NormaliseCons(c, t + b); }
          Kept(c, t + b) + Normalise(t + b);
          { NormaliseConcat(t, b); assert Kept(c, t + b) == Kept(c, t); }
          Kept(c, t) + (NormaliseBefore(t, b) + Normalise(b));
          Kept(c, t) + NormaliseBefore(t, b) + Normalise(b);
          { BeforeFront(c, t, b); }
          NormaliseBefore(c + t, b) + Normalise(b);
        }
      }
    }
  }

  // What is done to the first character does not depend on what is cut at the end.
  lemma BeforeFront(c: string, t: string, b: string)
    requires |c| == 1 && t != ""
    ensures NormaliseBefore(c + t, b) == Kept(c, t) + NormaliseBefore(t, b)
  {
    assert Straddled(c + t, b) == Straddled(t, b);
    if Straddled(t, b) {
      assert (c + t)[..|t|] == c + t[..|t| - 1];
      NormaliseCons(c, t[..|t| - 1]);
    } else {
      NormaliseCons(c, t);
    }
  }

  lemma NormaliseClean(a: string, b: string)
    requires !Straddled(a, b)
    ensures Normalise(a + b) == Normalise(a) + Normalise(b)
  {
    NormaliseConcat(a, b);
  }

  // The text before a straddled cut ends in a return that the next chunk's newline would have taken.
  lemma NormaliseStraddled(a: string, b: string)
    ensures Normalise(a + "\r") == Normalise(a) + "\r"
    ensures Normalise("\n" + b) == "\n" + Normalise(b)
    ensures Normalise(a + "\r" + ("\n" + b)) == Normalise(a) + "\n" + Normalise(b)
  {
    NormaliseClean(a, "\r");
    NormaliseCons("\r", "");
    assert "\r" + "" == "\r";
    NormaliseCons("\n", b);
    NormaliseConcat(a + "\r", "\n" + b);
    assert (a + "\r")[..|a|] == a;
  }

  /** Every straddled cut of the run came when the line before it was empty. */
  predicate Harmless(h: History, chunks: seq<string>)
    decreases |chunks|
  {
    chunks == []
    || (&& (Straddled(chunks[0], Join(chunks[1..])) ==> Feed(h, chunks[0][..|chunks[0]| - 1]).partial == "")
        && Harmless(Feed(h, chunks[0]), chunks[1..]))
  }

  lemma LinesStay(h: History, s: string)
    ensures h.lines <= PutAll(h, s).lines
    decreases |s|
  {
    if s != "" { LinesStay(h, s[..|s| - 1]); }
  }

  lemma {:induction false} LinesStayFeeding(h: History, chunks: seq<string>)
    ensures h.lines <= FeedAll(h, chunks).lines
    decreases |chunks|
  {
    if chunks == [] {
    } else {
      LinesStay(h, Normalise(chunks[0]));
      LinesStayFeeding(Feed(h, chunks[0]), chunks[1..]);
    }
  }

  // A newline that arrives next completes the line as it stands.
  lemma {:induction false} NewlineNext(h: History, chunks: seq<string>)
    requires Join(chunks) != "" && Join(chunks)[0] == '\n'
    ensures h.lines + [h.partial] <= FeedAll(h, chunks).lines
    decreases |chunks|
  {
    if chunks[0] == "" {
      assert Join(chunks) == Join(chunks[1..]);
      NewlineNext(h, chunks[1..]);
    } else {
      var b := chunks[0][1..];
      assert chunks[0] == "\n" + b;
      NormaliseStraddled("", b);
      PutAllConcat(h, "\n", Normalise(b));
      PutOne(h, '\n');
      LinesStay(Put(h, '\n'), Normalise(b));
      LinesStayFeeding(Feed(h, chunks[0]), chunks[1..]);
    }
  }

  lemma PutOne(h: History, c: char)
    ensures PutAll(h, [c]) == Put(h, c)
  {
    assert [c][..0] == "";
  }

  // Before and after the return, and what each side makes of the newline.
  lemma AtStraddle(h: History, a: string, b: string)
    ensures var p := Feed(h, a);
            && Feed(h, a + "\r") == p.(partial := "")
            && Feed(h, a + "\r" + ("\n" + b)) == PutAll(History(p.lines + [p.partial], ""), Normalise(b))
            && Feed(p.(partial := ""), "\n" + b) == PutAll(History(p.lines + [""], ""), Normalise(b))
  {
    var p := Feed(h, a);
    NormaliseStraddled(a, b);
    PutAllConcat(h, Normalise(a), "\r");
    PutOne(p, '\r');
    PutAllConcat(h, Normalise(a) + "\n", Normalise(b));
    PutAllConcat(h, Normalise(a), "\n");
    PutOne(p, '\n');
    PutAllConcat(p.(partial := ""), "\n", Normalise(b));
    PutOne(p.(partial := ""), '\n');
  }

  /** Any run of chunks leaves what the whole stream leaves exactly when every straddled cut was
      harmless. */
  lemma {:induction false} StreamingIsWhole(h: History, chunks: seq<string>)
    ensures FeedAll(h, chunks) == Feed(h, Join(chunks)) <==> Harmless(h, chunks)
    decreases |chunks|
  {
    if chunks == [] {
    } else {
      var c, rest := chunks[0], Join(chunks[1..]);
      StreamingIsWhole(Feed(h, c), chunks[1..]);
      if Straddled(c, rest) {
        StraddledStep(h, chunks, c[..|c| - 1], rest[1..]);
      } else {
        NormaliseClean(c, rest);
        PutAllConcat(h, Normalise(c), Normalise(rest));
      }
    }
  }

  lemma StraddledStep(h: History, chunks: seq<string>, a: string, b: string)
    requires chunks != [] && chunks[0] == a + "\r" && Join(chunks[1..]) == "\n" + b
    ensures Feed(h, a).partial == "" ==> Feed(h, Join(chunks)) == Feed(Feed(h, chunks[0]), Join(chunks[1..]))
    ensures Feed(h, a).partial != "" ==> Feed(h, Join(chunks)) != FeedAll(h, chunks)
  {
    var p := Feed(h, a);
    AtStraddle(h, a, b);
    if p.partial != "" {
      NewlineNext(p.(partial := ""), chunks[1..]);
      LinesStay(History(p.lines + [p.partial], ""), Normalise(b));
      assert FeedAll(h, chunks).lines[|p.lines|] == "";
      assert Feed(h, Join(chunks)).lines[|p.lines|] == p.partial;
    }
  }

  predicate CleanCuts(chunks: seq<string>) {
    chunks == [] || (!Straddled(chunks[0], Join(chunks[1..])) && CleanCuts(chunks[1..]))
  }

  lemma {:induction false} CleanCutsAreHarmless(h: History, chunks: seq<string>)
    requires CleanCuts(chunks)
    ensures Harmless(h, chunks)
    decreases |chunks|
  {
    if chunks == [] {
    } else {
      CleanCutsAreHarmless(Feed(h, chunks[0]), chunks[1..]);
    }
  }

  /** Streaming is batch: from empty, with no cut between a return and its newline, the lines and the
      one in progress are those of the whole stream. */
  lemma StreamingEqualsBatch(chunks: seq<string>)
    ensures FeedAll(EMPTY, chunks) == Whole(Join(chunks)) <==> Harmless(EMPTY, chunks)
    ensures CleanCuts(chunks) ==> FeedAll(EMPTY, chunks) == Whole(Join(chunks))
  {
    MachineIs(Normalise(Join(chunks)));
    StreamingIsWhole(EMPTY, chunks);
    if CleanCuts(chunks) { CleanCutsAreHarmless(EMPTY, chunks); }
  }

  /** A straddled cut after text loses that text. */
  lemma StraddledCutLoses(text: string)
    requires text != "" && '\r' !in text && '\n' !in text
    ensures FeedAll(EMPTY, [text + "\r", "\n" + ""]) == History([""], "")
    ensures Feed(EMPTY, text + "\r" + ("\n" + "")) == History([Cut(text)], "") && Cut(text) != ""
  {
    var a, b := text + "\r", "\n" + "";
    PlainText(text);
    AtStraddle(EMPTY, text, "");
    assert [] + [Cut(text)] == [Cut(text)] && [] + [""] == [""];
    TwoChunks(EMPTY, a, b);
    SizeMore("", text[0]);
    CutIsShortest(text);
  }

  lemma TwoChunks(h: History, a: string, b: string)
    ensures FeedAll(h, [a, b]) == Feed(Feed(h, a), b)
  {
    assert [a, b][1..] == [b] && [b][1..] == [];
    assert FeedAll(Feed(h, a), [b]) == FeedAll(Feed(Feed(h, a), b), []);
  }

  lemma PlainText(text: string)
    requires '\r' !in text && '\n' !in text
    ensures Normalise(text) == text && Feed(EMPTY, text) == History([], Cut(text))
  {
    PlainNormalise(text);
    PlainPut(text);
  }

  lemma {:induction false} PlainNormalise(text: string)
    requires '\r' !in text
    ensures Normalise(text) == text
    decreases |text|
  {
    if text == "" {
    } else {
      PlainNormalise(text[1..]);
      assert text[0] in text && text == text[..1] + text[1..];
    }
  }

  lemma {:induction false} PlainPut(text: string)
    requires '\r' !in text && '\n' !in text
    ensures PutAll(EMPTY, text) == History([], Cut(text))
    decreases |text|
  {
    if text == "" {
    } else {
      PlainPut(text[..|text| - 1]);
      assert text[|text| - 1] in text;
    }
  }

  // ── The two buffers ─────────────────────────────────────────────────────────

  predicate Bounded(h: History) {
    forall line | line in h.lines + [h.partial] :: Utf8.Size(line) <= 8195
  }

  lemma {:induction false} PutAllIsBounded(h: History, s: string)
    requires Bounded(h)
    ensures Bounded(PutAll(h, s))
    decreases |s|
  {
    if s == "" {
    } else {
      PutAllIsBounded(h, s[..|s| - 1]);
      var p, c := PutAll(h, s[..|s| - 1]), s[|s| - 1];
      assert p.partial in p.lines + [p.partial];
      SizeMore(p.partial, c);
    }
  }

  /** Nor is any line, complete or in progress, however the stream was cut. */
  lemma {:induction false} FedIsBounded(h: History, chunks: seq<string>)
    requires Bounded(h)
    ensures Bounded(FeedAll(h, chunks))
    decreases |chunks|
  {
    if chunks == [] {
    } else {
      PutAllIsBounded(h, Normalise(chunks[0]));
      FedIsBounded(Feed(h, chunks[0]), chunks[1..]);
    }
  }

  /** What a buffer holds after a run of chunks: the last lines of the whole stream and the line in
      progress, if every cut between a return and its newline was harmless; and every line it holds is
      within the bound. */
  method Fed(maxLines: nat, chunks: seq<string>) returns (b: LineBuffer)
    ensures fresh(b) && b.Valid() && b.maxLines == maxLines && b.Seen() == FeedAll(EMPTY, chunks)
    ensures Harmless(EMPTY, chunks) ==>
              b.lines == Last(Whole(Join(chunks)).lines, maxLines) && b.partial == Whole(Join(chunks)).partial
    ensures CleanCuts(chunks) ==> Harmless(EMPTY, chunks)
    ensures forall line | line in b.lines + [b.partial] :: Utf8.Size(line) <= 8195
  {
    b := new LineBuffer(maxLines);
    b.PushAll(chunks);
    StreamingEqualsBatch(chunks);
    if CleanCuts(chunks) { CleanCutsAreHarmless(EMPTY, chunks); }
    FedIsBounded(EMPTY, chunks);
  }

  /** Scrollback and session buffer, fed the same chunks however they are cut: the 50 lines are the end
      of the 500, and both are the end of the whole stream if the cuts were harmless. */
  method FedBoth(chunks: seq<string>) returns (scrollback: seq<string>, session: seq<string>, partial: string)
    ensures scrollback == Last(session, 50)
    ensures session == Last(FeedAll(EMPTY, chunks).lines, 500)
    ensures partial == FeedAll(EMPTY, chunks).partial
    ensures Harmless(EMPTY, chunks) ==>
              && scrollback == Last(Whole(Join(chunks)).lines, 50)
              && session == Last(Whole(Join(chunks)).lines, 500)
              && partial == Whole(Join(chunks)).partial
  {
    var short := Fed(SCROLLBACK_MAX_LINES, chunks);
    var long := Fed(SESSION_BUFFER_MAX_LINES, chunks);
    ShortIsTailOfLong(FeedAll(EMPTY, chunks).lines, SCROLLBACK_MAX_LINES, SESSION_BUFFER_MAX_LINES);
    return short.lines, long.lines, long.partial;
  }

  lemma ShortIsTailOfLong(all: seq<string>, short: nat, long: nat)
    requires short <= long
    ensures Last(all, short) == Last(Last(all, long), short)
  {
  }
}
