/** Replacing marked places of a text one behind the other and keeping everything between them. */
module Weave {
  import opened Options

  /** One button: its head is replaced up to `headEnd`, its closing tag at `close`. */
  datatype Edit = Edit(start: nat, headEnd: nat, tagEnd: nat, close: nat, newHead: string)

  const CLOSING := 9

  function End(edits: seq<Edit>): nat {
    if edits == [] then 0 else edits[|edits| - 1].close + CLOSING
  }

  predicate InPlace(s: string, from: nat, e: Edit) {
    from <= e.start < e.headEnd <= e.tagEnd < e.close && e.close + CLOSING <= |s|
  }

  predicate Ordered(s: string, edits: seq<Edit>) {
    edits == [] || (Ordered(s, edits[..|edits| - 1]) && InPlace(s, End(edits[..|edits| - 1]), edits[|edits| - 1]))
  }

  lemma Snoc(edits: seq<Edit>, e: Edit)
    ensures (edits + [e])[..|edits + [e]| - 1] == edits && (edits + [e])[|edits + [e]| - 1] == e
  {
  }

  /** The text up to the last edit, with the two parts of each button either as they were or replaced;
      all the rest is the same in both. */
  function Woven(s: string, edits: seq<Edit>, replaced: bool): string
    requires Ordered(s, edits)
  {
    if edits == [] then ""
    else
      var before, e := edits[..|edits| - 1], edits[|edits| - 1];
      Woven(s, before, replaced) + Piece(s, End(before), e, replaced)
  }

  function Piece(s: string, from: nat, e: Edit, replaced: bool): string
    requires InPlace(s, from, e)
  {
    s[from..e.start] + (if replaced then e.newHead else s[e.start..e.headEnd])
    + s[e.headEnd..e.close] + (if replaced then "</Button>" else s[e.close..e.close + CLOSING])
  }

  lemma PieceIsText(s: string, from: nat, e: Edit)
    requires InPlace(s, from, e)
    ensures Piece(s, from, e, false) == s[from..e.close + CLOSING]
  {
  }

  /** Nothing is lost: with the parts as they were, the weave is the text. */
  lemma {:induction false} WovenIsInput(s: string, edits: seq<Edit>)
    requires Ordered(s, edits)
    ensures End(edits) <= |s| && Woven(s, edits, false) == s[..End(edits)]
  {
    if edits == [] {
    } else {
      var before, e := edits[..|edits| - 1], edits[|edits| - 1];
      WovenIsInput(s, before);
      PieceIsText(s, End(before), e);
    }
  }

  lemma WovenMore(s: string, edits: seq<Edit>, e: Edit)
    requires Ordered(s, edits) && InPlace(s, End(edits), e)
    ensures Ordered(s, edits + [e]) && End(edits + [e]) == e.close + CLOSING
    ensures Woven(s, edits + [e], true) == Woven(s, edits, true) + Piece(s, End(edits), e, true)
  {
    Snoc(edits, e);
  }

  // ── A step function decides the edits ───────────────────────────────────────

  ghost predicate Run(next: nat -> Option<Edit>, edits: seq<Edit>) {
    edits == []
    || (Run(next, edits[..|edits| - 1]) && next(End(edits[..|edits| - 1])) == Some(edits[|edits| - 1]))
  }

  ghost predicate WholeRun(next: nat -> Option<Edit>, edits: seq<Edit>) {
    Run(next, edits) && next(End(edits)) == None
  }

  lemma RunMore(next: nat -> Option<Edit>, edits: seq<Edit>, e: Edit)
    requires Run(next, edits) && next(End(edits)) == Some(e)
    ensures Run(next, edits + [e])
  {
    Snoc(edits, e);
  }

  lemma {:induction false} RunAt(next: nat -> Option<Edit>, edits: seq<Edit>, k: nat)
    requires Run(next, edits) && k <= |edits|
    ensures Run(next, edits[..k]) && (k < |edits| ==> next(End(edits[..k])) == Some(edits[k]))
    decreases |edits|
  {
    if k == |edits| {
      assert edits[..k] == edits;
    } else {
      var before := edits[..|edits| - 1];
      if k < |edits| - 1 {
        RunAt(next, before, k);
        assert before[..k] == edits[..k];
      }
    }
  }

  lemma {:induction false} RunsAgree(next: nat -> Option<Edit>, a: seq<Edit>, b: seq<Edit>, k: nat)
    requires WholeRun(next, a) && Run(next, b) && k <= |b|
    ensures k <= |a| && a[..k] == b[..k]
  {
    if k == 0 {
    } else {
      RunsAgree(next, a, b, k - 1);
      RunAt(next, b, k - 1);
      RunAt(next, a, k - 1);
      assert a[..|a|] == a;
      assert |a| != k - 1;
      assert a[..k] == a[..k - 1] + [a[k - 1]] && b[..k] == b[..k - 1] + [b[k - 1]];
    }
  }

  lemma WholeRunIsUnique(next: nat -> Option<Edit>, a: seq<Edit>, b: seq<Edit>)
    requires WholeRun(next, a) && WholeRun(next, b)
    ensures a == b
  {
    RunsAgree(next, a, b, |b|);
    RunsAgree(next, b, a, |a|);
    assert a[..|a|] == a && b[..|b|] == b;
  }
}
