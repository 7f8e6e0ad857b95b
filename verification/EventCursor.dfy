/** The cursor of applied events (events.js): a stale or replayed sequence number never passes. A number
    is any finite double, None one that is not finite. */
module EventCursor {
  import opened Options

  type Number = Option<real>

  class Cursor {
    var lastSeq: real

    constructor ()
      ensures lastSeq == 0.0
    {
      lastSeq := 0.0;
    }

    method ApplyEvent(seqNo: Number) returns (applied: bool)
      modifies this
      ensures applied <==> seqNo.Some? && seqNo.value > old(lastSeq)
      ensures lastSeq == if applied then seqNo.value else old(lastSeq)
    {
      if seqNo.None? || seqNo.value <= lastSeq { return false; }
      lastSeq := seqNo.value;
      return true;
    }

    method ResetSeq()
      modifies this
      ensures lastSeq == 0.0
    {
      lastSeq := 0.0;
    }

    /** A stream between two resets: what is applied are its strict running maxima, in order. */
    method ApplyAll(stream: seq<Number>) returns (applied: seq<real>)
      modifies this
      ensures applied == Records(old(lastSeq), stream)
      ensures lastSeq == Highest(old(lastSeq), stream)
    {
      applied := [];
      for i := 0 to |stream|
        invariant applied == Records(old(lastSeq), stream[..i]) && lastSeq == Highest(old(lastSeq), stream[..i])
      {
        assert stream[..i + 1][..i] == stream[..i];
        HighestDecides(old(lastSeq), stream[..i], stream[i]);
        var ok := ApplyEvent(stream[i]);
        if ok { applied := applied + [stream[i].value]; }
      }
      assert stream[..|stream|] == stream;
    }
  }

  /** Strictly above the floor and everything finite before it. */
  predicate IsRecord(last: real, before: seq<Number>, x: Number) {
    x.Some? && x.value > last && forall y | y in before && y.Some? :: y.value < x.value
  }

  /** The running maxima, in order. */
  function Records(last: real, stream: seq<Number>): seq<real> {
    if stream == [] then []
    else
      var before, x := stream[..|stream| - 1], stream[|stream| - 1];
      Records(last, before) + (if IsRecord(last, before, x) then [x.value] else [])
  }

  function Highest(last: real, stream: seq<Number>): (h: real)
    ensures h >= last && forall j | 0 <= j < |stream| && stream[j].Some? :: stream[j].value <= h
    ensures h == last || Some(h) in stream
  {
    if stream == [] then last
    else
      var h := Highest(last, stream[..|stream| - 1]);
      var x := stream[|stream| - 1];
      if x.Some? && x.value > h then x.value else h
  }

  lemma HighestDecides(last: real, before: seq<Number>, x: Number)
    ensures x.Some? && x.value > Highest(last, before) <==> IsRecord(last, before, x)
  {
    var h := Highest(last, before);
    if h != last {
      assert Some(h) in before;
    }
  }

  lemma {:induction false} RecordsAreIn(last: real, stream: seq<Number>)
    ensures forall r | r in Records(last, stream) :: last < r <= Highest(last, stream) && Some(r) in stream
  {
    if stream == [] {
    } else {
      var before, x := stream[..|stream| - 1], stream[|stream| - 1];
      assert stream == before + [x];
      RecordsAreIn(last, before);
      HighestDecides(last, before, x);
    }
  }

  /** Nothing is applied twice or out of order: what is applied only grows. */
  lemma {:induction false} AppliedGrow(last: real, stream: seq<Number>)
    ensures forall i, j | 0 <= i < j < |Records(last, stream)| :: Records(last, stream)[i] < Records(last, stream)[j]
  {
    if stream == [] {
    } else {
      var before, x := stream[..|stream| - 1], stream[|stream| - 1];
      AppliedGrow(last, before);
      RecordsAreIn(last, before);
      HighestDecides(last, before, x);
      var rs := Records(last, before);
      assert forall i | 0 <= i < |rs| :: rs[i] in rs;
    }
  }
}
