/** Schedules of one pane written out: how a row gets closed, and how a straddled cancel loses one. */
module PtySchedules {
  import opened Options
  import opened PtyRegistry
  import opened PtyProtocol

  predicate CanRun(p: Pane, next: Token, steps: seq<Action>)
    decreases |steps|
  {
    steps != [] ==>
      Enabled(p, next, steps[0]) && CanRun(Apply(p, next, steps[0]), NextToken(next, steps[0]), steps[1..])
  }

  function Run(p: Pane, next: Token, steps: seq<Action>): Pane
    requires CanRun(p, next, steps)
    decreases |steps|
  {
    if steps == [] then p else Run(Apply(p, next, steps[0]), NextToken(next, steps[0]), steps[1..])
  }

  lemma Prepend(p: Pane, next: Token, a: Action, rest: seq<Action>) returns (steps: seq<Action>)
    requires Enabled(p, next, a) && CanRun(Apply(p, next, a), NextToken(next, a), rest)
    ensures steps == [a] + rest
    ensures CanRun(p, next, steps)
    ensures Run(p, next, steps) == Run(Apply(p, next, a), NextToken(next, a), rest)
  {
    steps := [a] + rest;
    assert steps[1..] == rest;
  }

  /** A whole spawn after its register, with a kill that was pending all the while at its end. */
  lemma SpawnThenLateKill(p: Pane, next: Token) returns (steps: seq<Action>)
    requires p.spawn.Registered? && p.kills > 0 && p.slice.row == Some(Row(Running, p.spawn.t))
    ensures CanRun(p, next, steps) && |steps| > 0 && steps[|steps| - 1] == UserKill
    ensures Stuck(Run(p, next, steps)) && Run(p, next, steps).slice.row == p.slice.row
  {
    var p1 := Apply(p, next, Fork(true, true));
    var p2 := Apply(p1, next, DoEvict(true));
    var p3 := Apply(p2, next, DoInsert);
    var p4 := Apply(p3, next, StartThreads(true));
    var p5 := Apply(p4, next, PostCheck);
    assert Stuck(Apply(p5, next, UserKill));
    steps := Prepend(p5, next, UserKill, []);
    steps := Prepend(p4, next, PostCheck, steps);
    steps := Prepend(p3, next, StartThreads(true), steps);
    steps := Prepend(p2, next, DoInsert, steps);
    steps := Prepend(p1, next, DoEvict(true), steps);
    steps := Prepend(p, next, Fork(true, true), steps);
  }

  // The cancel's row update, and the next spawn up to its register.
  lemma StraddledRegister(p: Pane, next: Token) returns (p1: Pane, p2: Pane, p3: Pane, p4: Pane, p5: Pane)
    requires p.spawn.Idle? && IsRunning(p.slice.row)
    ensures Enabled(p, next, UserCancel(false)) && p1 == Apply(p, next, UserCancel(false))
    ensures Enabled(p1, next, TakeLock) && p2 == Apply(p1, next, TakeLock)
    ensures Enabled(p2, next, ReapCancel) && p3 == Apply(p2, next, ReapCancel)
    ensures Enabled(p3, next, TakeToken) && p4 == Apply(p3, next, TakeToken)
    ensures Enabled(p4, next + 1, DoRegister) && p5 == Apply(p4, next + 1, DoRegister)
    ensures p5.spawn == Registered(next) && p5.kills > 0 && p5.slice.row == Some(Row(Running, next))
  {
    p1 := Apply(p, next, UserCancel(false));
    p2 := Apply(p1, next, TakeLock);
    p3 := Apply(p2, next, ReapCancel);
    p4 := Apply(p3, next, TakeToken);
    p5 := Apply(p4, next + 1, DoRegister);
  }

  /** From every pane with a running row and no spawn in flight there is a schedule, a register
      and its spawn between a cancel's row update and its kill, that ends in a stuck row: without
      the restriction on straddled cancels the protocol does lose rows. */
  lemma StraddleSticks(p: Pane, next: Token) returns (steps: seq<Action>)
    requires Inv(p, next) && p.spawn.Idle? && IsRunning(p.slice.row)
    ensures CanRun(p, next, steps) && |steps| > 0
    ensures steps[0] == UserCancel(false) && steps[|steps| - 1] == UserKill
    ensures Stuck(Run(p, next, steps)) && Run(p, next, steps).slice.row == Some(Row(Running, next))
  {
    var p1, p2, p3, p4, p5 := StraddledRegister(p, next);
    steps := SpawnThenLateKill(p5, next + 1);
    steps := Prepend(p4, next + 1, DoRegister, steps);
    steps := Prepend(p3, next, TakeToken, steps);
    steps := Prepend(p2, next, ReapCancel, steps);
    steps := Prepend(p1, next, TakeLock, steps);
    steps := Prepend(p, next, UserCancel(false), steps);
  }

  /** Once a child is gone, the row of a generation whose spawn is over can always be closed by its
      own wait-thread, unless it is stuck: with the status the thread has already noted, or else
      `done` for the exit code zero and `failed` for any other end. */
  lemma DeadChildRowCloses(p: Pane, next: Token, code: Option<int>) returns (steps: seq<Action>)
    requires Inv(p, next) && IsRunning(p.slice.row) && !Stuck(p)
    requires p.slice.row.value.token !in p.slice.live && !Answers(p.spawn, p.slice.row.value.token)
    ensures forall i | 0 <= i < |steps| :: steps[i].WaitPoll? || steps[i].WaitFinish?
    ensures CanRun(p, next, steps)
    ensures var t := p.slice.row.value.token;
            Run(p, next, steps).slice.row == Some(Row(
              if t in p.waits && p.waits[t].Removed? then p.waits[t].status else if code == Some(0) then Done else Failed,
              t))
            && t !in Run(p, next, steps).waits
  {
    var t := p.slice.row.value.token;
    if t in p.waits && p.waits[t].Removed? {
      steps := [WaitFinish(t)];
      assert Run(p, next, steps) == Apply(p, next, WaitFinish(t));
    } else {
      var p' := Apply(p, next, WaitPoll(t, code));
      steps := [WaitPoll(t, code), WaitFinish(t)];
      assert steps[1..] == [WaitFinish(t)];
      assert Run(p', next, [WaitFinish(t)]) == Apply(p', next, WaitFinish(t));
    }
  }

  /** A running child may end at any time; then its own thread takes its session out and closes its row, with
      `done` for the exit code zero and `failed` for anything else. */
  lemma ChildEndsRowCloses(p: Pane, next: Token, code: Option<int>) returns (steps: seq<Action>)
    requires IsRunning(p.slice.row) && p.slice.session == Some(p.slice.row.value.token)
    requires var t := p.slice.row.value.token; t in p.slice.live && t in p.waits && p.waits[t].Polling?
    ensures CanRun(p, next, steps)
    ensures var t := p.slice.row.value.token;
            Run(p, next, steps).slice
            == Slice(Some(Row(if code == Some(0) then Done else Failed, t)), None, p.slice.live - {t})
            && t !in Run(p, next, steps).waits
  {
    var t := p.slice.row.value.token;
    var p1 := Apply(p, next, ChildExit(t));
    var p2 := Apply(p1, next, WaitPoll(t, code));
    steps := Prepend(p2, next, WaitFinish(t), []);
    steps := Prepend(p1, next, WaitPoll(t, code), steps);
    steps := Prepend(p, next, ChildExit(t), steps);
  }

  /** A cancel that nothing interleaves with: it kills exactly if it cancelled a running row itself, or was
      asked for directly where there is no row; then no kill is left pending that was not before. */
  lemma CancelIsWhole(p: Pane, next: Token, direct: bool)
    ensures var p1 := Apply(p, next, UserCancel(direct));
            var kills := IsRunning(p.slice.row) || (direct && p.slice.row.None?);
            && p1.kills == p.kills + (if kills then 1 else 0)
            && p1.slice == p.slice.(row := if IsRunning(p.slice.row) then Some(Row(Canceled, p.slice.row.value.token)) else p.slice.row)
            && (kills ==>
                  && Enabled(p1, next, UserKill)
                  && Apply(p1, next, UserKill).kills == p.kills
                  && Apply(p1, next, UserKill).slice.session == None
                  && Apply(p1, next, UserKill).slice.live
                     == if p.slice.session.Some? then p.slice.live - {p.slice.session.value} else p.slice.live)
  {
  }

  predicate OfSpawn(a: Action) {
    !a.ChildExit? && !a.WaitPoll? && !a.WaitFinish? && !a.UserCancel? && !a.UserKill?
  }

  /** Whatever has happened, the spawn in flight can go on by itself until it lets go of the lock. */
  lemma {:induction false} SpawnCanEnd(p: Pane, next: Token) returns (steps: seq<Action>)
    ensures CanRun(p, next, steps) && Run(p, next, steps).spawn.Idle?
    ensures forall a | a in steps :: OfSpawn(a)
    decreases ToGo(p.spawn)
  {
    if p.spawn.Idle? {
      steps := [];
    } else {
      var a := NextOf(p.spawn);
      steps := SpawnCanEnd(Apply(p, next, a), NextToken(next, a));
      steps := Prepend(p, next, a, steps);
    }
  }

  function NextOf(sp: Spawn): Action
    requires !sp.Idle?
  {
    match sp
    case Locked => ReapCancel
    case ReapKill => ReapDoKill
    case Reaped => TakeToken
    case Tokened(_) => DoRegister
    case Registered(_) => Fork(true, true)
    case Forked(_) => DoEvict(true)
    case Evicted(_) => DoInsert
    case Inserted(_) => StartThreads(true)
    case FailKill(_) => FailDoKill
    case FailFinish(_) => FailDoFinish
    case Check(_) => PostCheck
    case AbortKill(_) => AbortDoKill
  }

  function ToGo(sp: Spawn): nat {
    match sp
    case Idle => 0
    case Locked => 10
    case ReapKill => 9
    case Reaped => 8
    case Tokened(_) => 7
    case Registered(_) => 6
    case Forked(_) => 5
    case Evicted(_) => 4
    case Inserted(_) => 3
    case FailKill(_) => 2
    case Check(_) => 2
    case FailFinish(_) => 1
    case AbortKill(_) => 1
  }
}
