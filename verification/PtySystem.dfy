/** All panes together, under the per-pane spawn locks and the one token counter, and what holds
    in every run of the whole system. */
module PtySystem {
  import opened Options
  import opened PtyRegistry
  import opened PtyProtocol

  datatype System = System(panes: map<string, Pane>, next: Token)

  const INITIAL := System(map[], 1)

  datatype Step = Step(pane: string, action: Action)

  /** A pane nobody has touched yet looks fresh. */
  function At(s: System, id: string): Pane {
    if id in s.panes then s.panes[id] else FRESH
  }

  /** The lock key: the pane id up to its remount suffix. */
  function Base(id: string): string {
    if id == "" || id[0] == '@' then "" else [id[0]] + Base(id[1..])
  }

  /** A pane and all its remounts share one lock. */
  lemma {:induction false} BaseIs(name: string, suffix: string)
    requires '@' !in name
    ensures Base(name) == name && Base(name + "@" + suffix) == name
  {
    if name == "" {
      assert ("" + "@" + suffix)[0] == '@';
    } else {
      assert name[0] in name && forall c | c in name[1..] :: c in name;
      BaseIs(name[1..], suffix);
      assert (name + "@" + suffix)[1..] == name[1..] + "@" + suffix;
      assert name == [name[0]] + name[1..];
    }
  }

  predicate LockFree(s: System, id: string) {
    forall other | other in s.panes && Base(other) == Base(id) :: s.panes[other].spawn.Idle?
  }

  predicate CanStep(s: System, st: Step) {
    && Enabled(At(s, st.pane), s.next, st.action)
    && (st.action.TakeLock? ==> LockFree(s, st.pane))
  }

  function Do(s: System, st: Step): System
    requires CanStep(s, st)
  {
    System(s.panes[st.pane := Apply(At(s, st.pane), s.next, st.action)], NextToken(s.next, st.action))
  }

  /** A step changes its own pane as the protocol says, and no other; tokens are handed out from one
      counter for all panes, which begins at one. */
  lemma StepIsLocal(s: System, st: Step, other: string)
    requires CanStep(s, st)
    ensures At(Do(s, st), st.pane) == Apply(At(s, st.pane), s.next, st.action)
    ensures other != st.pane ==> At(Do(s, st), other) == At(s, other)
    ensures Do(s, st).next == s.next + (if st.action.TakeToken? then 1 else 0)
    ensures At(INITIAL, other) == Pane(Slice(None, None, {}), Idle, map[], 0, {}, {}, {}) && INITIAL.next == 1
  {
  }

  predicate Legal(s: System, run: seq<Step>)
    decreases |run|
  {
    run != [] ==> CanStep(s, run[0]) && Legal(Do(s, run[0]), run[1..])
  }

  function Exec(s: System, run: seq<Step>): System
    requires Legal(s, run)
    decreases |run|
  {
    if run == [] then s else Exec(Do(s, run[0]), run[1..])
  }

  ghost predicate SysInv(s: System) {
    && (forall id | id in s.panes :: Inv(s.panes[id], s.next))
    && (forall a, b | a in s.panes && b in s.panes && a != b && Base(a) == Base(b) ::
          s.panes[a].spawn.Idle? || s.panes[b].spawn.Idle?)
  }

  lemma SysInvStep(s: System, st: Step)
    requires SysInv(s) && CanStep(s, st)
    ensures SysInv(Do(s, st))
  {
    var s' := Do(s, st);
    InvInit(s.next);
    InvStep(At(s, st.pane), s.next, st.action);
    forall id | id in s'.panes ensures Inv(s'.panes[id], s'.next) {
      if id != st.pane { InvMono(s.panes[id], s.next, s'.next); }
    }
    if At(s, st.pane).spawn.Idle? && !st.action.TakeLock? {
      IdleStaysIdle(At(s, st.pane), s.next, st.action);
    }
  }

  // Only TakeLock leaves Idle.
  lemma IdleStaysIdle(p: Pane, next: Token, a: Action)
    requires Enabled(p, next, a) && p.spawn.Idle? && !a.TakeLock?
    ensures Apply(p, next, a).spawn.Idle?
  {
  }

  // ── Every run ───────────────────────────────────────────────────────────────

  lemma {:induction false} SysInvRun(s: System, run: seq<Step>)
    requires SysInv(s) && Legal(s, run)
    ensures SysInv(Exec(s, run))
    decreases |run|
  {
    if run == [] {
    } else {
      SysInvStep(s, run[0]);
      SysInvRun(Do(s, run[0]), run[1..]);
    }
  }

  lemma Reached(run: seq<Step>, id: string)
    requires Legal(INITIAL, run)
    ensures SysInv(Exec(INITIAL, run))
    ensures Inv(At(Exec(INITIAL, run), id), Exec(INITIAL, run).next)
  {
    SysInvRun(INITIAL, run);
    InvInit(Exec(INITIAL, run).next);
  }

  /** In every interleaving of every run: a row is stuck in `running` exactly when an unscoped kill
      took its own generation's session and its spawn is past the point of closing it; a running
      child is unreachable exactly when it is a recorded loss; at most one spawn is in flight
      under one lock; and register never hands a spawn somebody else's token. */
  lemma EveryRun(run: seq<Step>, id: string)
    requires Legal(INITIAL, run)
    ensures var p := At(Exec(INITIAL, run), id);
            && (Stuck(p) <==> IsRunning(p.slice.row) && p.slice.row.value.token in p.clobbered
                              && !Answers(p.spawn, p.slice.row.value.token))
            && (forall t :: Orphan(p, t) <==> t in p.slice.live && t in p.leaked + p.escaped)
            && (p.spawn.Tokened? ==>
                  Apply(p, Exec(INITIAL, run).next, DoRegister).spawn == Registered(p.spawn.t))
    ensures forall other | other != id && Base(other) == Base(id) ::
              At(Exec(INITIAL, run), id).spawn.Idle? || At(Exec(INITIAL, run), other).spawn.Idle?
  {
    Reached(run, id);
    var s := Exec(INITIAL, run);
    var p := At(s, id);
    StuckExactly(p, s.next);
    forall t ensures Orphan(p, t) <==> t in p.slice.live && t in p.leaked + p.escaped {
      OrphanExactly(p, s.next, t);
    }
    if p.spawn.Tokened? {
      RegisterAlwaysWins(p, s.next);
    }
  }

  /** Along every run a pane's row only moves forward: tokens grow, and within a generation the
      row leaves `running` at most once. */
  lemma {:induction false} RowHistory(s: System, run: seq<Step>, id: string)
    requires SysInv(s) && Legal(s, run)
    ensures Follows(At(s, id).slice.row, At(Exec(s, run), id).slice.row)
    decreases |run|
  {
    if run == [] {
    } else {
      InvInit(s.next);
      RowFollows(At(s, run[0].pane), s.next, run[0].action);
      SysInvStep(s, run[0]);
      RowHistory(Do(s, run[0]), run[1..], id);
    }
  }

  /** What a run has done to the generations of one pane. */
  function PastOf(s: System, run: seq<Step>, id: string, past: Past): Past
    requires Legal(s, run)
    decreases |run|
  {
    if run == [] then past
    else
      PastOf(Do(s, run[0]), run[1..], id,
             if run[0].pane == id then Remember(past, At(s, id), run[0].action) else past)
  }

  lemma {:induction false} AgreesRun(s: System, run: seq<Step>, id: string, past: Past)
    requires SysInv(s) && Legal(s, run) && Agrees(At(s, id), past)
    ensures Agrees(At(Exec(s, run), id), PastOf(s, run, id, past))
    decreases |run|
  {
    if run == [] {
    } else {
      InvInit(s.next);
      if run[0].pane == id { AgreesStep(At(s, id), s.next, run[0].action, past); }
      SysInvStep(s, run[0]);
      AgreesRun(Do(s, run[0]), run[1..], id,
                if run[0].pane == id then Remember(past, At(s, id), run[0].action) else past);
    }
  }

  /** In every run a closed row says how its generation ended: as its own wait-thread saw the child go,
      as the spawn that gave up on it, or by a cancel. */
  lemma ClosedRowsTellTruth(run: seq<Step>, id: string)
    requires Legal(INITIAL, run)
    ensures TellsTruth(At(Exec(INITIAL, run), id).slice.row, PastOf(INITIAL, run, id, NOTHING_YET))
  {
    AgreesRun(INITIAL, run, id, NOTHING_YET);
  }

  predicate AllUnstraddled(s: System, run: seq<Step>)
    requires Legal(s, run)
    decreases |run|
  {
    run != [] ==>
      Unstraddled(At(s, run[0].pane), run[0].action) && AllUnstraddled(Do(s, run[0]), run[1..])
  }

  lemma {:induction false} TidyRun(s: System, run: seq<Step>)
    requires SysInv(s) && Legal(s, run) && AllUnstraddled(s, run)
    requires forall id | id in s.panes :: Tidy(s.panes[id])
    ensures forall id | id in Exec(s, run).panes :: Tidy(Exec(s, run).panes[id])
    decreases |run|
  {
    if run == [] {
    } else {
      InvInit(s.next);
      TidyStep(At(s, run[0].pane), s.next, run[0].action);
      SysInvStep(s, run[0]);
      TidyRun(Do(s, run[0]), run[1..]);
    }
  }

  /** In every run whose cancels are not straddled by a register: no row is ever stuck; the only
      child ever lost is one whose writer or reader could not be taken; the respawn guard never
      finds an older session; with the lock free a pane has at most one reachable child; and a
      closed row with no kill pending has no session and no reachable child behind it. */
  lemma EveryUnstraddledRun(run: seq<Step>, id: string)
    requires Legal(INITIAL, run) && AllUnstraddled(INITIAL, run)
    ensures var p := At(Exec(INITIAL, run), id);
            && !Stuck(p)
            && (forall t | Orphan(p, t) :: t in p.leaked)
            && (p.spawn.Forked? ==> p.slice.session == None)
            && (p.spawn.Idle? ==>
                  forall t, u | t in p.slice.live - p.leaked && u in p.slice.live - p.leaked :: t == u)
            && (p.spawn.Idle? && p.kills == 0 && !IsRunning(p.slice.row) ==>
                  p.slice.session == None && p.slice.live <= p.leaked)
  {
    Reached(run, id);
    TidyRun(INITIAL, run);
    TidyMeans(At(Exec(INITIAL, run), id), Exec(INITIAL, run).next);
  }
}
