/** The PTY manager and the process table as the mutable objects they are. Every method is one
    critical section; its contract says what it does to the slice of the pane it is called for,
    and that every other pane is left alone. */
module PtyManager {
  import opened Options
  import opened PtyRegistry
  import opened PtyProtocol
  import opened PtySchedules

  /** What befalls a spawn: whether the child starts, its writer and reader can be taken and the threads
      start, and whether an older child that is evicted dies of its SIGHUP. */
  datatype Luck = Luck(forked: bool, wired: bool, oldDies: bool, started: bool) {
    predicate Ok() {
      forked && wired && started
    }

    predicate HalfWired() {
      forked && !wired
    }
  }

  class Manager {
    var rows: map<string, Row>         // process_registry, keyed by process id == pane id
    var sessions: map<string, Token>   // pane id -> generation of the session in the map
    var children: set<(string, Token)> // OS children still running

    constructor ()
      ensures rows == map[] && sessions == map[] && children == {}
    {
      rows, sessions, children := map[], map[], {};
    }

    function Children(id: string): (live: set<Token>)
      reads this
      ensures forall t :: t in live <==> (id, t) in children
    {
      set c | c in children && c.0 == id :: c.1
    }

    /** The slice of one pane, as the protocol sees it. */
    function View(id: string): Slice
      reads this
    {
      Slice(if id in rows then Some(rows[id]) else None,
            if id in sessions then Some(sessions[id]) else None,
            Children(id))
    }

    twostate predicate OthersUnchanged(id: string)
      reads this
    {
      forall other | other != id :: View(other) == old(View(other))
    }

    method RegisterRow(id: string, t: Token) returns (current: Token)
      modifies this`rows
      ensures View(id) == Register(old(View(id)), t) && OthersUnchanged(id)
      ensures View(id).row == Some(Row(Running, current))
    {
      if id !in rows || rows[id].status != Running {
        rows := rows[id := Row(Running, t)];
      }
      current := rows[id].token;
    }

    method FinishRow(id: string, t: Token, status: Status)
      modifies this`rows
      ensures View(id) == Finish(old(View(id)), t, status) && OthersUnchanged(id)
    {
      if id in rows && rows[id].status == Running && rows[id].token == t {
        rows := rows[id := rows[id].(status := status)];
      }
    }

    method CancelRow(id: string) returns (found: bool, newlyCanceled: bool)
      modifies this`rows
      ensures View(id) == Cancel(old(View(id))) && OthersUnchanged(id)
      ensures found == old(View(id)).row.Some? && newlyCanceled == NewlyCanceled(old(View(id)))
    {
      found, newlyCanceled := id in rows, false;
      if found && rows[id].status == Running {
        rows := rows[id := rows[id].(status := Canceled)];
        newlyCanceled := true;
      }
    }

    method KillSession(id: string)
      modifies this`sessions, this`children
      ensures View(id) == Kill(old(View(id))) && OthersUnchanged(id)
    {
      if id in sessions {
        children := children - {(id, sessions[id])};
        sessions := sessions - {id};
      }
      assert View(id).live == Kill(old(View(id))).live;
      LiveUnchanged(id);
    }

    method KillIfSpawnId(id: string, t: Token)
      modifies this`sessions, this`children
      ensures View(id) == KillIf(old(View(id)), t) && OthersUnchanged(id)
    {
      if id in sessions && sessions[id] == t {
        KillSession(id);
      }
    }

    method ForkChild(id: string, t: Token)
      modifies this`children
      ensures View(id) == old(View(id)).(live := old(View(id)).live + {t}) && OthersUnchanged(id)
    {
      children := children + {(id, t)};
      assert View(id).live == old(View(id)).live + {t};
      LiveUnchanged(id);
    }

    method EvictOld(id: string, oldDies: bool)
      modifies this`sessions, this`children
      ensures View(id) == Evict(old(View(id)), oldDies) && OthersUnchanged(id)
    {
      if id in sessions {
        if oldDies {
          children := children - {(id, sessions[id])};
        }
        sessions := sessions - {id};
      }
      assert View(id).live == Evict(old(View(id)), oldDies).live;
      LiveUnchanged(id);
    }

    method InsertSession(id: string, t: Token)
      modifies this`sessions
      ensures View(id) == Insert(old(View(id)), t) && OthersUnchanged(id)
    {
      sessions := sessions[id := t];
    }

    /** One turn of the wait-thread's loop: it leaves when the session is not its own, and removes
        its own session once the child is gone. */
    method PollOnce(id: string, t: Token) returns (mine: bool, exited: bool)
      modifies this`sessions
      ensures View(id) == Poll(old(View(id)), t) && OthersUnchanged(id)
      ensures mine == (old(View(id)).session == Some(t)) && exited == (mine && t !in old(View(id)).live)
    {
      mine, exited := id in sessions && sessions[id] == t, false;
      if mine && (id, t) !in children {
        sessions := sessions - {id};
        exited := true;
      }
    }

    twostate lemma LiveUnchanged(id: string)
      requires forall other, t | other != id :: (other, t) in children <==> (other, t) in old(children)
      ensures forall other | other != id :: Children(other) == old(Children(other))
    {
      forall other | other != id ensures Children(other) == old(Children(other)) {
        assert forall t :: t in Children(other) <==> t in old(Children(other));
      }
    }

    /** cancel_reap_emit, from its row update to its kill. */
    method CancelAndReap(id: string) returns (found: bool)
      modifies this
      ensures View(id) == Reap(old(View(id)))
      ensures OthersUnchanged(id) && found == old(View(id)).row.Some?
    {
      var newlyCanceled;
      found, newlyCanceled := CancelRow(id);
      if newlyCanceled {
        KillSession(id);
      }
    }

    /** `spawn` after a successful register, with the clean-up the caller runs when it fails. */
    method StartChild(id: string, t: Token, luck: Luck) returns (ok: bool)
      modifies this
      ensures View(id) == Spawned(old(View(id)), t, luck) && OthersUnchanged(id)
      ensures ok == luck.Ok()
    {
      if luck.forked {
        ForkChild(id, t);
        if luck.wired {
          EvictOld(id, luck.oldDies);
          InsertSession(id, t);
        }
      }
      ok := luck.Ok();
      if !ok {
        KillIfSpawnId(id, t);
        FinishRow(id, t, Failed);
      }
    }

    /** A whole pty_spawn that nothing interleaves with, from a pane at rest. However it goes, the
        row ends up ours or closed, and no child is left that the session map does not hold,
        except ours when its writer or reader could not be taken. What an evicted child would do makes
        no difference: the reap leaves none to evict. */
    method PtySpawn(id: string, t: Token, luck: Luck) returns (ok: bool)
      requires AtRest(View(id), t)
      modifies this
      ensures OthersUnchanged(id) && ok == luck.Ok()
      ensures View(id).row == Some(Row(if ok then Running else Failed, t))
      ensures View(id).session == (if ok then Some(t) else None)
      ensures View(id).live == SessionChildGone(old(View(id))) + (if ok || luck.HalfWired() then {t} else {})
    {
      SpawnOutcome(View(id), t, luck);
      var _ := CancelAndReap(id);
      var current := RegisterRow(id, t);
      if current != t {
        assert false;
      }
      ok := StartChild(id, t, luck);
    }
  }

  function Spawned(sl: Slice, t: Token, luck: Luck): Slice {
    if !luck.forked then Finish(KillIf(sl, t), t, Failed)
    else
      var born := sl.(live := sl.live + {t});
      if !luck.wired then Finish(KillIf(born, t), t, Failed)
      else
        var held := Insert(Evict(born, luck.oldDies), t);
        if luck.started then held else Finish(KillIf(held, t), t, Failed)
  }

  function Reap(sl: Slice): Slice {
    if NewlyCanceled(sl) then Kill(Cancel(sl)) else sl
  }

  // Nothing carries t yet, and a session belongs to the running row.
  predicate AtRest(sl: Slice, t: Token) {
    && t !in sl.live && (sl.row.Some? ==> sl.row.value.token != t)
    && (sl.session.Some? ==> sl.row == Some(Row(Running, sl.session.value)))
  }

  function SessionChildGone(sl: Slice): set<Token> {
    if sl.session.Some? then sl.live - {sl.session.value} else sl.live
  }

  lemma SpawnOutcome(sl: Slice, t: Token, luck: Luck)
    requires AtRest(sl, t)
    ensures var ok, end := luck.Ok(), Spawned(Register(Reap(sl), t), t, luck);
            && Register(Reap(sl), t).row == Some(Row(Running, t))
            && end.row == Some(Row(if ok then Running else Failed, t))
            && end.session == (if ok then Some(t) else None)
            && end.live == SessionChildGone(sl) + (if ok || luck.HalfWired() then {t} else {})
  {
  }

  // ── The methods and the protocol agree ──────────────────────────────────────

  // A spawn that failed, from the kill of its own session on.
  lemma FailureIsARun(p: Pane, next: Token) returns (steps: seq<Action>)
    requires p.spawn.FailKill?
    ensures CanRun(p, next, steps)
    ensures Run(p, next, steps) == p.(slice := Finish(KillIf(p.slice, p.spawn.t), p.spawn.t, Failed), spawn := Idle)
  {
    var p1 := Apply(p, next, FailDoKill);
    steps := Prepend(p1, next, FailDoFinish, []);
    steps := Prepend(p, next, FailDoKill, steps);
  }

  // From the insertion of the session on.
  lemma ThreadsAreARun(p: Pane, next: Token, started: bool) returns (steps: seq<Action>)
    requires p.spawn.Inserted? && p.slice.row == Some(Row(Running, p.spawn.t))
    ensures CanRun(p, next, steps) && Run(p, next, steps).spawn.Idle?
    ensures Run(p, next, steps).slice
         == if started then p.slice else Finish(KillIf(p.slice, p.spawn.t), p.spawn.t, Failed)
  {
    var p1 := Apply(p, next, StartThreads(started));
    if started {
      steps := Prepend(p1, next, PostCheck, []);
    } else {
      steps := FailureIsARun(p1, next);
    }
    steps := Prepend(p, next, StartThreads(started), steps);
  }

  /** StartChild is the protocol's spawn after its register when nothing comes between its steps. */
  lemma StartIsARun(p: Pane, next: Token, luck: Luck) returns (steps: seq<Action>)
    requires p.spawn.Registered? && p.slice.row == Some(Row(Running, p.spawn.t))
    ensures CanRun(p, next, steps) && Run(p, next, steps).spawn.Idle?
    ensures Run(p, next, steps).slice == Spawned(p.slice, p.spawn.t, luck)
  {
    var fork := Fork(luck.forked, luck.wired);
    var p1 := Apply(p, next, fork);
    if luck.forked && luck.wired {
      var p2 := Apply(p1, next, DoEvict(luck.oldDies));
      var p3 := Apply(p2, next, DoInsert);
      steps := ThreadsAreARun(p3, next, luck.started);
      steps := Prepend(p2, next, DoInsert, steps);
      steps := Prepend(p1, next, DoEvict(luck.oldDies), steps);
    } else {
      steps := FailureIsARun(p1, next);
    }
    steps := Prepend(p, next, fork, steps);
  }

  /** A child whose writer or reader cannot be taken is lost: the clean-up runs to its end and never
      reaches it. */
  lemma HalfWiredIsOrphan(p: Pane, next: Token) returns (steps: seq<Action>)
    requires Inv(p, next) && p.spawn.Registered?
    ensures CanRun(p, next, steps) && Run(p, next, steps).spawn.Idle? && Orphan(Run(p, next, steps), p.spawn.t)
  {
    steps := FailureIsARun(Apply(p, next, Fork(true, false)), next);
    steps := Prepend(p, next, Fork(true, false), steps);
  }

  /** And PtySpawn is all of it: the reap, the next token, the register, the start. */
  lemma SpawnIsARun(p: Pane, next: Token, luck: Luck) returns (steps: seq<Action>)
    requires p.spawn.Idle?
    ensures CanRun(p, next, steps) && Run(p, next, steps).spawn.Idle?
    ensures Run(p, next, steps).slice == Spawned(Register(Reap(p.slice), next), next, luck)
  {
    var p1 := Apply(p, next, TakeLock);
    var p2 := Apply(p1, next, ReapCancel);
    var p3 := if p2.spawn.ReapKill? then Apply(p2, next, ReapDoKill) else p2;
    steps := RegisteredIsARun(p3, next, luck);
    if p2.spawn.ReapKill? { steps := Prepend(p2, next, ReapDoKill, steps); }
    steps := Prepend(p1, next, ReapCancel, steps);
    steps := Prepend(p, next, TakeLock, steps);
  }

  lemma RegisteredIsARun(p: Pane, next: Token, luck: Luck) returns (steps: seq<Action>)
    requires p.spawn.Reaped? && !IsRunning(p.slice.row)
    ensures CanRun(p, next, steps) && Run(p, next, steps).spawn.Idle?
    ensures Run(p, next, steps).slice == Spawned(Register(p.slice, next), next, luck)
  {
    var p1 := Apply(p, next, TakeToken);
    var p2 := Apply(p1, next + 1, DoRegister);
    steps := StartIsARun(p2, next + 1, luck);
    steps := Prepend(p1, next + 1, DoRegister, steps);
    steps := Prepend(p, next, TakeToken, steps);
  }
}
