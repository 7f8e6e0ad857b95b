/** The spawn / wait / cancel protocol of one pane as a transition system. A step is one atomic
    action of one of the parties: the pty_spawn call that holds the pane's lock, a wait-thread,
    a cancelling command, or the child itself. Labels carry every nondeterministic outcome. */
module PtyProtocol {
  import opened Options
  import opened PtyRegistry

  /** Where the pty_spawn that holds the lock is; `Idle` when nobody holds it. */
  datatype Spawn =
    | Idle
    | Locked                  // lock taken, reap not started
    | ReapKill                // the reap's cancel changed the row; its kill is pending
    | Reaped                  // reap over
    | Tokened(t: Token)       // next_run_token done, register pending
    | Registered(t: Token)    // row is ours, child not started
    | Forked(t: Token)        // child runs, held by the spawning call alone
    | Evicted(t: Token)       // older session taken out
    | Inserted(t: Token)      // our session is in the map, threads not started
    | FailKill(t: Token)      // spawn failed: kill_if_spawn_id pending
    | FailFinish(t: Token)    // spawn failed: finish("failed") pending
    | Check(t: Token)         // threads started: the look at the row's status is pending
    | AbortKill(t: Token)     // the row was not running: kill_if_spawn_id pending

  /** A wait-thread: polling, or past the removal of its session and about to call `finish`. */
  datatype Wait = Polling | Removed(status: Status)

  /** `kills` counts cancelling commands between their row update and their kill. The last three
      sets are history: children lost because the PTY writer or reader could not be taken after
      the fork, children that outlived the eviction SIGHUP, and generations whose session a kill
      removed while their row was running. */
  datatype Pane = Pane(
    slice: Slice,
    spawn: Spawn,
    waits: map<Token, Wait>,
    kills: nat,
    leaked: set<Token>,
    escaped: set<Token>,
    clobbered: set<Token>)

  const FRESH := Pane(Slice(None, None, {}), Idle, map[], 0, {}, {}, {})

  datatype Action =
    | TakeLock
    | ReapCancel
    | ReapDoKill
    | TakeToken
    | DoRegister
    | Fork(forked: bool, wired: bool)      // wired: writer and reader could be taken
    | DoEvict(oldDies: bool)
    | DoInsert
    | StartThreads(started: bool)
    | FailDoKill
    | FailDoFinish
    | PostCheck
    | AbortDoKill
    | ChildExit(t: Token)
    | WaitPoll(t: Token, code: Option<int>) // the child's exit code, None if waiting for it failed
    | WaitFinish(t: Token)
    | UserCancel(direct: bool)             // direct: the caller falls back to a bare kill
    | UserKill

  /** The generation the spawn in flight works for, once it has one. */
  function SpawnToken(sp: Spawn): Option<Token> {
    match sp
    case Tokened(t) => Some(t)
    case Registered(t) => Some(t)
    case Forked(t) => Some(t)
    case Evicted(t) => Some(t)
    case Inserted(t) => Some(t)
    case FailKill(t) => Some(t)
    case FailFinish(t) => Some(t)
    case Check(t) => Some(t)
    case AbortKill(t) => Some(t)
    case _ => None
  }

  predicate Enabled(p: Pane, next: Token, a: Action) {
    match a
    case TakeLock => p.spawn.Idle?
    case ReapCancel => p.spawn.Locked?
    case ReapDoKill => p.spawn.ReapKill?
    case TakeToken => p.spawn.Reaped?
    case DoRegister => p.spawn.Tokened?
    case Fork(_, _) => p.spawn.Registered?
    case DoEvict(_) => p.spawn.Forked?
    case DoInsert => p.spawn.Evicted?
    case StartThreads(_) => p.spawn.Inserted?
    case FailDoKill => p.spawn.FailKill?
    case FailDoFinish => p.spawn.FailFinish?
    case PostCheck => p.spawn.Check?
    case AbortDoKill => p.spawn.AbortKill?
    case ChildExit(t) => t in p.slice.live
    case WaitPoll(t, _) => t in p.waits && p.waits[t].Polling?
    case WaitFinish(t) => t in p.waits && p.waits[t].Removed?
    case UserCancel(_) => true
    case UserKill => p.kills > 0
  }

  /** Every kill that is not scoped to a generation records what it takes from a running row. */
  function Clobber(p: Pane): set<Token> {
    if p.slice.session.Some? && p.slice.row == Some(Row(Running, p.slice.session.value))
    then p.clobbered + {p.slice.session.value} else p.clobbered
  }

  function ExitStatus(code: Option<int>): Status {
    if code == Some(0) then Done else Failed
  }

  function Apply(p: Pane, next: Token, a: Action): Pane
    requires Enabled(p, next, a)
  {
    var sl := p.slice;
    match a
    case TakeLock => p.(spawn := Locked)
    case ReapCancel => p.(slice := Cancel(sl), spawn := if NewlyCanceled(sl) then ReapKill else Reaped)
    case ReapDoKill => p.(slice := Kill(sl), clobbered := Clobber(p), spawn := Reaped)
    case TakeToken => p.(spawn := Tokened(next))
    case DoRegister =>
      var t, sl' := p.spawn.t, Register(sl, p.spawn.t);
      p.(slice := sl', spawn := if sl'.row.value.token == t then Registered(t) else Idle)
    case Fork(forked, wired) =>
      var t := p.spawn.t;
      if !forked then p.(spawn := FailKill(t))
      else if wired then p.(slice := sl.(live := sl.live + {t}), spawn := Forked(t))
      else p.(slice := sl.(live := sl.live + {t}), leaked := p.leaked + {t}, spawn := FailKill(t))
    case DoEvict(oldDies) =>
      p.(slice := Evict(sl, oldDies),
         escaped := if sl.session.Some? && !oldDies then p.escaped + {sl.session.value} else p.escaped,
         clobbered := Clobber(p),
         spawn := Evicted(p.spawn.t))
    case DoInsert => p.(slice := Insert(sl, p.spawn.t), spawn := Inserted(p.spawn.t))
    case StartThreads(started) =>
      var t := p.spawn.t;
      if started then p.(waits := p.waits[t := Polling], spawn := Check(t)) else p.(spawn := FailKill(t))
    case FailDoKill => p.(slice := KillIf(sl, p.spawn.t), spawn := FailFinish(p.spawn.t))
    case FailDoFinish => p.(slice := Finish(sl, p.spawn.t, Failed), spawn := Idle)
    case PostCheck => p.(spawn := if sl.row.Some? && !IsRunning(sl.row) then AbortKill(p.spawn.t) else Idle)
    case AbortDoKill => p.(slice := KillIf(sl, p.spawn.t), spawn := Idle)
    case ChildExit(t) => p.(slice := sl.(live := sl.live - {t}))
    case WaitPoll(t, code) =>
      if sl.session != Some(t) then p.(waits := p.waits - {t})
      else if t in sl.live then p
      else p.(slice := Poll(sl, t), waits := p.waits[t := Removed(ExitStatus(code))])
    case WaitFinish(t) => p.(slice := Finish(sl, t, p.waits[t].status), waits := p.waits - {t})
    case UserCancel(direct) =>
      p.(slice := Cancel(sl), kills := if NewlyCanceled(sl) || (direct && sl.row.None?) then p.kills + 1 else p.kills)
    case UserKill => p.(slice := Kill(sl), clobbered := Clobber(p), kills := p.kills - 1)
  }

  function NextToken(next: Token, a: Action): Token {
    if a.TakeToken? then next + 1 else next
  }

  /** The spawn in flight still answers for generation `t`: it will either start t's threads or
      close t's row itself. */
  predicate Answers(sp: Spawn, t: Token) {
    sp in {Registered(t), Forked(t), Evicted(t), Inserted(t), FailKill(t), FailFinish(t)}
  }

  /** Somebody will notice the end of generation `t`. */
  predicate Watched(p: Pane, t: Token) {
    || Answers(p.spawn, t)
    || (p.slice.session == Some(t) && t in p.waits && p.waits[t].Polling?)
    || (t in p.waits && p.waits[t].Removed?)
  }

  /** The row says `running`, and nobody is left who would ever close it. */
  predicate Stuck(p: Pane) {
    IsRunning(p.slice.row) && !Watched(p, p.slice.row.value.token)
  }

  /** A running child that neither the session map nor the spawn in flight can reach. */
  predicate Orphan(p: Pane, t: Token) {
    t in p.slice.live && p.slice.session != Some(t) && p.spawn != Forked(t) && p.spawn != Evicted(t)
  }

  // ── The invariant of every run ──────────────────────────────────────────────

  predicate Below(s: set<Token>, next: Token) {
    forall t | t in s :: t < next
  }

  predicate TokensBelow(p: Pane, next: Token) {
    && (p.slice.row.Some? ==> p.slice.row.value.token < next)
    && (p.slice.session.Some? ==> p.slice.session.value < next)
    && (SpawnToken(p.spawn).Some? ==> SpawnToken(p.spawn).value < next)
    && Below(p.slice.live, next) && Below(p.waits.Keys, next)
    && Below(p.leaked, next) && Below(p.escaped, next) && Below(p.clobbered, next)
  }

  /** Nothing carries generation `t` yet, except what the spawn in flight has done for it. */
  predicate Unused(p: Pane, t: Token) {
    t !in p.waits && t !in p.leaked && t !in p.escaped && t !in p.clobbered && p.slice.session != Some(t)
  }

  predicate SpawnInv(p: Pane) {
    match p.spawn
    case Idle => true
    case Locked => true
    case ReapKill => !IsRunning(p.slice.row)
    case Reaped => !IsRunning(p.slice.row)
    case Tokened(t) => !IsRunning(p.slice.row) && Unused(p, t) && t !in p.slice.live
                       && (p.slice.row.Some? ==> p.slice.row.value.token < t)
    case Registered(t) => OpenRow(p, t) && Unused(p, t) && t !in p.slice.live
    case Forked(t) => OpenRow(p, t) && Unused(p, t)
    case Evicted(t) => OpenRow(p, t) && Unused(p, t) && p.slice.session == None
    case Inserted(t) =>
      && OpenRow(p, t) && t !in p.waits && t !in p.leaked && t !in p.escaped
      && (IsRunning(p.slice.row) ==> p.slice.session == Some(t) || t in p.clobbered)
    case FailKill(t) => OpenRow(p, t) && t !in p.waits
    case FailFinish(t) => HasToken(p, t) && t !in p.waits && p.slice.session != Some(t)
    case Check(t) => HasToken(p, t)
    case AbortKill(t) => HasToken(p, t) && !IsRunning(p.slice.row)
  }

  predicate HasToken(p: Pane, t: Token) {
    p.slice.row.Some? && p.slice.row.value.token == t
  }

  predicate OpenRow(p: Pane, t: Token) {
    HasToken(p, t) && p.slice.row.value.status in {Running, Canceled}
  }

  predicate Accounted(p: Pane) {
    // a child is reachable, or it is one of the recorded losses
    && (forall t | t in p.slice.live ::
          p.slice.session == Some(t) || p.spawn == Forked(t) || p.spawn == Evicted(t) || t in p.leaked || t in p.escaped)
    && (forall t | t in p.leaked + p.escaped :: p.slice.session != Some(t))
  }

  predicate Attended(p: Pane) {
    // a session has its wait-thread, or the spawn in flight still answers for it
    && (p.slice.session.Some? ==>
          var t := p.slice.session.value;
          (t in p.waits && p.waits[t].Polling?) || p.spawn == Inserted(t) || p.spawn == FailKill(t))
    && (forall t | t in p.waits && p.waits[t].Removed? ::
          p.slice.session != Some(t) && t !in p.slice.live && t !in p.clobbered && p.waits[t].status in {Done, Failed})
    && (forall t | t in p.clobbered :: p.slice.session != Some(t))
    // a running row is watched, unless a kill took its session
    && (IsRunning(p.slice.row) ==> Watched(p, p.slice.row.value.token) || p.slice.row.value.token in p.clobbered)
  }

  predicate Inv(p: Pane, next: Token) {
    TokensBelow(p, next) && SpawnInv(p) && Accounted(p) && Attended(p)
  }

  lemma InvInit(next: Token)
    ensures Inv(FRESH, next)
  {
  }

  lemma InvMono(p: Pane, next: Token, next': Token)
    requires Inv(p, next) && next <= next'
    ensures Inv(p, next')
  {
  }

  lemma InvReap(p: Pane, next: Token, a: Action)
    requires Inv(p, next) && Enabled(p, next, a)
    requires a.TakeLock? || a.ReapCancel? || a.ReapDoKill? || a.TakeToken? || a.DoRegister?
    ensures Inv(Apply(p, next, a), NextToken(next, a))
  {
  }

  lemma InvStart(p: Pane, next: Token, a: Action)
    requires Inv(p, next) && Enabled(p, next, a)
    requires a.Fork? || a.DoEvict? || a.DoInsert? || a.StartThreads?
    ensures Inv(Apply(p, next, a), next)
  {
  }

  lemma InvSettle(p: Pane, next: Token, a: Action)
    requires Inv(p, next) && Enabled(p, next, a)
    requires a.FailDoKill? || a.FailDoFinish? || a.PostCheck? || a.AbortDoKill?
    ensures Inv(Apply(p, next, a), next)
  {
  }

  lemma InvChild(p: Pane, next: Token, a: Action)
    requires Inv(p, next) && Enabled(p, next, a) && a.ChildExit?
    ensures Inv(Apply(p, next, a), next)
  {
  }

  lemma InvWait(p: Pane, next: Token, a: Action)
    requires Inv(p, next) && Enabled(p, next, a) && (a.WaitPoll? || a.WaitFinish?)
    ensures Inv(Apply(p, next, a), next)
  {
  }

  lemma InvCancel(p: Pane, next: Token, a: Action)
    requires Inv(p, next) && Enabled(p, next, a)
    requires a.UserCancel? || a.UserKill?
    ensures Inv(Apply(p, next, a), next)
  {
  }

  /** Every step of every party keeps the invariant. */
  lemma InvStep(p: Pane, next: Token, a: Action)
    requires Inv(p, next) && Enabled(p, next, a)
    ensures Inv(Apply(p, next, a), NextToken(next, a))
  {
    if a.TakeLock? || a.ReapCancel? || a.ReapDoKill? || a.TakeToken? || a.DoRegister? {
      InvReap(p, next, a);
    } else if a.Fork? || a.DoEvict? || a.DoInsert? || a.StartThreads? {
      InvStart(p, next, a);
    } else if a.FailDoKill? || a.FailDoFinish? || a.PostCheck? || a.AbortDoKill? {
      InvSettle(p, next, a);
    } else if a.UserCancel? || a.UserKill? {
      InvCancel(p, next, a);
    } else if a.ChildExit? {
      InvChild(p, next, a);
    } else {
      InvWait(p, next, a);
    }
  }

  // ── What the invariant says ─────────────────────────────────────────────────

  /** A row is stuck exactly when a kill took the session of its own generation and no spawn
      answers for that generation any more. */
  lemma StuckExactly(p: Pane, next: Token)
    requires Inv(p, next)
    ensures Stuck(p) <==>
            IsRunning(p.slice.row) && p.slice.row.value.token in p.clobbered
            && !Answers(p.spawn, p.slice.row.value.token)
  {
  }

  /** A running child is out of reach exactly when it is one of the two recorded losses. */
  lemma OrphanExactly(p: Pane, next: Token, t: Token)
    requires Inv(p, next)
    ensures Orphan(p, t) <==> t in p.slice.live && t in p.leaked + p.escaped
  {
  }

  /** The token register hands back is always the spawn's own: the mismatch abort is dead code. */
  lemma RegisterAlwaysWins(p: Pane, next: Token)
    requires Inv(p, next) && p.spawn.Tokened?
    ensures Apply(p, next, DoRegister).spawn == Registered(p.spawn.t)
    ensures Apply(p, next, DoRegister).slice.row == Some(Row(Running, p.spawn.t))
  {
  }

  /** A stuck row stays stuck: only another cancel, or the reap of another spawn, moves it. */
  lemma StuckStays(p: Pane, next: Token, a: Action)
    requires Inv(p, next) && Stuck(p) && Enabled(p, next, a)
    requires !a.UserCancel? && !a.ReapCancel?
    ensures Stuck(Apply(p, next, a)) && Apply(p, next, a).slice.row == p.slice.row
  {
  }

  /** The generation on whose behalf a step acts, for the steps scoped to one. */
  function Acting(p: Pane, a: Action): Option<Token> {
    match a
    case FailDoKill => SpawnToken(p.spawn)
    case FailDoFinish => SpawnToken(p.spawn)
    case AbortDoKill => SpawnToken(p.spawn)
    case WaitPoll(t, _) => Some(t)
    case WaitFinish(t) => Some(t)
    case _ => None
  }

  /** A wait-thread, a scoped kill and a scoped finish leave every other generation alone. */
  lemma GenerationsIsolated(p: Pane, next: Token, a: Action)
    requires Enabled(p, next, a) && Acting(p, a).Some?
    ensures var t, p' := Acting(p, a).value, Apply(p, next, a);
            && (!HasToken(p, t) ==> p'.slice.row == p.slice.row)
            && (p.slice.session != Some(t) ==> p'.slice.session == p.slice.session)
            && (forall u | u != t :: (u in p'.slice.live <==> u in p.slice.live)
                                     && (u in p'.waits <==> u in p.waits)
                                     && (u in p.waits ==> p'.waits[u] == p.waits[u]))
  {
  }

  /** How one row may follow another: a new generation is later, and within one generation a row
      leaves `running` at most once and never comes back. */
  predicate Follows(r: Option<Row>, r': Option<Row>) {
    r.Some? ==>
      && r'.Some?
      && (r'.value.token > r.value.token
          || r' == r
          || (r'.value.token == r.value.token && r.value.status == Running))
  }

  lemma RowFollows(p: Pane, next: Token, a: Action)
    requires Inv(p, next) && Enabled(p, next, a)
    ensures Follows(p.slice.row, Apply(p, next, a).slice.row)
  {
  }

  // ── How a row was closed ────────────────────────────────────────────────────

  /** What has happened to the generations so far: the exit code (or none) with which a wait-thread
      took its own session out, the spawns that closed their own row after a failure, and the
      generations whose running row was cancelled. */
  datatype Past = Past(exits: map<Token, Option<int>>, failed: set<Token>, canceled: set<Token>)

  const NOTHING_YET := Past(map[], {}, {})

  /** A step adds to that, seen from the state it is taken in. */
  function Remember(past: Past, p: Pane, a: Action): Past {
    match a
    case WaitPoll(t, code) =>
      if p.slice.session == Some(t) && t !in p.slice.live then past.(exits := past.exits[t := code]) else past
    case FailDoFinish =>
      if p.spawn.FailFinish? && p.slice.row == Some(Row(Running, p.spawn.t))
      then past.(failed := past.failed + {p.spawn.t}) else past
    case ReapCancel =>
      if IsRunning(p.slice.row) then past.(canceled := past.canceled + {p.slice.row.value.token}) else past
    case UserCancel(_) =>
      if IsRunning(p.slice.row) then past.(canceled := past.canceled + {p.slice.row.value.token}) else past
    case _ => past
  }

  /** A closed row says how its own generation ended: `done` after an exit with code zero, `failed` after
      any other end of the child or a spawn that gave up, `canceled` after a cancel. */
  predicate TellsTruth(row: Option<Row>, past: Past) {
    match row
    case None => true
    case Some(Row(Running, _)) => true
    case Some(Row(Done, t)) => t in past.exits && past.exits[t] == Some(0)
    case Some(Row(Failed, t)) => t in past.failed || (t in past.exits && past.exits[t] != Some(0))
    case Some(Row(Canceled, t)) => t in past.canceled
  }

  // That, what wait-threads are about to say, and that no session outlives its closed row.
  predicate Agrees(p: Pane, past: Past) {
    && TellsTruth(p.slice.row, past)
    && (forall t | t in p.waits && p.waits[t].Removed? ::
          t in past.exits && p.waits[t].status == (if past.exits[t] == Some(0) then Done else Failed))
    && (p.slice.row.Some? && p.slice.row.value.status in {Done, Failed} ==> p.slice.session != Some(p.slice.row.value.token))
  }

  lemma AgreesStep(p: Pane, next: Token, a: Action, past: Past)
    requires Inv(p, next) && Agrees(p, past) && Enabled(p, next, a)
    ensures Agrees(Apply(p, next, a), Remember(past, p, a))
  {
  }

  // ── Runs in which no cancel is straddled by a register ──────────────────────

  /** No register while a cancelling command sits between its row update and its kill. */
  predicate Unstraddled(p: Pane, a: Action) {
    a.DoRegister? ==> p.kills == 0
  }

  predicate Tidy(p: Pane) {
    && p.clobbered == {} && p.escaped == {}
    && (p.kills > 0 ==> !IsRunning(p.slice.row))
    && (p.slice.session.Some? ==>
          var t := p.slice.session.value;
          && HasToken(p, t)
          && (IsRunning(p.slice.row)
              || (p.slice.row.value.status == Canceled
                  && (p.kills > 0 || p.spawn in {ReapKill, Inserted(t), FailKill(t), Check(t), AbortKill(t)}))))
  }

  lemma TidyStep(p: Pane, next: Token, a: Action)
    requires Inv(p, next) && Tidy(p) && Enabled(p, next, a) && Unstraddled(p, a)
    ensures Tidy(Apply(p, next, a))
  {
  }

  /** What tidiness is for: no stuck row, nothing lost but half-wired children, one child a pane,
      and nothing left alive behind a closed row. */
  lemma TidyMeans(p: Pane, next: Token)
    requires Inv(p, next) && Tidy(p)
    ensures !Stuck(p)
    ensures forall t | Orphan(p, t) :: t in p.leaked
    ensures p.spawn.Evicted? || p.spawn.Forked? || p.spawn.Registered? ==> p.slice.session == None
    ensures p.spawn.Idle? ==> forall t, u | t in p.slice.live - p.leaked && u in p.slice.live - p.leaked :: t == u
    ensures p.spawn.Idle? && p.kills == 0 && !IsRunning(p.slice.row) ==> p.slice.session == None && p.slice.live <= p.leaked
  {
  }
}
