/** Pausing and resuming an agent's process: the signal and the `paused_at` flag of its task
    (orchestration_pause_task, stop_all_agents and orchestration_resume_task in commands.rs, pause_task
    and resume_task in orchestration.rs, the signals in pty.rs). */
module Pause {

  // ── Signals to one process ──────────────────────────────────────────────────

  datatype Signal = Stop | Cont | Hup | Kill

  /** A process may catch or ignore SIGHUP; stopped, it does not act on it until it is continued. */
  datatype Process = Process(alive: bool, stopped: bool, hupPending: bool, ignoresHup: bool)

  function Hangup(p: Process): Process {
    if p.ignoresHup then p.(hupPending := false) else p.(alive := false, hupPending := false)
  }

  function Deliver(p: Process, sig: Signal): Process {
    if !p.alive then p
    else
      match sig
      case Stop => p.(stopped := true)
      case Cont => if p.hupPending then Hangup(p.(stopped := false)) else p.(stopped := false)
      case Hup => if p.stopped then p.(hupPending := true) else Hangup(p)
      case Kill => p.(alive := false)
  }

  class Child {
    var process: Process

    constructor (p: Process)
      ensures process == p
    {
      process := p;
    }

    method Send(sig: Signal) returns (delivered: bool)
      modifies this
      ensures process == Deliver(old(process), sig)
      ensures delivered == old(process).alive
    {
      delivered := process.alive;
      process := Deliver(process, sig);
    }

    /** Continue, hang up, kill: nothing survives it, stopped or not, whatever it does with SIGHUP; and
        a process that hangs up on request got the request first. */
    method TerminateChild() returns (politely: bool)
      modifies this
      ensures !process.alive
      ensures old(process).alive ==> (politely <==> !old(process).ignoresHup)
    {
      var resumed := Send(Cont);
      var hungUp := Send(Hup);
      politely := !process.alive;
      var killed := Send(Kill);
    }
  }

  /** Hanging up alone is not enough exactly for the stopped and the deaf. */
  lemma HangupAloneLeavesAlive(p: Process)
    requires p.alive
    ensures Deliver(p, Hup).alive <==> p.stopped || p.ignoresHup
  {
  }

  /** A stop holds until the process is continued, and a hangup that arrives meanwhile waits for that; the
      dead take no signals. */
  lemma SignalsAct(p: Process, sig: Signal)
    ensures !p.alive ==> Deliver(p, sig) == p
    ensures p.alive ==> Deliver(p, Stop) == p.(stopped := true)
    ensures p.alive && !p.hupPending ==> Deliver(Deliver(p, Stop), Cont) == p.(stopped := false)
    ensures var q := Deliver(Deliver(Deliver(p, Stop), Hup), Cont);
            p.alive ==> (q.alive <==> p.ignoresHup) && !q.stopped && !q.hupPending
    ensures p.alive && p.stopped ==> Deliver(p, Hup).alive
    ensures p.alive && !p.stopped ==> (Deliver(p, Hup).alive <==> p.ignoresHup) && !Deliver(p, Hup).hupPending
  {
  }

  // ── The protocol of one task ────────────────────────────────────────────────

  /** The process in the task's pane; a new one gets a new number. */
  datatype Pane = Gone | Live(pid: nat, stopped: bool)

  /** The commands run one at a time; a phase is what the running one has done so far. */
  datatype Phase =
    | Idle
    | PauseChecked              // the flag was read and found unset
    | PauseLooked(pid: nat)     // the pid was looked up
    | PauseStopped              // SIGSTOP was delivered
    | PauseReread               // the task was read again: running, flag unset
    | RollingBack               // the flag could not be set
    | ResumeChecked             // the flag was read and found set
    | ResumeSignalled           // SIGCONT was delivered, or there was no process

  datatype State = State(pane: Pane, next: nat, flag: bool, running: bool, phase: Phase)

  datatype Action =
    | BeginPause | LookUp | SignalStop(denied: bool) | Reread(fails: bool) | SetFlag(fails: bool) | Continue
    | BeginResume | SignalCont(denied: bool) | ClearFlag(fails: bool)
    | Exit | KillPane | Respawn | Turn(running: bool)

  predicate Enabled(s: State, a: Action) {
    match a
    case BeginPause => s.phase.Idle?
    case LookUp => s.phase.PauseChecked?
    case SignalStop(_) => s.phase.PauseLooked?
    case Reread(_) => s.phase.PauseStopped?
    case SetFlag(_) => s.phase.PauseReread?
    case Continue => s.phase.RollingBack?
    case BeginResume => s.phase.Idle?
    case SignalCont(_) => s.phase.ResumeChecked?
    case ClearFlag(_) => s.phase.ResumeSignalled?
    case Exit => s.pane.Live?
    case KillPane => true
    case Respawn => s.pane.Gone?
    case Turn(_) => true
  }

  /** The signal reaches the process that was looked up, if it is still there. */
  function Stopped(p: Pane, pid: nat): Pane {
    if p.Live? && p.pid == pid then p.(stopped := true) else p
  }

  function Continued(p: Pane): Pane {
    if p.Live? then p.(stopped := false) else p
  }

  function Apply(s: State, a: Action): State {
    match a
    case BeginPause => if s.flag then s else s.(phase := PauseChecked)
    case LookUp => if s.pane.Live? then s.(phase := PauseLooked(s.pane.pid)) else s.(phase := Idle)
    case SignalStop(denied) =>
      if denied || !s.phase.PauseLooked? then s.(phase := Idle)
      else if s.pane.Live? && s.pane.pid == s.phase.pid then s.(pane := Stopped(s.pane, s.phase.pid), phase := PauseStopped)
      else s.(phase := Idle)
    case Reread(fails) =>
      if fails || !s.running then s.(phase := RollingBack)
      else if s.flag then s.(phase := Idle)
      else s.(phase := PauseReread)
    case SetFlag(fails) =>
      if fails then s.(phase := RollingBack)
      else if s.running && !s.flag then s.(flag := true, phase := Idle)
      else s.(phase := Idle)
    case Continue => s.(pane := Continued(s.pane), phase := Idle)
    case BeginResume => if s.flag then s.(phase := ResumeChecked) else s
    case SignalCont(denied) =>
      if denied then s.(phase := Idle) else s.(pane := Continued(s.pane), phase := ResumeSignalled)
    case ClearFlag(fails) => if fails then s.(phase := Idle) else s.(flag := false, phase := Idle)
    case Exit => s.(pane := Gone)
    case KillPane => s.(pane := Gone)
    case Respawn => s.(pane := Live(s.next, false), next := s.next + 1)
    case Turn(r) => s.(running := r)
  }

  // ── Whole commands ──────────────────────────────────────────────────────────

  predicate IsRun(s: State, run: seq<Action>)
    decreases |run|
  {
    run == [] || (Enabled(s, run[0]) && IsRun(Apply(s, run[0]), run[1..]))
  }

  function After(s: State, run: seq<Action>): State
    decreases |run|
  {
    if run == [] then s else After(Apply(s, run[0]), run[1..])
  }

  function Prepended(s: State, a: Action, rest: seq<Action>): (run: seq<Action>)
    ensures |run| == |rest| + 1 && run[0] == a
    ensures IsRun(s, run) <==> Enabled(s, a) && IsRun(Apply(s, a), rest)
    ensures After(s, run) == After(Apply(s, a), rest)
  {
    assert ([a] + rest)[1..] == rest;
    [a] + rest
  }

  /** A pause of a running task: its process is stopped and flagged, or as it was if the flag cannot be
      set; one that is flagged already, or has no process, is left alone. */
  lemma PauseWorks(s: State, fails: bool) returns (run: seq<Action>)
    requires s.phase.Idle?
    ensures s.flag ==> Apply(s, BeginPause) == s
    ensures !s.flag && s.pane.Gone? ==> Apply(Apply(s, BeginPause), LookUp) == s
    ensures !s.flag && s.pane.Live? && s.running ==>
              && IsRun(s, run) && |run| > 0 && run[0] == BeginPause
              && After(s, run) == if fails then s.(pane := Live(s.pane.pid, false)) else s.(pane := Live(s.pane.pid, true), flag := true)
  {
    run := [];
    if !s.flag && s.pane.Live? && s.running {
      var s1 := Apply(s, BeginPause);
      var s2 := Apply(s1, LookUp);
      var s3 := Apply(s2, SignalStop(false));
      var s4 := Apply(s3, Reread(false));
      if fails { run := Prepended(Apply(s4, SetFlag(true)), Continue, []); }
      run := Prepended(s4, SetFlag(fails), run);
      run := Prepended(s3, Reread(false), run);
      run := Prepended(s2, SignalStop(false), run);
      run := Prepended(s1, LookUp, run);
      run := Prepended(s, BeginPause, run);
    }
  }

  /** A process that ended or was replaced since it was looked up is not stopped, and a signal that is
      refused stops nobody. */
  lemma OnlyTheLookedUpStops(s: State, denied: bool)
    requires s.phase.PauseLooked?
    ensures denied || s.pane.Gone? || s.pane.pid != s.phase.pid ==> Apply(s, SignalStop(denied)) == s.(phase := Idle)
  {
  }

  /** A resume of a flagged task: its process runs and the flag is gone; the flag stays if the signal is
      refused or the flag cannot be cleared. */
  lemma ResumeWorks(s: State, denied: bool, fails: bool) returns (run: seq<Action>)
    requires s.phase.Idle?
    ensures !s.flag ==> Apply(s, BeginResume) == s
    ensures s.flag ==> IsRun(s, run) && |run| > 0 && run[0] == BeginResume
    ensures s.flag ==> After(s, run) == if denied then s else s.(pane := Continued(s.pane), flag := fails)
    ensures Continued(s.pane) == if s.pane.Live? then Live(s.pane.pid, false) else Gone
  {
    run := [];
    if s.flag {
      var s1 := Apply(s, BeginResume);
      if !denied { run := Prepended(Apply(s1, SignalCont(false)), ClearFlag(fails), []); }
      run := Prepended(s1, SignalCont(denied), run);
      run := Prepended(s, BeginResume, run);
    }
  }

  /** A pane can be killed at any time, and a process can end at any time. */
  lemma EndsAnyTime(s: State)
    ensures Enabled(s, KillPane) && Apply(s, KillPane) == s.(pane := Gone)
    ensures s.pane.Live? ==> Enabled(s, Exit) && Apply(s, Exit) == s.(pane := Gone)
  {
  }

  // ── No process is left frozen without its flag ──────────────────────────────

  predicate Frozen(s: State) {
    s.pane.Live? && s.pane.stopped && !s.flag
  }

  /** A stopped process has its flag, or a pause is under way that will set it or roll back; once
      resume has signalled, nothing is stopped. */
  predicate Inv(s: State) {
    && (s.pane.Live? ==> s.pane.pid < s.next)
    && (Frozen(s) ==> s.phase.PauseStopped? || s.phase.PauseReread? || s.phase.RollingBack?)
    && (s.phase.ResumeSignalled? ==> s.pane.Live? ==> !s.pane.stopped)
    && (s.phase.PauseReread? ==> !s.flag)
  }

  /** The task stopped running between the two looks of `pause_task`: the update finds no row, and the
      command takes that for a pause that somebody else has recorded. */
  predicate MissesTheRow(s: State, a: Action) {
    a == SetFlag(false) && s.phase.PauseReread? && !s.running && s.pane.Live? && s.pane.stopped
  }

  /** Every step of every command and of its surroundings keeps the invariant, except that one. */
  lemma InvStep(s: State, a: Action)
    requires Inv(s) && Enabled(s, a)
    ensures Inv(Apply(s, a)) <==> !MissesTheRow(s, a)
  {
  }

  predicate RowAlwaysFound(s: State, run: seq<Action>)
    decreases |run|
  {
    run == [] || (!MissesTheRow(s, run[0]) && RowAlwaysFound(Apply(s, run[0]), run[1..]))
  }

  lemma {:induction false} InvRun(s: State, run: seq<Action>)
    requires Inv(s) && IsRun(s, run) && RowAlwaysFound(s, run)
    ensures Inv(After(s, run))
    decreases |run|
  {
    if run == [] {
    } else {
      InvStep(s, run[0]);
      InvRun(Apply(s, run[0]), run[1..]);
    }
  }

  const START := State(Gone, 0, false, true, Idle)

  /** Whenever no command is under way, no live process is stopped without its flag: over any run of
      pause, resume and kill, with exits, new processes and database errors anywhere. */
  lemma NoneFrozenBetweenCommands(run: seq<Action>)
    requires IsRun(START, run) && RowAlwaysFound(START, run) && After(START, run).phase.Idle?
    ensures !Frozen(After(START, run))
  {
    InvRun(START, run);
  }

  /** A task that stays in its state while it is being paused never misses its row. */
  lemma {:induction false} SteadyTasksAreFound(s: State, run: seq<Action>)
    requires Inv(s) && IsRun(s, run) && (s.phase.PauseReread? ==> s.running)
    requires forall a | a in run :: a != Turn(false)
    ensures RowAlwaysFound(s, run)
    decreases |run|
  {
    if run == [] {
    } else {
      assert run[0] in run && forall a | a in run[1..] :: a in run;
      InvStep(s, run[0]);
      SteadyTasksAreFound(Apply(s, run[0]), run[1..]);
    }
  }

  /** It happens: an agent finishes its task while the pause is between its two looks. The process is
      left stopped, the flag unset, and no command running. */
  lemma FrozenWithoutFlag() returns (run: seq<Action>)
    ensures IsRun(START, run) && Frozen(After(START, run)) && After(START, run).phase.Idle?
  {
    var s0 := Apply(START, Respawn);
    var s1 := Apply(s0, BeginPause);
    var s2 := Apply(s1, LookUp);
    var s3 := Apply(s2, SignalStop(false));
    var s4 := Apply(s3, Reread(false));
    var s5 := Apply(s4, Turn(false));
    run := Prepended(s5, SetFlag(false), []);
    run := Prepended(s4, Turn(false), run);
    run := Prepended(s3, Reread(false), run);
    run := Prepended(s2, SignalStop(false), run);
    run := Prepended(s1, LookUp, run);
    run := Prepended(s0, BeginPause, run);
    run := Prepended(START, Respawn, run);
  }

  /** A process that is left like this stays so: commands to resume it, new turns of its task and
      anything else do nothing for it. Only another pause, or the end of the process, can. */
  lemma {:induction false} OnlyAnotherPauseThaws(s: State, run: seq<Action>)
    requires Frozen(s) && s.phase.Idle? && IsRun(s, run)
    requires BeginPause !in run && Exit !in run && KillPane !in run
    ensures Frozen(After(s, run)) && After(s, run).phase.Idle? && After(s, run).pane == s.pane
    decreases |run|
  {
    if run == [] {
    } else {
      assert run[0] in run && forall a | a in run[1..] :: a in run;
      OnlyAnotherPauseThaws(Apply(s, run[0]), run[1..]);
    }
  }

  /** And another pause does: it finds the task not running and rolls back. */
  lemma AnotherPauseThaws(s: State) returns (run: seq<Action>)
    requires Frozen(s) && s.phase.Idle? && !s.running
    ensures IsRun(s, run) && |run| > 0 && run[0] == BeginPause
    ensures After(s, run) == s.(pane := Continued(s.pane)) && !Frozen(After(s, run))
  {
    var s1 := Apply(s, BeginPause);
    var s2 := Apply(s1, LookUp);
    var s3 := Apply(s2, SignalStop(false));
    var s4 := Apply(s3, Reread(false));
    run := Prepended(s4, Continue, []);
    run := Prepended(s3, Reread(false), run);
    run := Prepended(s2, SignalStop(false), run);
    run := Prepended(s1, LookUp, run);
    run := Prepended(s, BeginPause, run);
  }
}
