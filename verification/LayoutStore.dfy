/** The stored layout of one workspace, its compare-and-swap on the revision, and the optimistic
    retry loop every window command goes through. */
module LayoutStore {
  import opened Options
  import opened LayoutTree
  import opened Layout
  import opened LayoutLaws

  datatype SaveResult = Saved | Stale | Invalid | Failed

  const I64_MAX := 0x7FFF_FFFF_FFFF_FFFF

  /** One entry of the write history: what was written, and whether the caller we follow wrote it. */
  datatype Commit = Commit(config: Config, mine: bool)

  /** What a reader gets: an unreadable or future row reads as an empty layout, no row as what the
      pre-versioned layout migrates to. */
  function ReadOf(legacy: Config, stored: Option<Config>): (c: Config)
    requires legacy.revision == 0
    ensures c.revision <= RevisionOf(stored)
  {
    match stored
    case None => legacy
    case Some(c) => if c.version > CURRENT_VERSION || !Valid(c) then Empty(c.workspace) else c
  }

  /** A reader never gets anything that breaks the rules or comes from a later version: what is stored if
      that is all right, and an empty layout of its workspace if not. */
  lemma ReadsExactly(legacy: Config, stored: Option<Config>)
    requires legacy.revision == 0 && Valid(legacy) && legacy.version <= 1
    ensures Valid(ReadOf(legacy, stored)) && ReadOf(legacy, stored).version <= 1
    ensures stored.None? ==> ReadOf(legacy, stored) == legacy
    ensures stored.Some? && Valid(stored.value) && stored.value.version <= 1 ==> ReadOf(legacy, stored) == stored.value
    ensures stored.Some? && !(Valid(stored.value) && stored.value.version <= 1) ==>
              ReadOf(legacy, stored) == Empty(stored.value.workspace)
  {
    if stored.Some? { EmptyIsValid(stored.value.workspace); }
  }

  /** The stored revision; a missing row counts as zero. */
  function RevisionOf(stored: Option<Config>): nat {
    if stored.Some? then stored.value.revision else 0
  }

  /** What is stored after a run of commits. */
  function After(start: Option<Config>, commits: seq<Commit>): Option<Config> {
    if commits == [] then start else Some(commits[|commits| - 1].config)
  }

  /** What `save` lets through on top of what is stored. */
  predicate Takes(stored: Option<Config>, c: Config) {
    Valid(c) && c.revision == RevisionOf(stored) + 1 && c.revision <= I64_MAX
  }

  /** What is stored after others have tried to write, one after the other. */
  function Written(stored: Option<Config>, writes: seq<Config>): Option<Config> {
    if writes == [] then stored
    else
      var before := Written(stored, writes[..|writes| - 1]);
      var last := writes[|writes| - 1];
      if Takes(before, last) then Some(last) else before
  }

  predicate NoneMine(commits: seq<Commit>) {
    forall e | e in commits :: !e.mine
  }

  class Store {
    var stored: Option<Config>
    const legacy: Config
    ghost var log: seq<Commit>

    constructor (legacy: Config, stored: Option<Config>)
      requires legacy.revision == 0
      ensures this.stored == stored && this.legacy == legacy && log == []
    {
      this.legacy, this.stored, log := legacy, stored, [];
    }

    /** Validates, then writes if the revision moves on by exactly one. */
    method Save(c: Config, ioFails: bool, mine: bool) returns (r: SaveResult)
      modifies this
      ensures r.Saved? <==>
                && Valid(c) && !ioFails && c.revision <= 0x7FFF_FFFF_FFFF_FFFF
                && c.revision == (if old(stored).Some? then old(stored).value.revision else 0) + 1
      ensures r.Invalid? <==> !Valid(c)
      ensures r.Stale? <==> Valid(c) && !ioFails && RevisionOf(old(stored)) < U64_MAX && c.revision != RevisionOf(old(stored)) + 1
      ensures r.Saved? ==> stored == Some(c) && log == old(log) + [Commit(c, mine)]
      ensures !r.Saved? ==> stored == old(stored) && log == old(log)
    {
      if !Valid(c) { return Invalid; }
      if ioFails { return Failed; }
      if RevisionOf(stored) >= U64_MAX { return Failed; }
      if c.revision != RevisionOf(stored) + 1 { return Stale; }
      if c.revision > I64_MAX { return Failed; }
      stored, log := Some(c), log + [Commit(c, mine)];
      return Saved;
    }

    /** Anybody else's writes, each through the same gate: the revision grows with every one. */
    method OtherWriters(writes: seq<Config>) returns (ghost theirs: seq<Commit>)
      modifies this
      ensures log == old(log) + theirs && NoneMine(theirs) && stored == After(old(stored), theirs)
      ensures RevisionOf(stored) == RevisionOf(old(stored)) + |theirs|
      ensures stored == Written(old(stored), writes)
    {
      theirs := [];
      for i := 0 to |writes|
        invariant stored == Written(old(stored), writes[..i])
        invariant log == old(log) + theirs && NoneMine(theirs) && stored == After(old(stored), theirs)
        invariant RevisionOf(stored) == RevisionOf(old(stored)) + |theirs|
      {
        assert writes[..i + 1][..i] == writes[..i];
        var r := Save(writes[i], false, false);
        if r.Saved? {
          theirs := theirs + [Commit(writes[i], false)];
        }
      }
      assert writes[..|writes|] == writes;
    }
  }

  /** What happens around one attempt: whether the read fails, who writes between read and save,
      whether the save fails for another reason, and whether the text of a validation error happens
      to read like a stale-revision error. */
  datatype Attempt = Attempt(readFails: bool, others: seq<Config>, saveFails: bool, misread: bool)

  datatype Outcome<T> = Done(value: T) | Skipped | Error

  function OutcomeOf<T>(end: End, x: Option<T>): Outcome<T> {
    match end
    case Commits => if x.Some? then Done(x.value) else Error
    case Declines => Skipped
    case _ => Error
  }

  predicate EndsAs<T>(r: Outcome<T>, end: End) {
    match end
    case Breaks => r.Error?
    case Declines => r.Skipped?
    case Commits => r.Done?
    case Repeats => false
  }

  lemma AfterBoth(start: Option<Config>, a: seq<Commit>, b: seq<Commit>)
    ensures After(After(start, a), b) == After(start, a + b)
  {
    if b == [] { assert a + b == a; }
  }

  /** A mutation moves the revision on by at most one. */
  ghost predicate StepsRevision<T(!new)>(f: Config -> Option<(Config, T)>) {
    forall c :: f(c).Some? ==> f(c).value.0.revision <= c.revision + 1
  }

  /** Exactly one of the commits is the caller's, the last one, and it is `f` of the layout that
      was readable at the very moment before it; the rules hold of it, and the revision moved on by one. */
  ghost predicate CommittedOnce<T(!new)>(
    legacy: Config, start: Option<Config>, commits: seq<Commit>, f: Config -> Option<(Config, T)>, x: T)
    requires legacy.revision == 0
  {
    && |commits| > 0
    && var others, last := commits[..|commits| - 1], commits[|commits| - 1];
       && NoneMine(others) && last.mine && Valid(last.config)
       && last.config.revision == RevisionOf(After(start, others)) + 1
       && f(ReadOf(legacy, After(start, others))) == Some((last.config, x))
  }

  /** How one attempt ends: it cannot go on, there is nothing to do, it writes, or it has to start over. */
  datatype End = Breaks | Declines | Commits | Repeats

  /** That is decided by what was stored when the attempt began and by what happens around it. It starts
      over exactly when a valid proposal came too late, or an invalid one is mistaken for that. */
  function EndOf<T(!new)>(legacy: Config, stored: Option<Config>, f: Config -> Option<(Config, T)>, a: Attempt): End
    requires legacy.revision == 0
  {
    if a.readFails then Breaks
    else
      match f(ReadOf(legacy, stored))
      case None => Declines
      case Some((c, _)) =>
        var now := Written(stored, a.others);
        if Takes(now, c) && !a.saveFails then Commits
        else if !Valid(c) then if a.misread then Repeats else Breaks
        else if a.saveFails || RevisionOf(now) >= U64_MAX || c.revision == RevisionOf(now) + 1 then Breaks
        else Repeats
  }

  /** What is stored when the i-th attempt begins, if all before it started over. */
  function StoredAt(stored: Option<Config>, env: seq<Attempt>, i: nat): Option<Config>
    requires i <= |env|
  {
    if i == 0 then stored else Written(StoredAt(stored, env, i - 1), env[i - 1].others)
  }

  /** How the i-th attempt ends. */
  function EndAt<T(!new)>(
    legacy: Config, stored: Option<Config>, f: Config -> Option<(Config, T)>, env: seq<Attempt>, i: nat): End
    requires legacy.revision == 0 && i < |env|
  {
    EndOf(legacy, StoredAt(stored, env, i), f, env[i])
  }

  predicate AllRepeat<T(!new)>(
    legacy: Config, stored: Option<Config>, f: Config -> Option<(Config, T)>, env: seq<Attempt>, n: nat)
    requires legacy.revision == 0 && n <= |env|
  {
    forall i | 0 <= i < n :: EndAt(legacy, stored, f, env, i) == Repeats
  }

  lemma OneMoreRepeats<T(!new)>(
    legacy: Config, stored: Option<Config>, f: Config -> Option<(Config, T)>, env: seq<Attempt>, i: nat)
    requires legacy.revision == 0 && i < |env| && AllRepeat(legacy, stored, f, env, i)
    requires EndAt(legacy, stored, f, env, i) == Repeats
    ensures AllRepeat(legacy, stored, f, env, i + 1)
    ensures StoredAt(stored, env, i + 1) == Written(StoredAt(stored, env, i), env[i].others)
  {
  }

  lemma CommittedAfter<T(!new)>(
    legacy: Config, start: Option<Config>, commits: seq<Commit>, more: seq<Commit>, f: Config -> Option<(Config, T)>, x: T)
    requires legacy.revision == 0 && NoneMine(commits) && CommittedOnce(legacy, After(start, commits), more, f, x)
    ensures CommittedOnce(legacy, start, commits + more, f, x)
  {
    assert (commits + more)[..|commits + more| - 1] == commits + more[..|more| - 1];
    AfterBoth(start, commits, more[..|more| - 1]);
  }

  /** One attempt: read, apply `f`, let the others write, save. */
  method Try<T(!new)>(store: Store, f: Config -> Option<(Config, T)>, a: Attempt)
    returns (end: End, x: Option<T>, ghost commits: seq<Commit>)
    requires store.legacy.revision == 0 && StepsRevision(f)
    modifies store
    ensures end == EndOf(store.legacy, old(store.stored), f, a)
    ensures store.log == old(store.log) + commits && store.stored == After(old(store.stored), commits)
    ensures end.Commits? <==> x.Some?
    ensures end.Commits? ==> CommittedOnce(store.legacy, old(store.stored), commits, f, x.value)
    ensures !end.Commits? ==> NoneMine(commits)
    ensures end.Repeats? ==> store.stored == Written(old(store.stored), a.others)
    ensures end.Declines? ==> commits == [] && f(ReadOf(store.legacy, store.stored)).None?
  {
    commits := [];
    if a.readFails { return Breaks, None, commits; }
    var cur := ReadOf(store.legacy, store.stored);
    var next := f(cur);
    if next.None? { return Declines, None, commits; }
    var (c, value) := next.value;
    commits := store.OtherWriters(a.others);
    var s := store.Save(c, a.saveFails, true);
    if s.Saved? {
      assert commits == [];
      assert [Commit(c, true)][..0] == [];
      return Commits, Some(value), [Commit(c, true)];
    }
    if !(s.Stale? || (s.Invalid? && a.misread)) { return Breaks, None, commits; }
    return Repeats, None, commits;
  }

  /** Starts over while it has to. Whoever else writes in between, success means exactly one commit of
      `f` applied to what was there just before it, and anything else means no commit at all. It gives up
      only when all its attempts had to start over, and otherwise ends as the first attempt that need
      not: `made` is the number of those before it. */
  method PersistLayoutMutation<T(!new)>(store: Store, tries: nat, f: Config -> Option<(Config, T)>, env: seq<Attempt>)
    returns (r: Outcome<T>, ghost commits: seq<Commit>, ghost made: nat)
    requires store.legacy.revision == 0 && StepsRevision(f)
    requires |env| >= (if tries == 0 then 1 else tries)
    modifies store
    ensures store.log == old(store.log) + commits && store.stored == After(old(store.stored), commits)
    ensures r.Done? ==> CommittedOnce(store.legacy, old(store.stored), commits, f, r.value)
    ensures !r.Done? ==> NoneMine(commits)
    ensures r.Skipped? ==> f(ReadOf(store.legacy, store.stored)).None?
    ensures made <= (if tries == 0 then 1 else tries) && AllRepeat(store.legacy, old(store.stored), f, env, made)
    ensures made == (if tries == 0 then 1 else tries) ==> r.Error?
    ensures made < (if tries == 0 then 1 else tries) ==> EndsAs(r, EndAt(store.legacy, old(store.stored), f, env, made))
  {
    hide EndOf, CommittedOnce;
    commits, made := [], 0;
    var n := if tries == 0 then 1 else tries;
    for i := 0 to n
      invariant store.log == old(store.log) + commits && store.stored == After(old(store.stored), commits)
      invariant NoneMine(commits)
      invariant made == i && AllRepeat(store.legacy, old(store.stored), f, env, i)
      invariant store.stored == StoredAt(old(store.stored), env, i)
    {
      var end, x, more := Try(store, f, env[i]);
      AfterBoth(old(store.stored), commits, more);
      if end.Commits? { CommittedAfter(store.legacy, old(store.stored), commits, more, f, x.value); }
      assert end == EndAt(store.legacy, old(store.stored), f, env, i);
      if !end.Repeats? { return OutcomeOf(end, x), commits + more, made; }
      OneMoreRepeats(store.legacy, old(store.stored), f, env, i);
      commits, made := commits + more, made + 1;
    }
    return Error, commits, made;
  }

  // ── When the loop succeeds ──────────────────────────────────────────────────

  /** A proposal that is one revision on and passes the rules starts over exactly if somebody else wrote
      in between, and is written exactly if nobody did, as long as nothing else fails. */
  lemma ContentionDecides<T(!new)>(legacy: Config, stored: Option<Config>, f: Config -> Option<(Config, T)>, a: Attempt)
    requires legacy.revision == 0 && !a.readFails && !a.saveFails && RevisionOf(stored) + |a.others| < I64_MAX
    requires var next := f(ReadOf(legacy, stored));
             next.Some? && Valid(next.value.0) && next.value.0.revision == RevisionOf(stored) + 1
    ensures EndOf(legacy, stored, f, a) == if Written(stored, a.others) == stored then Commits else Repeats
  {
    WrittenGrows(stored, a.others);
  }

  // Each write that goes through moves the revision on by one.
  lemma {:induction false} WrittenGrows(stored: Option<Config>, writes: seq<Config>)
    ensures RevisionOf(stored) <= RevisionOf(Written(stored, writes)) <= RevisionOf(stored) + |writes|
    ensures RevisionOf(Written(stored, writes)) == RevisionOf(stored) <==> Written(stored, writes) == stored
    decreases |writes|
  {
    if writes == [] {
    } else {
      WrittenGrows(stored, writes[..|writes| - 1]);
    }
  }

  /** A detach that the layout allows goes through at the first attempt nobody disturbs, */
  lemma QuietDetachCommits(legacy: Config, stored: Option<Config>, id: string, a: Attempt)
    requires legacy.revision == 0 && !a.readFails && !a.saveFails && Written(stored, a.others) == stored
    requires var c := ReadOf(legacy, stored);
             && Valid(c) && c.revision == RevisionOf(stored) < I64_MAX
             && Has(MainWindow(c).layout, id) && !MainWindow(c).layout.Leaf? && RootClean(MainWindow(c).layout, id)
    ensures EndOf(legacy, stored, (c: Config) => Detach(c, id), a) == Commits
  {
    var c := ReadOf(legacy, stored);
    DetachDefined(c, id);
    DetachValidExactly(c, id);
    var _ := DetachShape(c, id);
  }

  /** and so does the closing of a window that the layout has. */
  lemma QuietReattachCommits(legacy: Config, stored: Option<Config>, key: string, a: Attempt)
    requires legacy.revision == 0 && !a.readFails && !a.saveFails && Written(stored, a.others) == stored
    requires var c := ReadOf(legacy, stored);
             && Homed(c) && c.revision == RevisionOf(stored) < I64_MAX && key in Keys(c.windows) - {MAIN_KEY}
    ensures EndOf(legacy, stored, (c: Config) => Some((Reattach(c, key), ())), a) == Commits
  {
    var c := ReadOf(legacy, stored);
    ReattachStaysHome(c, key);
    ReattachWritesExactly(c, key);
  }

  /** The mutations of the window commands qualify. */
  lemma WindowMutationsStep(id: string, key: string)
    ensures StepsRevision((c: Config) => Detach(c, id))
    ensures StepsRevision((c: Config) => Some((Reattach(c, key), ())))
  {
  }

  // ── Panels through the loop ─────────────────────────────────────────────────

  /** A layout that passes the rules, with the window of kind Main under its own key. */
  predicate Homed(c: Config) {
    Valid(c) && c.version <= CURRENT_VERSION && MainWindow(c).key == MAIN_KEY
  }

  lemma DetachStaysHome(c: Config, id: string)
    requires Homed(c) && Detach(c, id).Some? && Valid(Detach(c, id).value.0)
    ensures var next := Detach(c, id).value.0; Homed(next) && multiset(AllPanels(next)) == multiset(AllPanels(c))
  {
    DetachMoves(c, id);
    DetachConserves(c, id);
  }

  lemma ReattachStaysHome(c: Config, key: string)
    requires Homed(c)
    ensures var next := Reattach(c, key); Homed(next) && multiset(AllPanels(next)) == multiset(AllPanels(c))
  {
    var k := KeyIndex(c.windows, key);
    if key != MAIN_KEY && k < |c.windows| {
      assert c.windows[k].kind != Detached ==> k == MainIndex(c.windows);
      ReattachKeepsAll(c, key);
    }
  }

  /** A commit by one of the window commands on what could be read just before it. */
  ghost predicate ByWindowCommand(before: Config, after: Config) {
    && Valid(after)
    && ((exists id: string :: Detach(before, id).Some? && Detach(before, id).value.0 == after)
        || exists key: string :: Reattach(before, key) == after)
  }

  lemma CommandsConserve(before: Config, after: Config)
    requires Homed(before) && ByWindowCommand(before, after)
    ensures Homed(after) && multiset(AllPanels(after)) == multiset(AllPanels(before))
  {
    if id: string :| Detach(before, id).Some? && Detach(before, id).value.0 == after {
      DetachStaysHome(before, id);
    } else {
      var key: string :| Reattach(before, key) == after;
      ReattachStaysHome(before, key);
    }
  }

  /** A detach or a closing that went through the loop, whoever wrote in between, kept every panel of
      the layout it was committed on. */
  lemma DetachThroughTheLoop(legacy: Config, start: Option<Config>, commits: seq<Commit>, id: string, key: string)
    requires legacy.revision == 0 && CommittedOnce(legacy, start, commits, (c: Config) => Detach(c, id), key)
    requires Homed(ReadOf(legacy, After(start, commits[..|commits| - 1])))
    ensures var before, e := ReadOf(legacy, After(start, commits[..|commits| - 1])), commits[|commits| - 1];
            ByWindowCommand(before, e.config) && multiset(AllPanels(e.config)) == multiset(AllPanels(before))
  {
    var before := ReadOf(legacy, After(start, commits[..|commits| - 1]));
    assert Detach(before, id).value.0 == commits[|commits| - 1].config;
    DetachStaysHome(before, id);
  }

  lemma ReattachThroughTheLoop(legacy: Config, start: Option<Config>, commits: seq<Commit>, key: string)
    requires legacy.revision == 0
    requires CommittedOnce(legacy, start, commits, (c: Config) => Some((Reattach(c, key), ())), ())
    requires Homed(ReadOf(legacy, After(start, commits[..|commits| - 1])))
    ensures var before, e := ReadOf(legacy, After(start, commits[..|commits| - 1])), commits[|commits| - 1];
            ByWindowCommand(before, e.config) && multiset(AllPanels(e.config)) == multiset(AllPanels(before))
  {
    var before := ReadOf(legacy, After(start, commits[..|commits| - 1]));
    assert Reattach(before, key) == commits[|commits| - 1].config;
    ReattachStaysHome(before, key);
  }

  /** What is stored before the i-th commit, as a reader gets it. */
  function ReadBefore(legacy: Config, start: Option<Config>, commits: seq<Commit>, i: nat): Config
    requires legacy.revision == 0 && i <= |commits|
  {
    ReadOf(legacy, After(start, commits[..i]))
  }

  ghost predicate AllByWindowCommands(legacy: Config, start: Option<Config>, commits: seq<Commit>)
    requires legacy.revision == 0
  {
    forall i | 0 <= i < |commits| :: ByWindowCommand(ReadBefore(legacy, start, commits, i), commits[i].config)
  }

  /** Conservation lifts to concurrent runs: however many detaches and closings interleave, each
      through its own loop, no panel is lost or doubled. */
  lemma {:induction false} ConcurrentRunsConserve(legacy: Config, start: Option<Config>, commits: seq<Commit>, n: nat)
    requires legacy.revision == 0 && Homed(ReadOf(legacy, start)) && AllByWindowCommands(legacy, start, commits)
    requires n <= |commits|
    ensures Homed(ReadBefore(legacy, start, commits, n))
    ensures multiset(AllPanels(ReadBefore(legacy, start, commits, n))) == multiset(AllPanels(ReadOf(legacy, start)))
    decreases n
  {
    if n == 0 {
      assert commits[..0] == [];
    } else {
      ConcurrentRunsConserve(legacy, start, commits, n - 1);
      CommandsConserve(ReadBefore(legacy, start, commits, n - 1), commits[n - 1].config);
      assert commits[..n][n - 1] == commits[n - 1];
      assert ReadBefore(legacy, start, commits, n) == commits[n - 1].config;
    }
  }
}
