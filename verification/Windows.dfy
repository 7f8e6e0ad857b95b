/** The window transactions: detaching a panel into its own window, and closing such a window by
    command or by its title bar, as interleaved steps over the stored layout, the window registry,
    the settle marks and the webviews that are really open. */
module Windows {
  import opened Options
  import opened LayoutTree
  import opened Layout
  import opened LayoutLaws

  /** Who holds window_tx_lock; a window goes by its label, called name here. */
  datatype Tx = Free | Detaching(id: string, key: string) | Settling(name: string)

  /** A settled window on its way out: its webview is still to be closed, or its mark to be dropped. */
  datatype Closing = ToClose | ToEnd

  /** `torn` is history: windows whose webview was closed while the layout had them, or was about
      to get them. */
  datatype State = State(
    layout: Config,
    registered: set<string>,
    settling: set<string>,
    webviews: set<string>,
    tx: Tx,
    closing: map<string, Closing>,
    torn: set<string>)

  datatype Action =
    | DetachBuild(id: string, built: bool)
    | DetachPersist(saved: bool)
    | SettleBegin(name: string)
    | SettlePersist(saved: bool)
    | CloseWebview(name: string)
    | EndSettle(name: string)
    | CloseRequest(name: string)          // the title bar's close button
    | OtherWrite(layout: Config)           // anybody else's layout edit

  /** The keys of the detached windows. */
  function DetachedKeys(c: Config): set<string> {
    Keys(c.windows) - {MAIN_KEY}
  }

  predicate Enabled(s: State, a: Action) {
    match a
    case DetachBuild(_, _) => s.tx.Free?
    case DetachPersist(_) => s.tx.Detaching?
    case SettleBegin(_) => s.tx.Free?
    case SettlePersist(_) => s.tx.Settling?
    case CloseWebview(name) => name in s.closing && s.closing[name].ToClose?
    case EndSettle(name) => name in s.closing && s.closing[name].ToEnd?
    case CloseRequest(name) => name in s.webviews
    case OtherWrite(c) => IsEdit(s, c) && Keys(c.windows) == Keys(s.layout.windows)
  }

  /** An outside edit the store accepts. The runs below assume of those that come in between that they
      keep the set of window keys. */
  predicate IsEdit(s: State, c: Config) {
    Valid(c) && MainWindow(c).key == MAIN_KEY && Saves(s.layout, c)
  }

  /** What the store accepts on top of `c`. */
  predicate Saves(c: Config, next: Config) {
    Valid(next) && next.revision == c.revision + 1
  }

  predicate Wanted(s: State, name: string) {
    name in DetachedKeys(s.layout) || (s.tx.Detaching? && s.tx.key == name)
  }

  function LoseWebview(s: State, name: string): State {
    s.(webviews := s.webviews - {name}, torn := if Wanted(s, name) then s.torn + {name} else s.torn)
  }

  function Apply(s: State, a: Action): State
    requires Enabled(s, a)
  {
    match a
    case DetachBuild(id, built) =>
      var d := Detach(s.layout, id);
      if d.None? || !built || d.value.1 in s.webviews then s
      else s.(webviews := s.webviews + {d.value.1}, torn := s.torn - {d.value.1}, tx := Detaching(id, d.value.1))
    case DetachPersist(saved) =>
      var d := Detach(s.layout, s.tx.id);
      if d.Some? && saved && Saves(s.layout, d.value.0)
      then s.(layout := d.value.0, registered := s.registered + {d.value.1}, tx := Free)
      else s.(webviews := s.webviews - {s.tx.key}, tx := Free)
    case SettleBegin(name) =>
      if name in s.settling || name !in s.registered then s
      else s.(settling := s.settling + {name}, tx := Settling(name))
    case SettlePersist(saved) =>
      var name := s.tx.name;
      var next := Reattach(s.layout, name);
      if saved && Saves(s.layout, next)
      then s.(layout := next, registered := s.registered - {name}, closing := s.closing[name := ToClose], tx := Free)
      else s.(settling := s.settling - {name}, tx := Free)
    case CloseWebview(name) => LoseWebview(s, name).(closing := s.closing[name := ToEnd])
    case EndSettle(name) => s.(settling := s.settling - {name}, closing := s.closing - {name})
    case CloseRequest(name) =>
      if name in s.registered && name !in s.settling then s else LoseWebview(s, name)
    case OtherWrite(c) => s.(layout := c)
  }

  // ── The invariant of every run ──────────────────────────────────────────────

  predicate LayoutInv(s: State) {
    Valid(s.layout) && MainWindow(s.layout).key == MAIN_KEY && s.registered == DetachedKeys(s.layout)
  }

  predicate MarksInv(s: State) {
    && s.settling == s.closing.Keys + (if s.tx.Settling? then {s.tx.name} else {})
    && (s.tx.Settling? ==> s.tx.name !in s.closing && s.tx.name in s.registered)
  }

  ghost predicate WebviewsInv(s: State) {
    && (s.tx.Detaching? ==> s.tx.key == NextDetachedKey(s.layout.windows))
    && (forall k | Wanted(s, k) :: k in s.webviews <==> k !in s.torn)
    && (forall k | k in s.webviews :: Wanted(s, k) || (k in s.closing && s.closing[k].ToClose?))
  }

  ghost predicate Inv(s: State) {
    LayoutInv(s) && MarksInv(s) && WebviewsInv(s)
  }

  lemma MainIsNotDetached(c: Config)
    requires Valid(c) && MainWindow(c).key == MAIN_KEY
    ensures Keys(c.windows) == DetachedKeys(c) + {MAIN_KEY}
    ensures forall k | k in DetachedKeys(c) ::
              KeyIndex(c.windows, k) < |c.windows| && c.windows[KeyIndex(c.windows, k)].kind == Detached
  {
    assert MainWindow(c) in c.windows;
    forall k | k in DetachedKeys(c)
      ensures KeyIndex(c.windows, k) < |c.windows| && c.windows[KeyIndex(c.windows, k)].kind == Detached
    {
      var j :| 0 <= j < |c.windows| && c.windows[j].key == k;
      assert KeyIndex(c.windows, k) <= j;
    }
  }

  lemma DetachKeysGrow(c: Config, id: string)
    requires Valid(c) && MainWindow(c).key == MAIN_KEY && Detach(c, id).Some?
    ensures var (next, key) := Detach(c, id).value;
            && key == NextDetachedKey(c.windows) && key !in DetachedKeys(c)
            && OneMain(next.windows) && MainWindow(next).key == MAIN_KEY
            && DetachedKeys(next) == DetachedKeys(c) + {key}
  {
    var _ := DetachShape(c, id);
    DetachMoves(c, id);
    DetachKeys(c, id);
    DetachedKeyNotBlank(c.windows);
  }

  lemma ReattachKeysShrink(c: Config, key: string)
    requires Valid(c) && MainWindow(c).key == MAIN_KEY && key in DetachedKeys(c)
    ensures var next := Reattach(c, key);
            Valid(next) && MainWindow(next).key == MAIN_KEY && DetachedKeys(next) == DetachedKeys(c) - {key}
  {
    MainIsNotDetached(c);
    ReattachKeepsAll(c, key);
  }

  lemma InvDetach(s: State, a: Action)
    requires Inv(s) && Enabled(s, a) && (a.DetachBuild? || a.DetachPersist?)
    ensures Inv(Apply(s, a))
  {
    var id := if a.DetachBuild? then a.id else s.tx.id;
    if Detach(s.layout, id).Some? {
      DetachKeysGrow(s.layout, id);
    }
  }

  lemma InvSettle(s: State, a: Action)
    requires Inv(s) && Enabled(s, a) && (a.SettleBegin? || a.SettlePersist?)
    ensures Inv(Apply(s, a))
  {
    if a.SettlePersist? {
      ReattachKeysShrink(s.layout, s.tx.name);
    }
  }

  lemma InvClose(s: State, a: Action)
    requires Inv(s) && Enabled(s, a) && (a.CloseWebview? || a.EndSettle? || a.CloseRequest?)
    ensures Inv(Apply(s, a))
  {
  }

  lemma InvOther(s: State, a: Action)
    requires Inv(s) && Enabled(s, a) && a.OtherWrite?
    ensures Inv(Apply(s, a))
  {
  }

  /** That assumption is what it takes: registry and webviews follow the layout through an outside edit
      exactly if it keeps the keys, for nobody tells them about it. */
  lemma EditKeepsExactly(s: State, c: Config)
    requires Inv(s) && IsEdit(s, c)
    ensures Inv(s.(layout := c)) <==> Keys(c.windows) == Keys(s.layout.windows)
  {
    MainIsNotDetached(s.layout);
    MainIsNotDetached(c);
  }

  /** There is one that does not, whenever there is a detached window: a save without it. */
  lemma EditCanDrop(s: State, key: string) returns (c: Config)
    requires Inv(s) && key in DetachedKeys(s.layout) && s.layout.revision < U64_MAX
    ensures IsEdit(s, c) && key in s.registered && key !in DetachedKeys(c) && !Inv(s.(layout := c))
  {
    c := Reattach(s.layout, key);
    ReattachKeysShrink(s.layout, key);
    MainIsNotDetached(s.layout);
    ReattachKeepsAll(s.layout, key);
    EditKeepsExactly(s, c);
  }

  /** Every step keeps it, whatever fails. */
  lemma InvStep(s: State, a: Action)
    requires Inv(s) && Enabled(s, a)
    ensures Inv(Apply(s, a))
  {
    if a.DetachBuild? || a.DetachPersist? {
      InvDetach(s, a);
    } else if a.SettleBegin? || a.SettlePersist? {
      InvSettle(s, a);
    } else if a.OtherWrite? {
      InvOther(s, a);
    } else {
      InvClose(s, a);
    }
  }

  // ── Runs ────────────────────────────────────────────────────────────────────

  predicate Legal(s: State, run: seq<Action>)
    decreases |run|
  {
    run != [] ==> Enabled(s, run[0]) && Legal(Apply(s, run[0]), run[1..])
  }

  function Exec(s: State, run: seq<Action>): State
    requires Legal(s, run)
    decreases |run|
  {
    if run == [] then s else Exec(Apply(s, run[0]), run[1..])
  }

  /** At boot: one window, nothing in motion. */
  predicate Initial(s: State) {
    && Valid(s.layout) && |s.layout.windows| == 1 && s.layout.windows[0].key == MAIN_KEY
    && s.registered == {} && s.settling == {} && s.webviews == {} && s.tx.Free? && s.closing == map[] && s.torn == {}
  }

  lemma InvInitial(s: State)
    requires Initial(s)
    ensures Inv(s) && Tidy(s)
  {
  }

  lemma {:induction false} InvRun(s: State, run: seq<Action>)
    requires Inv(s) && Legal(s, run)
    ensures Inv(Exec(s, run))
    decreases |run|
  {
    if run == [] {
    } else {
      InvStep(s, run[0]);
      InvRun(Apply(s, run[0]), run[1..]);
    }
  }

  /** In every run, whatever fails and whoever interleaves, with outside edits that keep the window
      keys: the layout is valid, so every panel is in one window; the registry is exactly the layout's detached windows; and one of those has no
      webview exactly when its webview was torn away. */
  lemma EveryRun(s: State, run: seq<Action>)
    requires Initial(s) && Legal(s, run)
    ensures var e := Exec(s, run);
            && Valid(e.layout) && e.registered == DetachedKeys(e.layout)
            && (forall k | k in DetachedKeys(e.layout) :: k !in e.webviews <==> k in e.torn)
            && (e.tx.Detaching? ==> e.tx.key !in DetachedKeys(e.layout))
  {
    InvInitial(s);
    InvRun(s, run);
    var e := Exec(s, run);
    assert forall k | k in DetachedKeys(e.layout) :: Wanted(e, k);
    if e.tx.Detaching? {
      MainIsNotDetached(e.layout);
      assert NextDetachedKey(e.layout.windows) !in Keys(e.layout.windows);
    }
  }

  /** The key a detach computes before it builds the window is the key it stores. */
  lemma PersistedKeyIsWindowKey(s: State)
    requires Inv(s) && s.tx.Detaching? && Detach(s.layout, s.tx.id).Some?
    ensures Detach(s.layout, s.tx.id).value.1 == s.tx.key
  {
    DetachKeysGrow(s.layout, s.tx.id);
  }

  /** No step but an outside edit changes which panels there are. */
  lemma PanelsConserved(s: State, a: Action)
    requires Inv(s) && Enabled(s, a) && !a.OtherWrite?
    ensures multiset(AllPanels(Apply(s, a).layout)) == multiset(AllPanels(s.layout))
  {
    if a.DetachPersist? && Detach(s.layout, s.tx.id).Some? {
      DetachConserves(s.layout, s.tx.id);
    } else if a.SettlePersist? {
      MainIsNotDetached(s.layout);
      ReattachConserves(s.layout, s.tx.name);
    }
  }

  /** The layout as the last outside edit of a run left it. */
  function LastEdit(c: Config, run: seq<Action>): Config
    decreases |run|
  {
    if run == [] then c
    else if run[|run| - 1].OtherWrite? then run[|run| - 1].layout
    else LastEdit(c, run[..|run| - 1])
  }

  lemma {:induction false} LastEditBehind(c: Config, a: Action, rest: seq<Action>)
    ensures LastEdit(c, [a] + rest) == LastEdit(if a.OtherWrite? then a.layout else c, rest)
    decreases |rest|
  {
    if rest == [] {
      assert ([a] + rest)[..0] == [];
    } else {
      assert ([a] + rest)[..|rest|] == [a] + rest[..|rest| - 1];
      LastEditBehind(c, a, rest[..|rest| - 1]);
    }
  }

  /** Over every run the panels are those of the last outside edit: no detach and no closing, failed or
      not, interleaved or not, loses or doubles one. */
  lemma {:induction false} RunsConservePanels(s: State, run: seq<Action>)
    requires Inv(s) && Legal(s, run)
    ensures multiset(AllPanels(Exec(s, run).layout)) == multiset(AllPanels(LastEdit(s.layout, run)))
    decreases |run|
  {
    if run == [] {
    } else {
      var s' := Apply(s, run[0]);
      InvStep(s, run[0]);
      RunsConservePanels(s', run[1..]);
      assert run == [run[0]] + run[1..];
      LastEditBehind(s.layout, run[0], run[1..]);
      LastEditPanels(s'.layout, if run[0].OtherWrite? then run[0].layout else s.layout, run[1..]);
      if !run[0].OtherWrite? { PanelsConserved(s, run[0]); }
    }
  }

  lemma {:induction false} LastEditPanels(c: Config, d: Config, run: seq<Action>)
    ensures LastEdit(c, run) == LastEdit(d, run) || (LastEdit(c, run) == c && LastEdit(d, run) == d)
    decreases |run|
  {
    if run == [] {
    } else {
      LastEditPanels(c, d, run[..|run| - 1]);
    }
  }

  // ── What a transaction does when nothing fails ──────────────────────────────

  /** A detach that the layout allows, whose window can be built and whose write goes through: one new
      window, in all three views. */
  lemma DetachGoesThrough(s: State, id: string)
    requires Inv(s) && s.tx.Free? && s.layout.revision < U64_MAX
    requires Has(MainWindow(s.layout).layout, id) && !MainWindow(s.layout).layout.Leaf?
    requires RootClean(MainWindow(s.layout).layout, id) && NextDetachedKey(s.layout.windows) !in s.webviews
    ensures var run, key := [DetachBuild(id, true), DetachPersist(true)], NextDetachedKey(s.layout.windows);
            && Legal(s, run) && Detach(s.layout, id).Some?
            && var e := Exec(s, run);
               && e.layout == Detach(s.layout, id).value.0
               && e.registered == s.registered + {key} && e.webviews == s.webviews + {key}
               && e.settling == s.settling && e.closing == s.closing && e.tx.Free?
  {
    var a, b := DetachBuild(id, true), DetachPersist(true);
    DetachDefined(s.layout, id);
    DetachValidExactly(s.layout, id);
    DetachKeysGrow(s.layout, id);
    DetachMoves(s.layout, id);
    TwoSteps(s, a, b);
  }

  lemma TwoSteps(s: State, a: Action, b: Action)
    requires Enabled(s, a) && Enabled(Apply(s, a), b)
    ensures Legal(s, [a, b]) && Exec(s, [a, b]) == Apply(Apply(s, a), b)
  {
    assert [a, b][1..] == [b] && [b][1..] == [];
    assert Legal(Apply(s, a), [b]) && Exec(Apply(s, a), [b]) == Apply(Apply(s, a), b);
  }

  /** The closing of a registered window that nobody settles is written exactly if the revision can still
      move on, and otherwise leaves everything as it was. */
  lemma SettleIsWritten(s: State, name: string)
    requires Inv(s) && s.tx.Free? && name in s.registered && name !in s.settling
    ensures Enabled(s, SettleBegin(name)) && Enabled(Apply(s, SettleBegin(name)), SettlePersist(true))
    ensures Apply(Apply(s, SettleBegin(name)), SettlePersist(true))
         == if s.layout.revision >= 0xFFFF_FFFF_FFFF_FFFF then s
            else s.(layout := Reattach(s.layout, name), registered := s.registered - {name},
                    settling := s.settling + {name}, closing := s.closing[name := ToClose])
  {
    ReattachKeysShrink(s.layout, name);
    MainIsNotDetached(s.layout);
    ReattachKeepsAll(s.layout, name);
    assert s.settling + {name} - {name} == s.settling;
  }

  /** Once it is written the window goes, and with it the mark: it is out of all three views. */
  lemma SettleGoesThrough(s: State, name: string)
    requires name !in s.settling && name !in s.closing
    ensures var p := s.(settling := s.settling + {name}, closing := s.closing[name := ToClose]);
            && Enabled(p, CloseWebview(name)) && Enabled(Apply(p, CloseWebview(name)), EndSettle(name))
            && Apply(Apply(p, CloseWebview(name)), EndSettle(name))
               == s.(webviews := s.webviews - {name}, torn := if Wanted(s, name) then s.torn + {name} else s.torn)
  {
    var p := s.(settling := s.settling + {name}, closing := s.closing[name := ToClose]);
    var e := Apply(Apply(p, CloseWebview(name)), EndSettle(name));
    assert e.settling == s.settling && e.closing == s.closing;
  }

  // ── Failures leave no trace, whatever runs in between ───────────────────────

  /** Steps that do not need the transaction lock. */
  predicate Lockless(a: Action) {
    a.CloseWebview? || a.EndSettle? || a.CloseRequest? || a.OtherWrite?
  }

  // Two states that differ in nothing but a window under construction, and in what was ever torn.
  ghost predicate SameBut(s: State, t: State, name: string) {
    && s.layout == t.layout && s.registered == t.registered && s.settling == t.settling && s.closing == t.closing
    && forall k | k != name :: k in s.webviews <==> k in t.webviews
  }

  lemma SameStep(s: State, t: State, a: Action, name: string)
    requires SameBut(s, t, name) && Lockless(a) && a != CloseRequest(name) && Enabled(s, a)
    ensures Enabled(t, a) && SameBut(Apply(s, a), Apply(t, a), name)
    ensures Apply(s, a).tx == s.tx && Apply(t, a).tx == t.tx
    ensures name !in t.webviews ==> name !in Apply(t, a).webviews
  {
  }

  lemma {:induction false} SameRun(s: State, t: State, run: seq<Action>, name: string)
    requires SameBut(s, t, name) && Legal(s, run)
    requires forall a | a in run :: Lockless(a) && a != CloseRequest(name)
    ensures Legal(t, run) && SameBut(Exec(s, run), Exec(t, run), name)
    ensures Exec(s, run).tx == s.tx && Exec(t, run).tx == t.tx
    ensures name !in t.webviews ==> name !in Exec(t, run).webviews
    decreases |run|
  {
    if run == [] {
    } else {
      assert run[0] in run && forall a | a in run[1..] :: a in run;
      SameStep(s, t, run[0], name);
      SameRun(Apply(s, run[0]), Apply(t, run[0]), run[1..], name);
    }
  }

  /** A detach that cannot be stored leaves layout, registry, webviews and marks as if it had never
      begun, whatever other windows and writers do between its two steps. */
  lemma FailedDetachLeavesNothing(s: State, id: string, between: seq<Action>)
    requires s.tx.Free? && Apply(s, DetachBuild(id, true)).tx.Detaching?
    requires Legal(Apply(s, DetachBuild(id, true)), between)
    requires forall a | a in between :: Lockless(a) && a != CloseRequest(Apply(s, DetachBuild(id, true)).tx.key)
    ensures var m := Exec(Apply(s, DetachBuild(id, true)), between);
            && Enabled(m, DetachPersist(false)) && Legal(s, between)
            && var e, never := Apply(m, DetachPersist(false)), Exec(s, between);
               && e.layout == never.layout && e.registered == never.registered && e.webviews == never.webviews
               && e.settling == never.settling && e.closing == never.closing && e.tx.Free?
  {
    var built := Apply(s, DetachBuild(id, true));
    SameRun(built, s, between, built.tx.key);
    var m, never := Exec(built, between), Exec(s, between);
    assert m.webviews - {built.tx.key} == never.webviews;
  }

  // Two states that differ in the mark of the window that settles, and in the lock.
  predicate SameButMark(s: State, t: State, name: string) {
    s == t.(settling := t.settling + {name}, tx := Settling(name)) && t.tx.Free? && name !in t.settling && name !in t.closing
  }

  lemma MarkStep(s: State, t: State, a: Action, name: string)
    requires SameButMark(s, t, name) && Lockless(a) && a != CloseRequest(name) && Enabled(s, a)
    ensures Enabled(t, a) && SameButMark(Apply(s, a), Apply(t, a), name)
  {
  }

  lemma {:induction false} MarkRun(s: State, t: State, run: seq<Action>, name: string)
    requires SameButMark(s, t, name) && Legal(s, run)
    requires forall a | a in run :: Lockless(a) && a != CloseRequest(name)
    ensures Legal(t, run) && SameButMark(Exec(s, run), Exec(t, run), name)
    decreases |run|
  {
    if run == [] {
    } else {
      assert run[0] in run && forall a | a in run[1..] :: a in run;
      MarkStep(s, t, run[0], name);
      MarkRun(Apply(s, run[0]), Apply(t, run[0]), run[1..], name);
    }
  }

  /** A settle that cannot be stored, likewise: not even its mark is left. */
  lemma FailedSettleLeavesNothing(s: State, name: string, between: seq<Action>)
    requires Inv(s) && s.tx.Free? && Apply(s, SettleBegin(name)).tx.Settling?
    requires Legal(Apply(s, SettleBegin(name)), between)
    requires forall a | a in between :: Lockless(a) && a != CloseRequest(name)
    ensures var m := Exec(Apply(s, SettleBegin(name)), between);
            Enabled(m, SettlePersist(false)) && Legal(s, between) && Apply(m, SettlePersist(false)) == Exec(s, between)
  {
    MarkRun(Apply(s, SettleBegin(name)), s, between, name);
    var m, never := Exec(Apply(s, SettleBegin(name)), between), Exec(s, between);
    assert m.settling - {name} == never.settling;
  }

  // ── Runs in which no close request lands on a window in transit ─────────────

  predicate Polite(s: State, a: Action) {
    a.CloseRequest? ==> a.name !in s.settling && !(s.tx.Detaching? && s.tx.key == a.name)
  }

  predicate AllPolite(s: State, run: seq<Action>)
    requires Legal(s, run)
    decreases |run|
  {
    run != [] ==> Polite(s, run[0]) && AllPolite(Apply(s, run[0]), run[1..])
  }

  ghost predicate Tidy(s: State) {
    s.torn == {} && forall k | k in s.closing && s.closing[k].ToClose? :: k in s.webviews && !Wanted(s, k)
  }

  lemma TidyStep(s: State, a: Action)
    requires Inv(s) && Tidy(s) && Enabled(s, a) && Polite(s, a)
    ensures Tidy(Apply(s, a))
  {
    if (a.DetachBuild? && Detach(s.layout, a.id).Some?) || (a.DetachPersist? && Detach(s.layout, s.tx.id).Some?) {
      DetachKeysGrow(s.layout, if a.DetachBuild? then a.id else s.tx.id);
    } else if a.SettlePersist? {
      ReattachKeysShrink(s.layout, s.tx.name);
    }
  }

  lemma {:induction false} TidyRun(s: State, run: seq<Action>)
    requires Inv(s) && Tidy(s) && Legal(s, run) && AllPolite(s, run)
    ensures Tidy(Exec(s, run))
    decreases |run|
  {
    if run == [] {
    } else {
      InvStep(s, run[0]);
      TidyStep(s, run[0]);
      TidyRun(Apply(s, run[0]), run[1..]);
    }
  }

  /** Between commands of a polite run the three views of the windows coincide, and no settle mark
      is held. */
  lemma EveryPoliteRun(s: State, run: seq<Action>)
    requires Initial(s) && Legal(s, run) && AllPolite(s, run)
    ensures var e := Exec(s, run);
            && (forall k | k in DetachedKeys(e.layout) :: k in e.webviews)
            && (e.tx.Free? && e.closing == map[] ==>
                  e.webviews == DetachedKeys(e.layout) && e.registered == DetachedKeys(e.layout) && e.settling == {})
  {
    InvInitial(s);
    InvRun(s, run);
    TidyRun(s, run);
    var e := Exec(s, run);
    assert forall k | k in DetachedKeys(e.layout) :: Wanted(e, k);
  }

  /** Which steps tear: a close request that nobody intercepts, or the closing of a webview whose
      label has been taken again, and only if the layout has or is about to get that window. */
  lemma TearsExactly(s: State, a: Action, name: string)
    requires Inv(s) && Enabled(s, a) && name !in s.torn
    ensures name in Apply(s, a).torn
            <==> Wanted(s, name)
                 && (a == CloseWebview(name)
                     || (a == CloseRequest(name) && (name in s.settling || name !in s.registered)))
  {
  }

  /** A close request in the middle of a settle whose write then fails: from every state at rest
      with a detached window, that leaves a window of the layout that nobody can see. */
  lemma CloseDuringSettleTears(s: State, name: string)
    requires Inv(s) && s.tx.Free? && name in DetachedKeys(s.layout) && name !in s.settling && name in s.webviews
    ensures var run := [SettleBegin(name), CloseRequest(name), SettlePersist(false)];
            && Legal(s, run)
            && var e := Exec(s, run); name in DetachedKeys(e.layout) && name in e.registered && name !in e.webviews
  {
    var run := [SettleBegin(name), CloseRequest(name), SettlePersist(false)];
    var s1 := Apply(s, run[0]);
    var s2 := Apply(s1, run[1]);
    assert run[1..] == [CloseRequest(name), SettlePersist(false)] && run[1..][1..] == [SettlePersist(false)];
    assert Legal(s2, [SettlePersist(false)]) && Legal(s1, run[1..]);
    assert Exec(s2, [SettlePersist(false)]) == Apply(s2, SettlePersist(false));
  }
}
