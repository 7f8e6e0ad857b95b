/** A workspace's layout: one panel tree per window, the rules `save` enforces, and the two
    transformations behind detaching a panel into its own window and closing such a window. */
module Layout {
  import opened Options
  import opened LayoutTree
  import Decimal

  datatype Kind = Main | Detached

  datatype Hint = Hint(monitorId: Option<string>, x: Option<int>, y: Option<int>, width: Option<nat>, height: Option<nat>)

  datatype Window = Window(key: string, kind: Kind, hint: Option<Hint>, layout: Node)

  datatype Config = Config(version: nat, workspace: string, windows: seq<Window>, revision: nat)

  const CURRENT_VERSION := 1
  const MAIN_KEY := "main"
  const U64_MAX := 0xFFFF_FFFF_FFFF_FFFF

  function Empty(workspace: string): Config {
    Config(CURRENT_VERSION, workspace, [Window(MAIN_KEY, Main, None, Split(Horizontal, []))], 0)
  }

  function Trees(ws: seq<Window>): (ts: seq<Node>)
    ensures |ts| == |ws| && forall i | 0 <= i < |ws| :: ts[i] == ws[i].layout
  {
    seq(|ws|, i requires 0 <= i < |ws| => ws[i].layout)
  }

  function AllPanels(c: Config): seq<Panel> {
    LeavesOf(Trees(c.windows))
  }

  function Keys(ws: seq<Window>): set<string> {
    set w | w in ws :: w.key
  }

  predicate DistinctKeys(ws: seq<Window>) {
    forall i, j | 0 <= i < j < |ws| :: ws[i].key != ws[j].key
  }

  /** Index of the first window of kind Main; |ws| if there is none. */
  function MainIndex(ws: seq<Window>): (m: nat)
    ensures m <= |ws| && (m < |ws| ==> ws[m].kind == Main)
    ensures forall j | 0 <= j < m :: ws[j].kind != Main
  {
    if ws == [] || ws[0].kind == Main then 0 else 1 + MainIndex(ws[1..])
  }

  function KeyIndex(ws: seq<Window>, key: string): (k: nat)
    ensures k <= |ws| && (k < |ws| ==> ws[k].key == key)
    ensures forall j | 0 <= j < k :: ws[j].key != key
  {
    if ws == [] || ws[0].key == key then 0 else 1 + KeyIndex(ws[1..], key)
  }

  predicate OneMain(ws: seq<Window>) {
    MainIndex(ws) < |ws| && forall j | MainIndex(ws) < j < |ws| :: ws[j].kind != Main
  }

  predicate WindowRules(w: Window) {
    !Blank(w.key) && ValidRoot(w.layout) && (w.kind == Detached ==> Leaves(w.layout) != [])
  }

  /** The rules every write is checked against. */
  predicate Valid(c: Config) {
    && (forall w | w in c.windows :: WindowRules(w))
    && DistinctKeys(c.windows) && OneMain(c.windows) && DistinctIds(AllPanels(c))
  }

  /** The seven rules one by one: no panel id and no window key twice, no blank ones, exactly one window of
      kind Main, no empty tab group, no active tab that is not there, no split of fewer than two but at the
      root of a window, and no detached window without a panel. */
  lemma ValidExactly(c: Config)
    ensures Valid(c)
       <==> && (forall i, j | 0 <= i < j < |AllPanels(c)| :: AllPanels(c)[i].id != AllPanels(c)[j].id)
            && (forall i, j | 0 <= i < j < |c.windows| :: c.windows[i].key != c.windows[j].key)
            && (forall w | w in c.windows :: exists x | x in w.key :: !IsSpace(x))
            && (exists i | 0 <= i < |c.windows| :: IsOnlyMain(c.windows, i))
            && (forall w, m | w in c.windows && m in NodesUnderRules(w.layout) :: Sound(m))
            && (forall w | w in c.windows && w.kind == Detached :: Leaves(w.layout) != [])
  {
    forall w | w in c.windows
      ensures ValidRoot(w.layout) <==> forall m | m in NodesUnderRules(w.layout) :: Sound(m)
    {
      ValidRootExactly(w.layout);
    }
    if OneMain(c.windows) { assert IsOnlyMain(c.windows, MainIndex(c.windows)); }
    if i :| 0 <= i < |c.windows| && IsOnlyMain(c.windows, i) { assert MainIndex(c.windows) == i; }
  }

  predicate IsOnlyMain(ws: seq<Window>, i: nat) {
    i < |ws| && ws[i].kind == Main && forall j | 0 <= j < |ws| && j != i :: ws[j].kind == Detached
  }

  /** The root of a window may be a split of no child or one. */
  function NodesUnderRules(root: Node): seq<Node> {
    if root.Split? then NodesOf(root.children) else Nodes(root)
  }

  lemma EmptyIsValid(workspace: string)
    ensures Valid(Empty(workspace)) && AllPanels(Empty(workspace)) == []
    ensures Empty(workspace) == Config(1, workspace, [Window("main", Main, None, Split(Horizontal, []))], 0)
  {
    var ts := Trees(Empty(workspace).windows);
    assert ts[1..] == [] && LeavesOf(ts) == Leaves(ts[0]) + LeavesOf([]);
    assert 'm' in MAIN_KEY;
  }

  /** Revisions are u64 and saturate. */
  function Bump(revision: nat): nat {
    if revision >= U64_MAX then U64_MAX else revision + 1
  }

  // ── Keys for detached windows ───────────────────────────────────────────────

  function DetachedKey(n: nat): string {
    "detached-" + Decimal.Print(n)
  }

  predicate TakenBelow(used: set<string>, n: nat) {
    forall m | 1 <= m < n :: DetachedKey(m) in used
  }

  lemma DetachedKeyInjective(m: nat, n: nat)
    requires DetachedKey(m) == DetachedKey(n)
    ensures m == n
  {
    assert DetachedKey(m)[9..] == Decimal.Print(m) && DetachedKey(n)[9..] == Decimal.Print(n);
    Decimal.PrintInjective(m, n);
  }

  // n - 1 distinct keys fit into `used` only if it is that large.
  lemma {:induction false} Pigeonhole(used: set<string>, n: nat)
    requires n >= 1 && TakenBelow(used, n)
    ensures n - 1 <= |used|
  {
    if n <= 1 {
    } else {
      var last := DetachedKey(n - 1);
      forall m | 1 <= m < n - 1 ensures DetachedKey(m) in used - {last} {
        if DetachedKey(m) == last { DetachedKeyInjective(m, n - 1); }
      }
      Pigeonhole(used - {last}, n - 1);
    }
  }

  /** The first free number from `n` on. */
  function FirstFree(used: set<string>, n: nat): (r: nat)
    requires n >= 1 && TakenBelow(used, n)
    ensures r >= n && DetachedKey(r) !in used && TakenBelow(used, r)
    decreases |used| + 1 - n
  {
    Pigeonhole(used, n);
    if DetachedKey(n) !in used then n
    else
      assert TakenBelow(used, n + 1);
      Pigeonhole(used, n + 1);
      FirstFree(used, n + 1)
  }

  function NextDetachedKey(ws: seq<Window>): string {
    DetachedKey(FirstFree(Keys(ws), 1))
  }

  /** The search loop itself: it ends, and it ends at the smallest free number. */
  method FindDetachedKey(ws: seq<Window>) returns (key: string)
    ensures key == NextDetachedKey(ws)
    ensures key !in Keys(ws)
    ensures exists n | n >= 1 :: key == DetachedKey(n) && TakenBelow(Keys(ws), n)
  {
    var used := Keys(ws);
    var n := 1;
    while DetachedKey(n) in used
      invariant n >= 1 && TakenBelow(used, n)
      invariant FirstFree(used, n) == FirstFree(used, 1)
      decreases |used| + 1 - n
    {
      Pigeonhole(used, n + 1);
      n := n + 1;
    }
    key := DetachedKey(n);
  }

  // ── Detach and reattach ─────────────────────────────────────────────────────

  /** Moves the panel out of Main's tree into a window of its own. */
  function Detach(c: Config, id: string): Option<(Config, string)> {
    var m := MainIndex(c.windows);
    if m == |c.windows| then None
    else
      var main := c.windows[m];
      var panel := FindPanel(main.layout, id);
      var (rest, removed) := RemoveLeaf(main.layout, id);
      if panel.None? || !removed then None
      else
        var ws := c.windows[m := main.(layout := rest)];
        var key := NextDetachedKey(ws);
        Some((c.(windows := ws + [Window(key, Detached, None, Leaf(panel.value))], revision := Bump(c.revision)), key))
  }

  function LeafNodes(ps: seq<Panel>): (ns: seq<Node>)
    ensures |ns| == |ps| && forall i | 0 <= i < |ps| :: ns[i] == Leaf(ps[i])
  {
    seq(|ps|, i requires 0 <= i < |ps| => Leaf(ps[i]))
  }

  /** Appends leaves to the root of a tree, wrapping it in a split when it is not one. */
  function AppendLeaves(root: Node, ps: seq<Panel>): Node {
    if root.Split? then Split(root.direction, root.children + LeafNodes(ps))
    else Split(Horizontal, [root] + LeafNodes(ps))
  }

  /** Closes a window: its leaves go to the end of Main's tree. */
  function Reattach(c: Config, key: string): Config {
    var k := KeyIndex(c.windows, key);
    if key == MAIN_KEY || k == |c.windows| then c
    else
      var ws := RemoveAt(c.windows, k);
      var m := MainIndex(ws);
      if m == |ws| then Empty(c.workspace)
      else
        var main := ws[m];
        c.(windows := ws[m := main.(layout := AppendLeaves(main.layout, Leaves(c.windows[k].layout)))],
           revision := Bump(c.revision))
  }
}
