/** What detaching and reattaching do to a valid layout, for every layout. */
module LayoutLaws {
  import opened Options
  import opened LayoutTree
  import opened Layout

  // ── Panels as a multiset ────────────────────────────────────────────────────

  lemma {:induction false} DistinctCount(ps: seq<Panel>, p: Panel)
    requires DistinctIds(ps)
    ensures multiset(ps)[p] <= 1
  {
    if ps == [] {
    } else {
      assert ps == [ps[0]] + ps[1..];
      DistinctConcat([ps[0]], ps[1..]);
      DistinctCount(ps[1..], p);
      assert [ps[0]][0].id == ps[0].id;
      assert ps[0] !in ps[1..];
    }
  }

  lemma CountTwo(ps: seq<Panel>, i: nat, j: nat)
    requires i < j < |ps| && ps[i] == ps[j]
    ensures multiset(ps)[ps[i]] >= 2
  {
    assert ps == ps[..j] + ps[j..];
    assert ps[..j][i] == ps[i] && ps[j..][0] == ps[i];
    assert ps[i] in multiset(ps[..j]) && ps[i] in multiset(ps[j..]);
  }

  /** Distinctness is about the panels, not about their order. */
  lemma DistinctIsOrderFree(ps: seq<Panel>, qs: seq<Panel>)
    requires DistinctIds(ps) && multiset(ps) == multiset(qs)
    ensures DistinctIds(qs)
  {
    forall i, j | 0 <= i < j < |qs| ensures qs[i].id != qs[j].id {
      if qs[i] == qs[j] {
        CountTwo(qs, i, j);
        DistinctCount(ps, qs[i]);
        assert false;
      }
      assert qs[i] in multiset(qs) && qs[j] in multiset(qs);
      assert qs[i] in ps && qs[j] in ps;
    }
  }

  lemma {:induction false} WithoutOne(ps: seq<Panel>, p: Panel)
    requires DistinctIds(ps) && p in ps
    ensures multiset(ps) == multiset(Without(ps, p.id)) + multiset{p}
  {
    var k :| 0 <= k < |ps| && ps[k] == p;
    assert ps == ps[..k] + [p] + ps[k + 1..];
    WithoutMiddle(ps[..k], p, ps[k + 1..]);
  }

  // ── Windows ─────────────────────────────────────────────────────────────────

  lemma TreesConcat(a: seq<Window>, b: seq<Window>)
    ensures Trees(a + b) == Trees(a) + Trees(b)
  {
  }

  lemma PanelsConcat(a: seq<Window>, b: seq<Window>)
    ensures LeavesOf(Trees(a + b)) == LeavesOf(Trees(a)) + LeavesOf(Trees(b))
  {
    TreesConcat(a, b);
    LeavesConcat(Trees(a), Trees(b));
  }

  lemma PanelsOfOne(w: Window)
    ensures LeavesOf(Trees([w])) == Leaves(w.layout)
  {
    assert Trees([w]) == [w.layout];
    assert LeavesOf([w.layout]) == Leaves(w.layout) + LeavesOf([]);
  }

  lemma PanelsAt(ws: seq<Window>, i: nat)
    requires i < |ws|
    ensures LeavesOf(Trees(ws)) == LeavesOf(Trees(ws[..i])) + Leaves(ws[i].layout) + LeavesOf(Trees(ws[i + 1..]))
  {
    PanelsConcat(ws[..i], [ws[i]] + ws[i + 1..]);
    PanelsConcat([ws[i]], ws[i + 1..]);
    PanelsOfOne(ws[i]);
    assert ws == ws[..i] + ([ws[i]] + ws[i + 1..]);
  }

  lemma PanelsUpdated(ws: seq<Window>, i: nat, w: Window)
    requires i < |ws|
    ensures LeavesOf(Trees(ws[i := w]))
         == LeavesOf(Trees(ws[..i])) + Leaves(w.layout) + LeavesOf(Trees(ws[i + 1..]))
  {
    var ws' := ws[i := w];
    PanelsAt(ws', i);
    assert ws'[..i] == ws[..i] && ws'[i + 1..] == ws[i + 1..];
  }

  lemma DistinctAt(ws: seq<Window>, i: nat)
    requires i < |ws| && DistinctIds(LeavesOf(Trees(ws)))
    ensures DistinctIds(Leaves(ws[i].layout))
  {
    PanelsAt(ws, i);
    var a, b, d := LeavesOf(Trees(ws[..i])), Leaves(ws[i].layout), LeavesOf(Trees(ws[i + 1..]));
    DistinctConcat(a + b, d);
    DistinctConcat(a, b);
  }

  lemma MainStays(ws: seq<Window>, w: Window)
    requires OneMain(ws) && w.kind == Main
    ensures var m := MainIndex(ws); MainIndex(ws[m := w]) == m && OneMain(ws[m := w])
  {
    var m := MainIndex(ws);
    var ws' := ws[m := w];
    assert ws'[m].kind == Main;
    assert forall j | 0 <= j < |ws| && j != m :: ws'[j] == ws[j];
  }

  lemma {:induction false} ValidLeaves(n: Node)
    requires ValidNode(n)
    ensures forall p | p in Leaves(n) :: !Blank(p.id)
    decreases n, 1
  {
    if !n.Leaf? { ValidLeavesOf(n.children); }
  }

  lemma {:induction false} ValidLeavesOf(cs: seq<Node>)
    requires forall c | c in cs :: ValidNode(c)
    ensures forall p | p in LeavesOf(cs) :: !Blank(p.id)
    decreases cs, 0
  {
    if cs == [] {
    } else {
      ValidLeaves(cs[0]);
      ValidLeavesOf(cs[1..]);
    }
  }

  // ── Detach ──────────────────────────────────────────────────────────────────

  /** Main's window of a layout that has one. */
  function MainWindow(c: Config): Window
    requires OneMain(c.windows)
  {
    c.windows[MainIndex(c.windows)]
  }

  /** A panel can be detached exactly when it is in Main's tree and is not all of it. */
  lemma DetachDefined(c: Config, id: string)
    requires Valid(c)
    ensures Detach(c, id).Some? <==> Has(MainWindow(c).layout, id) && !MainWindow(c).layout.Leaf?
  {
    DistinctAt(c.windows, MainIndex(c.windows));
    RemoveLeafLeaves(MainWindow(c).layout, id);
  }

  /** Main's window after the panel has gone, and the window that was made for it. */
  function MainWithout(c: Config, id: string): Window
    requires OneMain(c.windows)
  {
    MainWindow(c).(layout := RemoveLeaf(MainWindow(c).layout, id).0)
  }

  lemma DetachShape(c: Config, id: string) returns (panel: Panel)
    requires Valid(c) && Detach(c, id).Some?
    ensures FindPanel(MainWindow(c).layout, id) == Some(panel)
    ensures var (next, key) := Detach(c, id).value;
            && next == c.(windows := c.windows[MainIndex(c.windows) := MainWithout(c, id)]
                                     + [Window(key, Detached, None, Leaf(panel))],
                          revision := Bump(c.revision))
            && key !in Keys(c.windows)
            && key == NextDetachedKey(c.windows)
            && MainIndex(next.windows) == MainIndex(c.windows) && OneMain(next.windows)
  {
    var m := MainIndex(c.windows);
    panel := FindPanel(MainWindow(c).layout, id).value;
    MainStays(c.windows, MainWithout(c, id));
    KeysUpdated(c.windows, m, MainWithout(c, id));
    MainAppended(c.windows[m := MainWithout(c, id)], Window(NextDetachedKey(c.windows), Detached, None, Leaf(panel)));
  }

  /** Detaching moves one panel and nothing else: Main keeps its other panels in order, the new
      window holds the panel under a key nobody had, every other window is as it was, and no panel
      is lost or doubled. */
  lemma DetachMoves(c: Config, id: string)
    requires Valid(c) && Detach(c, id).Some?
    ensures var (next, key) := Detach(c, id).value;
            && |next.windows| == |c.windows| + 1 && OneMain(next.windows)
            && MainIndex(next.windows) == MainIndex(c.windows)
            && MainWindow(next).key == MainWindow(c).key
            && Leaves(MainWindow(next).layout) == Without(Leaves(MainWindow(c).layout), id)
            && (forall i | 0 <= i < |c.windows| && i != MainIndex(c.windows) :: next.windows[i] == c.windows[i])
            && next.windows[|c.windows|].key == key && next.windows[|c.windows|].kind == Detached
            && next.windows[|c.windows|].layout.Leaf? && next.windows[|c.windows|].layout.panel.id == id
            && key !in Keys(c.windows)
            && next.revision == (if c.revision < 0xFFFF_FFFF_FFFF_FFFF then c.revision + 1 else 0xFFFF_FFFF_FFFF_FFFF)
            && next.version == c.version && next.workspace == c.workspace
  {
    var panel := DetachShape(c, id);
    DistinctAt(c.windows, MainIndex(c.windows));
    RemoveLeafLeaves(MainWindow(c).layout, id);
  }

  lemma DetachConserves(c: Config, id: string)
    requires Valid(c) && Detach(c, id).Some?
    ensures multiset(AllPanels(Detach(c, id).value.0)) == multiset(AllPanels(c))
  {
    var panel := DetachShape(c, id);
    var m := MainIndex(c.windows);
    var ws := c.windows[m := MainWithout(c, id)];
    var w := Window(Detach(c, id).value.1, Detached, None, Leaf(panel));
    DistinctAt(c.windows, m);
    RemoveLeafLeaves(MainWindow(c).layout, id);
    PanelsAt(c.windows, m);
    PanelsUpdated(c.windows, m, MainWithout(c, id));
    PanelsConcat(ws, [w]);
    PanelsOfOne(w);
    WithoutOne(Leaves(MainWindow(c).layout), panel);
  }

  // The rules of single windows, over the list a detach builds.
  lemma RulesSpliced(ws: seq<Window>, m: nat, main: Window, w: Window)
    requires m < |ws| && (forall x | x in ws :: WindowRules(x)) && WindowRules(w)
    requires main.key == ws[m].key && main.kind == Main
    ensures (forall x | x in ws[m := main] + [w] :: WindowRules(x)) <==> ValidRoot(main.layout)
  {
    var next := ws[m := main] + [w];
    assert next[m] == main && main in next;
    assert WindowRules(ws[m]);
    assert WindowRules(main) <==> ValidRoot(main.layout);
    forall x | x in next && x != main ensures WindowRules(x) {
      var i :| 0 <= i < |next| && next[i] == x;
      if i < |ws| { assert ws[i] == x && ws[i] in ws; }
    }
  }

  /** The layout after a detach obeys every rule exactly when Main's tree was clean for that panel:
      only a tab group that loses a whole child, or its only tab at the root, can spoil it. */
  lemma DetachValidExactly(c: Config, id: string)
    requires Valid(c) && Detach(c, id).Some?
    ensures Valid(Detach(c, id).value.0) <==> RootClean(MainWindow(c).layout, id)
  {
    var panel := DetachShape(c, id);
    var (next, key) := Detach(c, id).value;
    assert MainWindow(c) in c.windows && WindowRules(MainWindow(c));
    DetachDefined(c, id);
    DistinctAt(c.windows, MainIndex(c.windows));
    RemovalAtRoot(MainWindow(c).layout, id);
    DetachConserves(c, id);
    DistinctIsOrderFree(AllPanels(c), AllPanels(next));
    DetachKeys(c, id);
    ValidRootLeaves(MainWindow(c).layout);
    DetachedKeyNotBlank(c.windows);
    RulesSpliced(c.windows, MainIndex(c.windows), MainWithout(c, id), Window(key, Detached, None, Leaf(panel)));
  }

  lemma DetachKeys(c: Config, id: string)
    requires Valid(c) && Detach(c, id).Some?
    ensures DistinctKeys(Detach(c, id).value.0.windows)
    ensures Keys(Detach(c, id).value.0.windows) == Keys(c.windows) + {Detach(c, id).value.1}
  {
    var panel := DetachShape(c, id);
    var (next, key) := Detach(c, id).value;
    var m := MainIndex(c.windows);
    var ws := c.windows[m := MainWithout(c, id)];
    KeysUpdated(c.windows, m, MainWithout(c, id));
    forall i, j | 0 <= i < j < |next.windows| ensures next.windows[i].key != next.windows[j].key {
      if j == |ws| {
        assert c.windows[i] in c.windows && c.windows[i].key in Keys(c.windows);
      }
    }
    assert next.windows == ws + [next.windows[|ws|]];
    assert Keys(next.windows) == Keys(ws) + {key} by {
      assert next.windows[|ws|] in next.windows;
      forall w | w in ws ensures w in next.windows { }
    }
  }

  lemma ValidRootLeaves(n: Node)
    requires ValidRoot(n)
    ensures forall p | p in Leaves(n) :: !Blank(p.id)
  {
    if n.Split? { ValidLeavesOf(n.children); } else { ValidLeaves(n); }
  }

  lemma DetachedKeyNotBlank(ws: seq<Window>)
    ensures !Blank(NextDetachedKey(ws)) && NextDetachedKey(ws) != MAIN_KEY
  {
    assert NextDetachedKey(ws)[0] == 'd' && 'd' in NextDetachedKey(ws);
  }

  lemma KeysUpdated(ws: seq<Window>, i: nat, w: Window)
    requires i < |ws| && w.key == ws[i].key
    ensures Keys(ws[i := w]) == Keys(ws)
  {
    var ws' := ws[i := w];
    forall k | k in Keys(ws) ensures k in Keys(ws') {
      var j :| 0 <= j < |ws| && ws[j].key == k;
      assert ws'[j].key == k && ws'[j] in ws';
    }
    forall k | k in Keys(ws') ensures k in Keys(ws) {
      var j :| 0 <= j < |ws'| && ws'[j].key == k;
      assert ws[j].key == k && ws[j] in ws;
    }
  }

  lemma MainAppended(ws: seq<Window>, w: Window)
    requires OneMain(ws) && w.kind == Detached
    ensures MainIndex(ws + [w]) == MainIndex(ws) && OneMain(ws + [w])
  {
    MainIndexPrefix(ws, [w]);
  }

  lemma {:induction false} MainIndexPrefix(a: seq<Window>, b: seq<Window>)
    requires MainIndex(a) < |a|
    ensures MainIndex(a + b) == MainIndex(a)
  {
    assert (a + b)[0] == a[0];
    if a[0].kind == Main {
    } else {
      assert (a + b)[1..] == a[1..] + b;
      MainIndexPrefix(a[1..], b);
    }
  }

  // ── Reattach ────────────────────────────────────────────────────────────────

  lemma {:induction false} LeavesOfLeafNodes(ps: seq<Panel>)
    ensures LeavesOf(LeafNodes(ps)) == ps
  {
    if ps == [] {
    } else {
      assert LeafNodes(ps)[1..] == LeafNodes(ps[1..]);
      LeavesOfLeafNodes(ps[1..]);
      assert LeafNodes(ps)[0] == Leaf(ps[0]);
    }
  }

  lemma AppendedLeaves(root: Node, ps: seq<Panel>)
    ensures Leaves(AppendLeaves(root, ps)) == Leaves(root) + ps
  {
    LeavesOfLeafNodes(ps);
    if root.Split? {
      LeavesConcat(root.children, LeafNodes(ps));
    } else {
      LeavesConcat([root], LeafNodes(ps));
      assert LeavesOf([root]) == Leaves(root) + LeavesOf([]);
    }
  }

  lemma AppendedValid(root: Node, ps: seq<Panel>)
    requires ValidRoot(root) && forall p | p in ps :: !Blank(p.id)
    ensures ValidRoot(AppendLeaves(root, ps))
  {
    forall n | n in LeafNodes(ps) ensures ValidNode(n) {
      var i :| 0 <= i < |ps| && LeafNodes(ps)[i] == n;
      assert ps[i] in ps;
    }
  }

  // The list of windows a reattach leaves behind: the closed one gone, Main's tree grown.
  function Regrown(c: Config, k: nat): seq<Window>
    requires k < |c.windows| && OneMain(c.windows) && MainIndex(c.windows) != k
  {
    var main := MainWindow(c);
    RemoveAt(c.windows[MainIndex(c.windows) := main.(layout := AppendLeaves(main.layout, Leaves(c.windows[k].layout)))], k)
  }

  lemma OnlyMain(ws: seq<Window>, m: nat)
    requires m < |ws| && ws[m].kind == Main && forall j | 0 <= j < |ws| && j != m :: ws[j].kind != Main
    ensures MainIndex(ws) == m && OneMain(ws)
  {
  }

  lemma RemovedAt(ws: seq<Window>, k: nat, j: nat)
    requires k < |ws| && j < |ws| - 1
    ensures RemoveAt(ws, k)[j] == ws[if j < k then j else j + 1]
  {
  }

  // The list without its k-th window, place by place.
  predicate IsWithout(ws: seq<Window>, k: nat, ws': seq<Window>) {
    k < |ws| && |ws'| == |ws| - 1
    && (forall j | 0 <= j < k :: ws'[j] == ws[j]) && (forall j | k <= j < |ws'| :: ws'[j] == ws[j + 1])
  }

  lemma RemovedIsWithout(ws: seq<Window>, k: nat)
    requires k < |ws|
    ensures IsWithout(ws, k, RemoveAt(ws, k))
  {
  }

  lemma MainAmongRest(ws: seq<Window>, k: nat, ws': seq<Window>)
    requires IsWithout(ws, k, ws') && OneMain(ws) && MainIndex(ws) != k
    ensures var m := MainIndex(ws);
            MainIndex(ws') == (if m < k then m else m - 1) && ws'[MainIndex(ws')] == ws[m] && OneMain(ws')
  {
    OnlyMain(ws', if MainIndex(ws) < k then MainIndex(ws) else MainIndex(ws) - 1);
  }

  lemma MainAfterRemoval(ws: seq<Window>, k: nat)
    requires k < |ws| && OneMain(ws) && MainIndex(ws) != k
    ensures var m, ws' := MainIndex(ws), RemoveAt(ws, k);
            MainIndex(ws') == (if m < k then m else m - 1) && ws'[MainIndex(ws')] == ws[m] && OneMain(ws')
  {
    RemovedIsWithout(ws, k);
    MainAmongRest(ws, k, RemoveAt(ws, k));
  }

  lemma ReattachShape(c: Config, key: string)
    requires Valid(c) && key != MAIN_KEY
    requires KeyIndex(c.windows, key) < |c.windows| && c.windows[KeyIndex(c.windows, key)].kind == Detached
    ensures Reattach(c, key) == c.(windows := Regrown(c, KeyIndex(c.windows, key)), revision := Bump(c.revision))
    ensures OneMain(Reattach(c, key).windows)
    ensures var k := KeyIndex(c.windows, key);
            MainWindow(Reattach(c, key))
            == MainWindow(c).(layout := AppendLeaves(MainWindow(c).layout, Leaves(c.windows[k].layout)))
  {
    var k := KeyIndex(c.windows, key);
    var m := MainIndex(c.windows);
    var main := MainWindow(c).(layout := AppendLeaves(MainWindow(c).layout, Leaves(c.windows[k].layout)));
    MainAfterRemoval(c.windows, k);
    UpdateThenRemove(c.windows, m, k, main);
    MainStays(c.windows, main);
    MainAfterRemoval(c.windows[m := main], k);
  }

  lemma UpdateThenRemove(ws: seq<Window>, m: nat, k: nat, w: Window)
    requires m < |ws| && k < |ws| && m != k
    ensures RemoveAt(ws[m := w], k) == RemoveAt(ws, k)[(if m < k then m else m - 1) := w]
  {
  }

  lemma PanelsRemoved(ws: seq<Window>, k: nat)
    requires k < |ws|
    ensures multiset(LeavesOf(Trees(ws))) == multiset(LeavesOf(Trees(RemoveAt(ws, k)))) + multiset(Leaves(ws[k].layout))
  {
    PanelsAt(ws, k);
    PanelsConcat(ws[..k], ws[k + 1..]);
  }

  lemma PanelsGrown(ws: seq<Window>, m: nat, w: Window, extra: seq<Panel>)
    requires m < |ws| && Leaves(w.layout) == Leaves(ws[m].layout) + extra
    ensures multiset(LeavesOf(Trees(ws[m := w]))) == multiset(LeavesOf(Trees(ws))) + multiset(extra)
  {
    PanelsAt(ws, m);
    PanelsUpdated(ws, m, w);
  }

  lemma ReattachConserves(c: Config, key: string)
    requires Valid(c) && key != MAIN_KEY
    requires KeyIndex(c.windows, key) < |c.windows| && c.windows[KeyIndex(c.windows, key)].kind == Detached
    ensures multiset(AllPanels(Reattach(c, key))) == multiset(AllPanels(c))
  {
    ReattachShape(c, key);
    RegrownConserves(c, KeyIndex(c.windows, key));
  }

  lemma RegrownConserves(c: Config, k: nat)
    requires k < |c.windows| && OneMain(c.windows) && MainIndex(c.windows) != k
    ensures multiset(LeavesOf(Trees(Regrown(c, k)))) == multiset(AllPanels(c))
  {
    var moved := Leaves(c.windows[k].layout);
    var main := MainWindow(c).(layout := AppendLeaves(MainWindow(c).layout, moved));
    var ws := c.windows[MainIndex(c.windows) := main];
    AppendedLeaves(MainWindow(c).layout, moved);
    PanelsGrown(c.windows, MainIndex(c.windows), main, moved);
    PanelsRemoved(ws, k);
    assert ws[k] == c.windows[k];
    Cancel(multiset(LeavesOf(Trees(Regrown(c, k)))), multiset(AllPanels(c)), multiset(moved));
  }

  lemma Cancel(a: multiset<Panel>, b: multiset<Panel>, m: multiset<Panel>)
    requires a + m == b + m
    ensures a == b
  {
    forall p ensures a[p] == b[p] {
      assert (a + m)[p] == (b + m)[p];
    }
  }

  /** Leaves put behind what a window had: into its split, whatever that one's direction, or beside
      anything else in a horizontal one. */
  predicate IsAppended(root: Node, ps: seq<Panel>, grown: Node) {
    && grown.Split?
    && grown.direction == (if root.Split? then root.direction else Horizontal)
    && var before := if root.Split? then root.children else [root];
       && |grown.children| == |before| + |ps|
       && (forall i | 0 <= i < |before| :: grown.children[i] == before[i])
       && (forall i | 0 <= i < |ps| :: grown.children[|before| + i] == Leaf(ps[i]))
  }

  /** Closing a detached window takes that window out of the list, leaves every other where it was and as
      it was, and puts the leaves of the closed one behind what Main had. */
  lemma ReattachMoves(c: Config, key: string)
    requires Valid(c) && key != MAIN_KEY
    requires KeyIndex(c.windows, key) < |c.windows| && c.windows[KeyIndex(c.windows, key)].kind == Detached
    ensures var next, k := Reattach(c, key), KeyIndex(c.windows, key);
            && next.version == c.version && next.workspace == c.workspace && OneMain(next.windows)
            && |next.windows| == |c.windows| - 1
            && (forall j | 0 <= j < |next.windows| ::
                  var i := if j < k then j else j + 1;
                  next.windows[j] == if i == MainIndex(c.windows) then MainWindow(next) else c.windows[i])
            && IsAppended(MainWindow(c).layout, Leaves(c.windows[k].layout), MainWindow(next).layout)
            && MainWindow(next) == MainWindow(c).(layout := MainWindow(next).layout)
  {
    var k := KeyIndex(c.windows, key);
    ReattachShape(c, key);
    SplicedAt(c.windows, MainIndex(c.windows), k, MainWindow(Reattach(c, key)));
    AppendedIs(MainWindow(c).layout, Leaves(c.windows[k].layout));
  }

  lemma SplicedAt(ws: seq<Window>, m: nat, k: nat, w: Window)
    requires m < |ws| && k < |ws| && m != k
    ensures var ws' := RemoveAt(ws[m := w], k);
            && |ws'| == |ws| - 1
            && forall j | 0 <= j < |ws'| :: ws'[j] == if (if j < k then j else j + 1) == m then w else ws[if j < k then j else j + 1]
  {
  }

  lemma AppendedIs(root: Node, ps: seq<Panel>)
    ensures IsAppended(root, ps, AppendLeaves(root, ps))
  {
  }

  /** Closing a detached window appends its panels, in order, to Main's, takes exactly that key
      away, leaves the other windows alone, loses nothing, and always gives a valid layout. */
  lemma ReattachKeepsAll(c: Config, key: string)
    requires Valid(c) && key != MAIN_KEY
    requires KeyIndex(c.windows, key) < |c.windows| && c.windows[KeyIndex(c.windows, key)].kind == Detached
    ensures var next, k := Reattach(c, key), KeyIndex(c.windows, key);
            && Valid(next)
            && Leaves(MainWindow(next).layout) == Leaves(MainWindow(c).layout) + Leaves(c.windows[k].layout)
            && MainWindow(next).key == MainWindow(c).key
            && Keys(next.windows) == Keys(c.windows) - {key}
            && next.revision == (if c.revision < 0xFFFF_FFFF_FFFF_FFFF then c.revision + 1 else 0xFFFF_FFFF_FFFF_FFFF)
            && multiset(AllPanels(next)) == multiset(AllPanels(c))
  {
    var next, k := Reattach(c, key), KeyIndex(c.windows, key);
    ReattachShape(c, key);
    AppendedLeaves(MainWindow(c).layout, Leaves(c.windows[k].layout));
    ReattachConserves(c, key);
    DistinctIsOrderFree(AllPanels(c), AllPanels(next));
    ReattachRules(c, k);
    ReattachKeys(c, key);
  }

  lemma ReattachRules(c: Config, k: nat)
    requires Valid(c) && k < |c.windows| && MainIndex(c.windows) != k
    ensures forall w | w in Regrown(c, k) :: WindowRules(w)
  {
    var m := MainIndex(c.windows);
    assert MainWindow(c) in c.windows && c.windows[k] in c.windows;
    ValidRootLeaves(c.windows[k].layout);
    AppendedValid(MainWindow(c).layout, Leaves(c.windows[k].layout));
    var ws := Regrown(c, k);
    forall w | w in ws ensures WindowRules(w) {
      var i :| 0 <= i < |ws| && ws[i] == w;
      var j := if i < k then i else i + 1;
      assert c.windows[j] in c.windows;
    }
  }

  lemma KeysAmongRest(ws: seq<Window>, k: nat, ws': seq<Window>)
    requires DistinctKeys(ws) && IsWithout(ws, k, ws')
    ensures DistinctKeys(ws') && Keys(ws') == Keys(ws) - {ws[k].key}
  {
    forall x | x in Keys(ws') ensures x in Keys(ws) - {ws[k].key} {
      var i :| 0 <= i < |ws'| && ws'[i].key == x;
      var j := if i < k then i else i + 1;
      assert ws'[i] == ws[j] && ws[j] in ws;
    }
    forall x | x in Keys(ws) - {ws[k].key} ensures x in Keys(ws') {
      var j :| 0 <= j < |ws| && ws[j].key == x;
      assert ws'[if j < k then j else j - 1] == ws[j];
      assert ws[j] in ws';
    }
  }

  lemma KeysRemoved(ws: seq<Window>, k: nat)
    requires DistinctKeys(ws) && k < |ws|
    ensures DistinctKeys(RemoveAt(ws, k)) && Keys(RemoveAt(ws, k)) == Keys(ws) - {ws[k].key}
  {
    RemovedIsWithout(ws, k);
    KeysAmongRest(ws, k, RemoveAt(ws, k));
  }

  lemma ReattachKeys(c: Config, key: string)
    requires Valid(c) && KeyIndex(c.windows, key) < |c.windows| && MainIndex(c.windows) != KeyIndex(c.windows, key)
    ensures var ws := Regrown(c, KeyIndex(c.windows, key)); DistinctKeys(ws) && Keys(ws) == Keys(c.windows) - {key}
  {
    var k, m := KeyIndex(c.windows, key), MainIndex(c.windows);
    var main := MainWindow(c).(layout := AppendLeaves(MainWindow(c).layout, Leaves(c.windows[k].layout)));
    KeysUpdated(c.windows, m, main);
    KeysRemoved(c.windows[m := main], k);
  }

  /** Reattaching loses panels exactly when it is asked to close the window of kind Main under a
      key other than "main" and there is a panel to lose: then the whole layout is reset. */
  lemma ReattachLosesExactly(c: Config, key: string)
    requires Valid(c)
    ensures var k := KeyIndex(c.windows, key);
            (multiset(AllPanels(Reattach(c, key))) != multiset(AllPanels(c))
             <==> key != MAIN_KEY && k == MainIndex(c.windows) && AllPanels(c) != [])
  {
    var k := KeyIndex(c.windows, key);
    if key != MAIN_KEY && k < |c.windows| {
      if c.windows[k].kind == Detached {
        ReattachConserves(c, key);
      } else {
        MainGoes(c, key, k);
        EmptyIsValid(c.workspace);
        assert |multiset(AllPanels(c))| == |AllPanels(c)|;
      }
    }
  }

  // A layout of one window with one panel.
  function OneWindow(key: string, p: Panel): Config {
    Config(CURRENT_VERSION, "default", [Window(key, Main, None, Leaf(p))], 1)
  }

  lemma OneWindowIsValid(key: string, p: Panel)
    requires !Blank(key) && !Blank(p.id)
    ensures Valid(OneWindow(key, p)) && AllPanels(OneWindow(key, p)) == [p]
  {
    PanelsOfOne(OneWindow(key, p).windows[0]);
  }

  /** It happens: any layout whose only window, of kind Main, stands under another key. */
  lemma ReattachCanLose(key: string, p: Panel) returns (c: Config)
    requires !Blank(key) && key != MAIN_KEY && !Blank(p.id)
    ensures Valid(c) && key in Keys(c.windows)
    ensures AllPanels(c) == [p] && AllPanels(Reattach(c, key)) == []
  {
    c := OneWindow(key, p);
    OneWindowIsValid(key, p);
    assert c.windows[0] in c.windows;
    MainGoes(c, key, 0);
    EmptyIsValid(c.workspace);
  }

  lemma MainGoes(c: Config, key: string, k: nat)
    requires Valid(c) && key != MAIN_KEY && k == KeyIndex(c.windows, key) && k < |c.windows| && c.windows[k].kind != Detached
    ensures k == MainIndex(c.windows) && Reattach(c, key) == Empty(c.workspace)
  {
    var ws := RemoveAt(c.windows, k);
    forall j | 0 <= j < |ws| ensures ws[j].kind != Main {
      RemovedAt(c.windows, k, j);
    }
  }

  /** A reattach moves the revision on exactly when it closes a window the layout has: for any
      other key it asks for the revision that is already stored, and no retry can ever save it. */
  lemma ReattachWritesExactly(c: Config, key: string)
    requires Valid(c) && MainWindow(c).key == MAIN_KEY && c.revision < U64_MAX
    ensures Reattach(c, key).revision == c.revision + 1 <==> key in Keys(c.windows) - {MAIN_KEY}
    ensures Reattach(c, key).revision != c.revision + 1 ==> Reattach(c, key) == c
  {
    var k := KeyIndex(c.windows, key);
    if k < |c.windows| && key != MAIN_KEY {
      assert c.windows[k] in c.windows;
      ReattachShape(c, key);
    } else if key in Keys(c.windows) {
      var j :| 0 <= j < |c.windows| && c.windows[j].key == key;
      assert k <= j;
    }
  }

  /** It happens: closing a window that the layout does not have, say because it was closed before,
      gives back the same revision, for every such key. */
  lemma ReattachCanStall(key: string, p: Panel) returns (c: Config)
    requires key != MAIN_KEY && !Blank(p.id)
    ensures Valid(c) && MainWindow(c).key == MAIN_KEY && c.revision < U64_MAX
    ensures Reattach(c, key).revision == c.revision && Reattach(c, key) == c
  {
    c := OneWindow(MAIN_KEY, p);
    assert 'm' in MAIN_KEY;
    OneWindowIsValid(MAIN_KEY, p);
    ReattachWritesExactly(c, key);
  }

  /** Detach, then close the new window: every window is back as it was, but the panel now stands
      at the end of Main's tree. */
  lemma DetachThenReattach(c: Config, id: string)
    requires Valid(c) && Detach(c, id).Some? && RootClean(MainWindow(c).layout, id)
    ensures var (next, key) := Detach(c, id).value;
            var back := Reattach(next, key);
            && Valid(back)
            && back.windows == c.windows[MainIndex(c.windows) := MainWindow(back)]
            && MainWindow(back).key == MainWindow(c).key
            && (exists p | p in Leaves(MainWindow(c).layout) && p.id == id ::
                  Leaves(MainWindow(back).layout) == Without(Leaves(MainWindow(c).layout), id) + [p])
  {
    var panel := DetachShape(c, id);
    var (next, key) := Detach(c, id).value;
    DetachValidExactly(c, id);
    DetachMoves(c, id);
    DetachedKeyNotBlank(c.windows);
    var n := |c.windows|;
    var k := KeyIndex(next.windows, key);
    assert k == n by {
      assert next.windows[n].key == key;
    }
    ReattachShape(next, key);
    ReattachKeepsAll(next, key);
    var back := Reattach(next, key);
    var m := MainIndex(c.windows);
    assert back.windows == next.windows[m := MainWindow(back)][..n];
    assert Leaves(MainWindow(back).layout) == Without(Leaves(MainWindow(c).layout), id) + [panel];
  }

  lemma LeavesOfOne(n: Node)
    ensures LeavesOf([n]) == Leaves(n)
  {
    assert LeavesOf([n]) == Leaves(n) + LeavesOf([]);
  }

  // Three tabs: two leaves, and a one-tab group around the third, which is the active one.
  function SpoiledGroup(a: Panel, b: Panel, d: Panel): Node {
    Tabs(2, [Leaf(a), Leaf(b), Tabs(0, [Leaf(d)])])
  }

  lemma SpoiledGroupIsUnclean(a: Panel, b: Panel, d: Panel)
    requires a.id != d.id && b.id != d.id
    ensures Leaves(SpoiledGroup(a, b, d)) == [a, b, d]
    ensures !RootClean(SpoiledGroup(a, b, d), d.id)
  {
    var cs := SpoiledGroup(a, b, d).children;
    LeavesOfOne(Leaf(d));
    LeavesOfOne(cs[2]);
    LeavesConcat([cs[1]], [cs[2]]);
    LeavesOfOne(cs[1]);
    LeavesConcat([cs[0]], [cs[1], cs[2]]);
    LeavesOfOne(cs[0]);
    assert [cs[1]] + [cs[2]] == [cs[1], cs[2]] && [cs[0]] + [cs[1], cs[2]] == cs;
    assert Leaves(cs[2])[0].id == d.id;
    assert cs[2] in cs && Has(cs[2], d.id) && Vanishes(cs[2], d.id);
  }

  /** A valid layout, and a panel whose detach spoils it: the inner group vanishes, and the outer
      group keeps an active tab that no longer exists. */
  lemma DetachCanSpoil(a: Panel, b: Panel, d: Panel) returns (c: Config)
    requires a.id != b.id && a.id != d.id && b.id != d.id && !Blank(a.id) && !Blank(b.id) && !Blank(d.id)
    ensures Valid(c) && Detach(c, d.id).Some? && !Valid(Detach(c, d.id).value.0)
  {
    var group := SpoiledGroup(a, b, d);
    c := Config(CURRENT_VERSION, "default", [Window(MAIN_KEY, Main, None, group)], 1);
    SpoiledGroupIsUnclean(a, b, d);
    PanelsOfOne(c.windows[0]);
    assert 'm' in MAIN_KEY;
    assert ValidNode(Tabs(0, [Leaf(d)])) && ValidNode(group);
    assert Valid(c);
    assert Leaves(group)[2].id == d.id;
    DetachDefined(c, d.id);
    DetachValidExactly(c, d.id);
  }
}
