/** The panel tree of one window: its leaves, the rules a stored tree must obey, and the in-place
    removal of a leaf with the normalisation that goes with it. */
module LayoutTree {
  import opened Options

  // `params` is free-form JSON that nobody here looks into.
  datatype Panel = Panel(panelType: string, id: string, params: string)

  datatype Direction = Horizontal | Vertical

  datatype Node =
    | Leaf(panel: Panel)
    | Split(direction: Direction, children: seq<Node>)
    | Tabs(active: nat, children: seq<Node>)

  function Leaves(n: Node): seq<Panel> {
    match n
    case Leaf(p) => [p]
    case Split(_, cs) => LeavesOf(cs)
    case Tabs(_, cs) => LeavesOf(cs)
  }

  function LeavesOf(cs: seq<Node>): seq<Panel> {
    if cs == [] then [] else Leaves(cs[0]) + LeavesOf(cs[1..])
  }

  predicate HasId(ps: seq<Panel>, id: string) {
    exists i | 0 <= i < |ps| :: ps[i].id == id
  }

  predicate Has(n: Node, id: string) {
    HasId(Leaves(n), id)
  }

  predicate DistinctIds(ps: seq<Panel>) {
    forall i, j | 0 <= i < j < |ps| :: ps[i].id != ps[j].id
  }

  /** The panels other than `id`, in order. */
  function Without(ps: seq<Panel>, id: string): seq<Panel> {
    if ps == [] then [] else (if ps[0].id == id then [] else [ps[0]]) + Without(ps[1..], id)
  }

  // ── The structural rules ────────────────────────────────────────────────────

  predicate IsSpace(c: char) {
    || '\t' <= c <= '\r' || c == ' ' || c == '\U{85}' || c == '\U{A0}' || c == '\U{1680}'
    || '\U{2000}' <= c <= '\U{200A}' || c == '\U{2028}' || c == '\U{2029}' || c == '\U{202F}'
    || c == '\U{205F}' || c == '\U{3000}'
  }

  /** The code points of White_Space, which `trim` takes away. */
  lemma SpacesAre(c: char)
    ensures IsSpace(c) <==>
            c as int in {0x09, 0x0A, 0x0B, 0x0C, 0x0D, 0x20, 0x85, 0xA0, 0x1680, 0x2000, 0x2001, 0x2002, 0x2003, 0x2004,
                         0x2005, 0x2006, 0x2007, 0x2008, 0x2009, 0x200A, 0x2028, 0x2029, 0x202F, 0x205F, 0x3000}
  {
  }

  predicate Blank(s: string) {
    forall c | c in s :: IsSpace(c)
  }

  /** A nested node: splits have two children or more, tab groups one or more and an active tab. */
  predicate ValidNode(n: Node) {
    match n
    case Leaf(p) => !Blank(p.id)
    case Split(_, cs) => |cs| >= 2 && forall c | c in cs :: ValidNode(c)
    case Tabs(active, cs) => |cs| > 0 && active < |cs| && forall c | c in cs :: ValidNode(c)
  }

  /** A window's root may also be a split of no child or one. */
  predicate ValidRoot(n: Node) {
    match n
    case Split(_, cs) => forall c | c in cs :: ValidNode(c)
    case _ => ValidNode(n)
  }

  /** All nodes of a tree, each before its children. */
  function Nodes(n: Node): seq<Node> {
    match n
    case Leaf(_) => [n]
    case Split(_, cs) => [n] + NodesOf(cs)
    case Tabs(_, cs) => [n] + NodesOf(cs)
  }

  function NodesOf(cs: seq<Node>): seq<Node> {
    if cs == [] then [] else Nodes(cs[0]) + NodesOf(cs[1..])
  }

  /** What the rules ask of one node by itself. */
  predicate Sound(n: Node) {
    match n
    case Leaf(p) => exists c | c in p.id :: !IsSpace(c)
    case Split(_, cs) => |cs| >= 2
    case Tabs(active, cs) => active < |cs|
  }

  /** The rules, said of all nodes at once: each is sound, and so is all below the split at a root. */
  lemma {:induction false} ValidNodeExactly(n: Node)
    ensures ValidNode(n) <==> forall m | m in Nodes(n) :: Sound(m)
    decreases n, 1
  {
    if n.Leaf? {
      assert n in Nodes(n);
    } else {
      ValidNodesExactly(n.children);
      var below := NodesOf(n.children);
      assert Nodes(n) == [n] + below && ([n] + below)[0] == n;
      assert (forall m | m in [n] + below :: Sound(m)) <==> Sound(n) && forall m | m in below :: Sound(m);
      assert ValidNode(n) <==> Sound(n) && forall c | c in n.children :: ValidNode(c);
    }
  }

  lemma {:induction false} ValidNodesExactly(cs: seq<Node>)
    ensures (forall c | c in cs :: ValidNode(c)) <==> forall m | m in NodesOf(cs) :: Sound(m)
    decreases cs, 0
  {
    if cs == [] {
    } else {
      ValidNodeExactly(cs[0]);
      ValidNodesExactly(cs[1..]);
      assert forall c :: c in cs <==> c == cs[0] || c in cs[1..];
      assert forall m :: m in NodesOf(cs) <==> m in Nodes(cs[0]) || m in NodesOf(cs[1..]);
    }
  }

  lemma ValidRootExactly(n: Node)
    ensures ValidRoot(n) <==> forall m | m in (if n.Split? then NodesOf(n.children) else Nodes(n)) :: Sound(m)
  {
    if n.Split? { ValidNodesExactly(n.children); } else { ValidNodeExactly(n); }
  }

  // ── Finding and removing a leaf ─────────────────────────────────────────────

  /** The first leaf with that id, if any. */
  function FindPanel(n: Node, id: string): (r: Option<Panel>)
    ensures r.Some? <==> Has(n, id)
    ensures r.Some? ==> r.value in Leaves(n) && r.value.id == id
    decreases n, 1
  {
    match n
    case Leaf(p) => if p.id == id then (assert Leaves(n)[0].id == id; Some(p)) else None
    case Split(_, cs) => FindPanelIn(cs, id)
    case Tabs(_, cs) => FindPanelIn(cs, id)
  }

  function FindPanelIn(cs: seq<Node>, id: string): (r: Option<Panel>)
    ensures r.Some? <==> HasId(LeavesOf(cs), id)
    ensures r.Some? ==> r.value in LeavesOf(cs) && r.value.id == id
    decreases cs, 0
  {
    if cs == [] then None
    else
      HasIdConcat(Leaves(cs[0]), LeavesOf(cs[1..]), id);
      var r := FindPanel(cs[0], id);
      if r.Some? then r else FindPanelIn(cs[1..], id)
  }

  predicate IsLeafOf(n: Node, id: string) {
    n.Leaf? && n.panel.id == id
  }

  /** Index of the first child that is the leaf itself; |cs| if there is none. */
  function DirectLeaf(cs: seq<Node>, id: string): (k: nat)
    ensures k <= |cs|
    ensures k < |cs| ==> IsLeafOf(cs[k], id)
    ensures forall j | 0 <= j < k :: !IsLeafOf(cs[j], id)
  {
    if cs == [] || IsLeafOf(cs[0], id) then 0 else 1 + DirectLeaf(cs[1..], id)
  }

  function RemoveAt<T>(s: seq<T>, k: nat): seq<T>
    requires k < |s|
  {
    s[..k] + s[k + 1..]
  }

  /** Removes the leaf from the tree below `n`; the flag tells whether anything was removed. */
  function RemoveLeaf(n: Node, id: string): (Node, bool)
    decreases n, 1
  {
    match n
    case Leaf(_) => (n, false)
    case Tabs(active, cs) =>
      var k := DirectLeaf(cs, id);
      if k < |cs| then
        var cs' := RemoveAt(cs, k);
        (Tabs(if active >= |cs'| && cs' != [] then |cs'| - 1 else active, cs'), true)
      else
        var (cs', removed) := RemoveFromChildren(cs, id);
        (Tabs(active, cs'), removed)
    case Split(direction, cs) =>
      var k := DirectLeaf(cs, id);
      if k < |cs| then (Split(direction, RemoveAt(cs, k)), true)
      else
        var (cs', removed) := RemoveFromChildren(cs, id);
        (Split(direction, cs'), removed)
  }

  function RemoveFromChildren(cs: seq<Node>, id: string): (seq<Node>, bool)
    decreases cs, 0
  {
    if cs == [] then ([], false)
    else
      var (c, removed) := RemoveLeaf(cs[0], id);
      var (rest, removedLater) := RemoveFromChildren(cs[1..], id);
      ((if removed then Normalise(c) else [c]) + rest, removed || removedLater)
  }

  /** What a child is replaced by after a removal below it: nothing if it became an empty
      container, its only child if it is left with one, itself otherwise. */
  function Normalise(c: Node): seq<Node> {
    if c.Leaf? then [c] else if |c.children| <= 1 then c.children else [c]
  }

  // ── Lists of leaves ─────────────────────────────────────────────────────────

  lemma HasIdConcat(a: seq<Panel>, b: seq<Panel>, id: string)
    ensures HasId(a + b, id) <==> HasId(a, id) || HasId(b, id)
  {
    if HasId(a, id) {
      var i :| 0 <= i < |a| && a[i].id == id;
      assert (a + b)[i].id == id;
    }
    if HasId(b, id) {
      var i :| 0 <= i < |b| && b[i].id == id;
      assert (a + b)[|a| + i].id == id;
    }
  }

  lemma {:induction false} LeavesConcat(a: seq<Node>, b: seq<Node>)
    ensures LeavesOf(a + b) == LeavesOf(a) + LeavesOf(b)
  {
    if a == [] {
      assert a + b == b;
    } else {
      assert (a + b)[0] == a[0] && (a + b)[1..] == a[1..] + b;
      LeavesConcat(a[1..], b);
    }
  }

  lemma LeavesCons(n: Node, ns: seq<Node>)
    ensures LeavesOf([n] + ns) == Leaves(n) + LeavesOf(ns)
  {
    assert ([n] + ns)[1..] == ns;
  }

  lemma LeavesMiddle(a: seq<Node>, n: Node, b: seq<Node>)
    ensures LeavesOf(a + ([n] + b)) == LeavesOf(a) + Leaves(n) + LeavesOf(b)
  {
    LeavesConcat(a, [n] + b);
    LeavesCons(n, b);
  }

  lemma Rejoined<T>(s: seq<T>, k: nat)
    requires k < |s|
    ensures s == s[..k] + ([s[k]] + s[k + 1..])
  {
  }

  lemma LeavesSplitAt(cs: seq<Node>, k: nat)
    requires k < |cs|
    ensures LeavesOf(cs) == LeavesOf(cs[..k]) + Leaves(cs[k]) + LeavesOf(cs[k + 1..])
  {
    Rejoined(cs, k);
    LeavesMiddle(cs[..k], cs[k], cs[k + 1..]);
  }

  lemma WithoutCons(p: Panel, ps: seq<Panel>, id: string)
    ensures Without([p] + ps, id) == (if p.id == id then [] else [p]) + Without(ps, id)
  {
    assert ([p] + ps)[1..] == ps;
  }

  lemma {:induction false} WithoutConcat(a: seq<Panel>, b: seq<Panel>, id: string)
    ensures Without(a + b, id) == Without(a, id) + Without(b, id)
  {
    if a == [] {
      assert a + b == b;
    } else {
      var p, t := a[0], a[1..];
      assert a == [p] + t && a + b == [p] + (t + b);
      WithoutConcat(t, b, id);
      WithoutCons(p, t + b, id);
      WithoutCons(p, t, id);
    }
  }

  lemma {:induction false} WithoutAbsent(ps: seq<Panel>, id: string)
    requires !HasId(ps, id)
    ensures Without(ps, id) == ps
  {
    if ps == [] {
    } else {
      HasIdConcat([ps[0]], ps[1..], id);
      assert [ps[0]] + ps[1..] == ps;
      assert [ps[0]][0].id == ps[0].id;
      WithoutAbsent(ps[1..], id);
    }
  }

  lemma DistinctConcat(a: seq<Panel>, b: seq<Panel>)
    requires DistinctIds(a + b)
    ensures DistinctIds(a) && DistinctIds(b)
    ensures forall i, j | 0 <= i < |a| && 0 <= j < |b| :: a[i].id != b[j].id
  {
    forall i, j | 0 <= i < j < |a| ensures a[i].id != a[j].id {
      assert (a + b)[i].id != (a + b)[j].id;
    }
    forall i, j | 0 <= i < j < |b| ensures b[i].id != b[j].id {
      assert (a + b)[|a| + i].id != (a + b)[|a| + j].id;
    }
    forall i, j | 0 <= i < |a| && 0 <= j < |b| ensures a[i].id != b[j].id {
      assert (a + b)[i].id != (a + b)[|a| + j].id;
    }
  }

  // ── Removal takes exactly the one leaf out ──────────────────────────────────

  lemma NormaliseKeepsLeaves(c: Node)
    ensures LeavesOf(Normalise(c)) == Leaves(c)
  {
    if c.Leaf? || |c.children| > 1 {
      assert LeavesOf([c]) == Leaves(c) + LeavesOf([]);
    }
  }

  lemma WithoutMiddle(a: seq<Panel>, p: Panel, b: seq<Panel>)
    requires DistinctIds(a + [p] + b)
    ensures Without(a + [p] + b, p.id) == a + b
  {
    DistinctConcat(a + [p], b);
    DistinctConcat(a, [p]);
    assert (a + [p])[|a|] == p && [p][0] == p;
    WithoutConcat(a + [p], b, p.id);
    WithoutConcat(a, [p], p.id);
    WithoutAbsent(a, p.id);
    WithoutAbsent(b, p.id);
    assert Without([p], p.id) == [];
  }

  // Taking the direct leaf at k out of a list of children.
  lemma RemoveDirect(cs: seq<Node>, k: nat, id: string)
    requires k < |cs| && IsLeafOf(cs[k], id) && DistinctIds(LeavesOf(cs))
    ensures LeavesOf(RemoveAt(cs, k)) == Without(LeavesOf(cs), id)
  {
    LeavesSplitAt(cs, k);
    LeavesConcat(cs[..k], cs[k + 1..]);
    WithoutMiddle(LeavesOf(cs[..k]), cs[k].panel, LeavesOf(cs[k + 1..]));
  }

  /** On a tree with distinct panel ids, removal takes out exactly that leaf and keeps the order
      of all others; on a tree without the leaf (or that is the leaf) it changes nothing. */
  lemma {:induction false} RemoveLeafLeaves(n: Node, id: string)
    requires DistinctIds(Leaves(n))
    ensures var (n', removed) := RemoveLeaf(n, id);
            && removed == (Has(n, id) && !n.Leaf?)
            && (removed ==> Leaves(n') == Without(Leaves(n), id))
            && (!removed ==> n' == n)
    decreases n, 1
  {
    if !n.Leaf? {
      var cs := n.children;
      var k := DirectLeaf(cs, id);
      if k < |cs| {
        RemoveDirect(cs, k, id);
        LeavesSplitAt(cs, k);
        assert Leaves(n)[|LeavesOf(cs[..k])|].id == id;
      } else {
        RemoveFromChildrenLeaves(cs, id);
      }
    }
  }

  lemma {:induction false} RemoveFromChildrenLeaves(cs: seq<Node>, id: string)
    requires DistinctIds(LeavesOf(cs)) && DirectLeaf(cs, id) == |cs|
    ensures var (cs', removed) := RemoveFromChildren(cs, id);
            && removed == HasId(LeavesOf(cs), id)
            && (removed ==> LeavesOf(cs') == Without(LeavesOf(cs), id))
            && (!removed ==> cs' == cs)
    decreases cs, 0
  {
    if cs == [] {
    } else {
      var a, b := Leaves(cs[0]), LeavesOf(cs[1..]);
      DistinctConcat(a, b);
      HasIdConcat(a, b, id);
      WithoutConcat(a, b, id);
      assert !IsLeafOf(cs[0], id);
      RemoveLeafLeaves(cs[0], id);
      RemoveFromChildrenLeaves(cs[1..], id);
      var (c, removed) := RemoveLeaf(cs[0], id);
      var (rest, removedLater) := RemoveFromChildren(cs[1..], id);
      if !HasId(a, id) { WithoutAbsent(a, id); }
      if !HasId(b, id) { WithoutAbsent(b, id); }
      NormaliseKeepsLeaves(c);
      LeavesConcat(if removed then Normalise(c) else [c], rest);
      assert LeavesOf([c]) == Leaves(c) + LeavesOf([]);
    }
  }

  // ── When removal keeps the structural rules ─────────────────────────────────

  /** A chain of one-tab groups with the leaf at its end: removing the leaf empties all of it. */
  predicate Vanishes(n: Node, id: string) {
    n.Tabs? && |n.children| == 1 && (IsLeafOf(n.children[0], id) || Vanishes(n.children[0], id))
  }

  /** Removing the leaf below the nested node `n` leaves a valid node behind: on the way to the
      leaf no tab group loses a whole child while its active tab is the last of three or more. */
  predicate Clean(n: Node, id: string) {
    match n
    case Leaf(_) => true
    case Split(_, cs) =>
      DirectLeaf(cs, id) < |cs| || forall c | c in cs && Has(c, id) :: Vanishes(c, id) || Clean(c, id)
    case Tabs(active, cs) =>
      DirectLeaf(cs, id) < |cs|
      || forall c | c in cs && Has(c, id) ::
           if Vanishes(c, id) then |cs| <= 2 || active < |cs| - 1 else Clean(c, id)
  }

  /** The same for the root of a window, which removal does not normalise. */
  predicate RootClean(n: Node, id: string) {
    match n
    case Leaf(_) => true
    case Split(_, cs) =>
      DirectLeaf(cs, id) < |cs| || forall c | c in cs && Has(c, id) :: Vanishes(c, id) || Clean(c, id)
    case Tabs(active, cs) =>
      if DirectLeaf(cs, id) < |cs| then |cs| >= 2
      else forall c | c in cs && Has(c, id) ::
             if Vanishes(c, id) then active < |cs| - 1 else Clean(c, id)
  }

  lemma {:induction false} NoneBelow(cs: seq<Node>, id: string)
    requires !HasId(LeavesOf(cs), id)
    ensures forall c | c in cs :: !Has(c, id)
  {
    if cs == [] {
    } else {
      HasIdConcat(Leaves(cs[0]), LeavesOf(cs[1..]), id);
      NoneBelow(cs[1..], id);
    }
  }

  /** The k-th child, a container, is the only one with the leaf below it. */
  predicate Holder(cs: seq<Node>, id: string, k: nat) {
    && k < |cs| && Has(cs[k], id) && !cs[k].Leaf?
    && forall j | 0 <= j < |cs| && j != k :: !Has(cs[j], id)
  }

  lemma {:induction false} HolderExists(cs: seq<Node>, id: string) returns (k: nat)
    requires DistinctIds(LeavesOf(cs)) && DirectLeaf(cs, id) == |cs| && HasId(LeavesOf(cs), id)
    ensures Holder(cs, id, k)
  {
    DistinctConcat(Leaves(cs[0]), LeavesOf(cs[1..]));
    HasIdConcat(Leaves(cs[0]), LeavesOf(cs[1..]), id);
    if Has(cs[0], id) {
      k := 0;
      NoneBelow(cs[1..], id);
      assert forall j | 0 < j < |cs| :: cs[j] == cs[1..][j - 1];
    } else {
      var k' := HolderExists(cs[1..], id);
      k := k' + 1;
      assert forall j | 0 < j < |cs| :: cs[j] == cs[1..][j - 1];
    }
  }

  lemma SkipHead(cs: seq<Node>, id: string)
    requires cs != [] && DistinctIds(Leaves(cs[0])) && !Has(cs[0], id)
    ensures RemoveFromChildren(cs, id).0 == [cs[0]] + RemoveFromChildren(cs[1..], id).0
  {
    RemoveLeafLeaves(cs[0], id);
  }

  lemma TakeHead(cs: seq<Node>, id: string)
    requires cs != [] && DistinctIds(LeavesOf(cs)) && DirectLeaf(cs, id) == |cs| && Has(cs[0], id)
    requires !HasId(LeavesOf(cs[1..]), id)
    ensures RemoveFromChildren(cs, id).0 == Normalise(RemoveLeaf(cs[0], id).0) + cs[1..]
  {
    DistinctConcat(Leaves(cs[0]), LeavesOf(cs[1..]));
    assert !IsLeafOf(cs[0], id);
    RemoveLeafLeaves(cs[0], id);
    RemoveFromChildrenLeaves(cs[1..], id);
  }

  /** With distinct ids that child alone is replaced. */
  lemma {:induction false} RemoveBelow(cs: seq<Node>, id: string, k: nat)
    requires DistinctIds(LeavesOf(cs)) && DirectLeaf(cs, id) == |cs| && Holder(cs, id, k)
    ensures RemoveFromChildren(cs, id).0 == cs[..k] + Normalise(RemoveLeaf(cs[k], id).0) + cs[k + 1..]
  {
    DistinctConcat(Leaves(cs[0]), LeavesOf(cs[1..]));
    assert forall j | 0 < j < |cs| :: cs[j] == cs[1..][j - 1];
    if k == 0 {
      HoldersTail(cs[1..], id);
      TakeHead(cs, id);
    } else {
      SkipHead(cs, id);
      RemoveBelow(cs[1..], id, k - 1);
      HeadBack(cs, k, Normalise(RemoveLeaf(cs[k], id).0));
    }
  }

  lemma HeadBack(cs: seq<Node>, k: nat, mid: seq<Node>)
    requires 0 < k < |cs|
    ensures [cs[0]] + (cs[1..][..k - 1] + mid + cs[1..][k..]) == cs[..k] + mid + cs[k + 1..]
  {
    assert cs[1..][k..] == cs[k + 1..];
    assert [cs[0]] + cs[1..][..k - 1] == cs[..k];
  }

  lemma {:induction false} HoldersTail(cs: seq<Node>, id: string)
    requires forall j | 0 <= j < |cs| :: !Has(cs[j], id)
    ensures !HasId(LeavesOf(cs), id)
  {
    if cs == [] {
    } else {
      HasIdConcat(Leaves(cs[0]), LeavesOf(cs[1..]), id);
      HoldersTail(cs[1..], id);
    }
  }

  lemma {:induction false} HolderDistinct(cs: seq<Node>, k: nat)
    requires DistinctIds(LeavesOf(cs)) && k < |cs|
    ensures DistinctIds(Leaves(cs[k]))
  {
    DistinctConcat(Leaves(cs[0]), LeavesOf(cs[1..]));
    if k == 0 {
    } else {
      HolderDistinct(cs[1..], k - 1);
    }
  }

  // The rule for a child list that loses, keeps or has replaced its k-th child.
  lemma Respliced(cs: seq<Node>, k: nat, mid: seq<Node>)
    requires k < |cs| && forall c | c in cs :: ValidNode(c)
    ensures var cs' := cs[..k] + mid + cs[k + 1..];
            && |cs'| == |cs| - 1 + |mid|
            && ((forall c | c in cs' :: ValidNode(c)) <==> (forall c | c in mid :: ValidNode(c)))
  {
    var cs' := cs[..k] + mid + cs[k + 1..];
    forall c | c in mid ensures c in cs' {
      var i :| 0 <= i < |mid| && mid[i] == c;
      assert cs'[k + i] == c;
    }
  }

  lemma DirectIsLeafOnly(cs: seq<Node>, d: nat, id: string)
    requires d < |cs| && d == DirectLeaf(cs, id)
    ensures |cs| == 1 ==> IsLeafOf(cs[0], id)
  {
  }

  lemma DirectRemoval(n: Node, id: string)
    requires !n.Leaf? && forall c | c in n.children :: ValidNode(c)
    requires DirectLeaf(n.children, id) < |n.children|
    ensures var n' := RemoveLeaf(n, id).0;
            && !n'.Leaf? && n'.Split? == n.Split? && |n'.children| == |n.children| - 1
            && (forall c | c in n'.children :: ValidNode(c))
            && (n.Tabs? && n'.children != [] && n.active < |n.children| ==> n'.active < |n'.children|)
  {
    var cs, d := n.children, DirectLeaf(n.children, id);
    assert RemoveAt(cs, d) == cs[..d] + [] + cs[d + 1..];
    Respliced(cs, d, []);
  }

  lemma BelowRemoval(n: Node, id: string, k: nat)
    requires !n.Leaf? && DistinctIds(Leaves(n)) && DirectLeaf(n.children, id) == |n.children|
    requires Holder(n.children, id, k) && forall c | c in n.children :: ValidNode(c)
    ensures var n', mid := RemoveLeaf(n, id).0, Normalise(RemoveLeaf(n.children[k], id).0);
            && !n'.Leaf? && n'.Split? == n.Split? && |n'.children| == |n.children| - 1 + |mid|
            && ((forall c | c in n'.children :: ValidNode(c)) <==> (forall c | c in mid :: ValidNode(c)))
            && (n.Tabs? ==> n'.active == n.active)
            && (|n.children| == 1 ==> n'.children == mid)
  {
    var cs := n.children;
    RemoveBelow(cs, id, k);
    Respliced(cs, k, Normalise(RemoveLeaf(cs[k], id).0));
  }

  /** What a removal leaves of a container: of a tab or pane that is one of its children, the others in
      order; of one further down, the child that held it replaced by what the removal leaves of that
      child, by its only child if it has but one, and by nothing if it has none. Everything else, the
      direction of splits and the number of the active tab included, is as it was, but that number
      never exceeds the last tab. */
  lemma RemovalShape(n: Node, id: string) returns (k: nat)
    requires !n.Leaf? && DistinctIds(Leaves(n)) && Has(n, id)
    ensures k < |n.children| && Has(n.children[k], id)
    ensures var n', child, left := RemoveLeaf(n, id).0, n.children[k], RemoveLeaf(n.children[k], id).0;
            && n'.Split? == n.Split? && !n'.Leaf? && (n.Split? ==> n'.direction == n.direction)
            && n'.children == n.children[..k]
                 + (if child.Leaf? then [] else if !left.Leaf? && |left.children| <= 1 then left.children else [left])
                 + n.children[k + 1..]
            && (n.Tabs? && (!child.Leaf? || n.active < |n'.children|) ==> n'.active == n.active)
            && (n.Tabs? && child.Leaf? && n.active >= |n'.children| > 0 ==> n'.active == |n'.children| - 1)
  {
    var cs := n.children;
    k := DirectLeaf(cs, id);
    if k < |cs| {
      LeavesSplitAt(cs, k);
      assert Leaves(cs[k])[0].id == id;
      assert cs[..k] + [] + cs[k + 1..] == RemoveAt(cs, k);
    } else {
      k := HolderExists(cs, id);
      RemoveBelow(cs, id, k);
    }
  }

  /** Which tab is shown when one of several is taken away: the same as before if it stood in front of it,
      or at the very end; otherwise the one behind, and the one in front if there is none behind. So a
      tab removed in front of the active one moves the selection on. */
  lemma ActiveTabAfter(n: Node, id: string)
    requires n.Tabs? && n.active < |n.children| && |n.children| > 1 && DirectLeaf(n.children, id) < |n.children|
    ensures var n', cs, a, k := RemoveLeaf(n, id).0, n.children, n.active, DirectLeaf(n.children, id);
            && n'.Tabs? && n'.active < |n'.children|
            && n'.children[n'.active]
               == if a < k || (k < a && a == |cs| - 1) then cs[a] else if a + 1 < |cs| then cs[a + 1] else cs[a - 1]
  {
  }

  // A statement about every child that holds the leaf is one about the k-th.
  lemma OnlyHolder(cs: seq<Node>, k: nat, id: string)
    requires Holder(cs, id, k)
    ensures forall c | c in cs && Has(c, id) :: c == cs[k]
    ensures cs[k] in cs
  {
  }

  lemma CleanBelow(n: Node, k: nat, id: string)
    requires !n.Leaf? && Holder(n.children, id, k) && DirectLeaf(n.children, id) == |n.children|
    ensures var cs := n.children;
            && (n.Split? ==> (Clean(n, id) <==> Vanishes(cs[k], id) || Clean(cs[k], id)))
            && (n.Tabs? ==> (Clean(n, id) <==>
                 if Vanishes(cs[k], id) then |cs| <= 2 || n.active < |cs| - 1 else Clean(cs[k], id)))
            && (n.Split? ==> (RootClean(n, id) <==> Vanishes(cs[k], id) || Clean(cs[k], id)))
            && (n.Tabs? ==> (RootClean(n, id) <==>
                 if Vanishes(cs[k], id) then n.active < |cs| - 1 else Clean(cs[k], id)))
  {
    OnlyHolder(n.children, k, id);
  }

  /** What is left of a valid nested node once the leaf below it is gone and the parent has
      normalised it: nothing exactly when the node was a chain to the leaf, and otherwise one
      node, valid exactly when the node was clean. */
  lemma {:induction false} RemovalNested(n: Node, id: string)
    requires ValidNode(n) && DistinctIds(Leaves(n)) && Has(n, id) && !n.Leaf?
    ensures var left := Normalise(RemoveLeaf(n, id).0);
            && |left| <= 1
            && (left == [] <==> Vanishes(n, id))
            && (left != [] ==> (ValidNode(left[0]) <==> Clean(n, id)))
    decreases n
  {
    var cs := n.children;
    if DirectLeaf(cs, id) < |cs| {
      DirectRemoval(n, id);
      DirectIsLeafOnly(cs, DirectLeaf(cs, id), id);
    } else {
      var k := HolderExists(cs, id);
      HolderDistinct(cs, k);
      RemovalNested(cs[k], id);
      BelowRemoval(n, id, k);
      CleanBelow(n, k, id);
    }
  }

  /** A window root without the leaf obeys the rules exactly when it was clean at its root. */
  lemma RemovalAtRoot(n: Node, id: string)
    requires ValidRoot(n) && DistinctIds(Leaves(n)) && Has(n, id) && !n.Leaf?
    ensures ValidRoot(RemoveLeaf(n, id).0) <==> RootClean(n, id)
  {
    var cs := n.children;
    if DirectLeaf(cs, id) < |cs| {
      DirectRemoval(n, id);
    } else {
      RemovalBelowRoot(n, id);
    }
  }

  lemma RemovalBelowRoot(n: Node, id: string)
    requires ValidRoot(n) && DistinctIds(Leaves(n)) && Has(n, id) && !n.Leaf? && DirectLeaf(n.children, id) == |n.children|
    ensures ValidRoot(RemoveLeaf(n, id).0) <==> RootClean(n, id)
  {
    var k := HolderExists(n.children, id);
    HolderDistinct(n.children, k);
    RemovalNested(n.children[k], id);
    BelowRemoval(n, id, k);
    CleanBelow(n, k, id);
  }
}
