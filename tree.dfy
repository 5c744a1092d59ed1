/** Paths, points and ranges over the editing tree; the tree walks the editing rules rely
    on (`Node.get`, `Editor.nodes`, `Editor.above`, `Editor.end`); and the structural edits
    they perform, each applied to the children list that a parent path addresses. */
module Tree {
  import opened Wrappers
  import opened Types

  /** The child indices from the top-level node list down to a node. */
  type Path = seq<nat>

  /** `Node.get`/`Node.has`: the node at path p under the top-level nodes; None when p is
      empty (the editor itself) or leaves the tree. */
  function NodeAt(ns: seq<Node>, p: Path): Option<Node>
    decreases |p|
  {
    if p == [] || p[0] >= |ns| then None
    else if |p| == 1 then Some(ns[p[0]])
    else match ns[p[0]]
      case Text(_, _, _) => None
      case Element(_, ch) => NodeAt(ch, p[1..])
  }

  /** The children list a parent path addresses: the top-level nodes for [], an element's
      children otherwise. */
  function ChildrenAt(ns: seq<Node>, pp: Path): Option<seq<Node>>
  {
    if pp == [] then Some(ns)
    else match NodeAt(ns, pp)
      case Some(Element(_, ch)) => Some(ch)
      case _ => None
  }

  lemma {:induction false} NodeAtChild(ns: seq<Node>, pp: Path, i: nat)
    ensures NodeAt(ns, pp + [i]) ==
      (match ChildrenAt(ns, pp)
       case Some(s) => if i < |s| then Some(s[i]) else None
       case None => None)
    decreases |pp|
  {
    if pp != [] && pp[0] < |ns| && ns[pp[0]].Element? {
      assert (pp + [i])[1..] == pp[1..] + [i];
      NodeAtChild(ns[pp[0]].children, pp[1..], i);
    }
  }

  /** Every ancestor of an existing node exists. */
  lemma {:induction false} PrefixExists(ns: seq<Node>, p: Path, q: Path)
    requires q != [] && q <= p && NodeAt(ns, p).Some?
    ensures NodeAt(ns, q).Some?
    decreases |p|
  {
    if |q| > 1 {
      PrefixExists(ns[p[0]].children, p[1..], q[1..]);
    }
  }

  function Parent(p: Path): Path
    requires p != []
  {
    p[..|p| - 1]
  }

  function Index(p: Path): nat
    requires p != []
  {
    p[|p| - 1]
  }

  /** A node's parent path addresses the children list that holds it, at its index. */
  lemma ParentList(ns: seq<Node>, p: Path)
    requires p != [] && NodeAt(ns, p).Some?
    ensures ChildrenAt(ns, Parent(p)).Some?
    ensures Index(p) < |ChildrenAt(ns, Parent(p)).value|
    ensures ChildrenAt(ns, Parent(p)).value[Index(p)] == NodeAt(ns, p).value
  {
    assert Parent(p) + [Index(p)] == p;
    NodeAtChild(ns, Parent(p), Index(p));
  }

  /** `Path.compare`: -1 when p lies entirely before q in document order, 1 when entirely
      after, and 0 when one is an ancestor of (or equal to) the other. */
  function Compare(p: Path, q: Path): (r: int)
    ensures -1 <= r <= 1
    ensures r == 0 <==> (p <= q || q <= p)
    decreases |p|
  {
    if p == [] || q == [] then 0
    else if p[0] < q[0] then -1
    else if p[0] > q[0] then 1
    else
      var r := Compare(p[1..], q[1..]);
      assert p <= q <==> p[1..] <= q[1..];
      assert q <= p <==> q[1..] <= p[1..];
      r
  }

  /** `Path.common`: the longest path that is an ancestor-or-self of both. */
  function Common(p: Path, q: Path): (c: Path)
    ensures c <= p && c <= q
    ensures |c| == |p| || |c| == |q| || p[|c|] != q[|c|]
    decreases |p|
  {
    if p == [] || q == [] || p[0] != q[0] then []
    else [p[0]] + Common(p[1..], q[1..])
  }

  /** A position in a text leaf. */
  datatype Point = Point(path: Path, offset: nat)

  /** The selection: an anchor and a focus point. */
  datatype Range = Range(anchor: Point, focus: Point)

  /** `Point.compare`: by path, then by offset. */
  function ComparePoints(a: Point, b: Point): (r: int)
    ensures -1 <= r <= 1
    ensures r == 0 <==> Compare(a.path, b.path) == 0 && a.offset == b.offset
  {
    var c := Compare(a.path, b.path);
    if c != 0 then c
    else if a.offset < b.offset then -1
    else if a.offset > b.offset then 1
    else 0
  }

  /** `Range.isCollapsed`: anchor and focus are the same point. */
  predicate IsCollapsed(r: Range)
  {
    r.anchor == r.focus
  }

  predicate IsBackward(r: Range)
  {
    ComparePoints(r.anchor, r.focus) == 1
  }

  /** `Range.start` and `Range.end`: the earlier and the later of the two points. */
  function Start(r: Range): Point
  {
    if IsBackward(r) then r.focus else r.anchor
  }

  function End(r: Range): Point
  {
    if IsBackward(r) then r.anchor else r.focus
  }

  /** The nodes `Editor.nodes(at: r)` visits: every node not entirely before the range's
      start and not entirely after its end, which includes the ancestors of both ends. */
  predicate InSpan(p: Path, r: Range)
  {
    Compare(p, Start(r).path) >= 0 && Compare(p, End(r).path) <= 0
  }

  /** Every path of the tree, in document (pre-)order: a node, then its descendants, then
      its later siblings. `PathsFrom(ns, k)` lists the nodes ns[k..] and their descendants. */
  function PathsFrom(ns: seq<Node>, k: nat): seq<Path>
    requires k <= |ns|
    decreases ns, |ns| - k
  {
    if k == |ns| then [] else [[k]] + Prefixed(k, ChildPaths(ns[k])) + PathsFrom(ns, k + 1)
  }

  function ChildPaths(n: Node): seq<Path>
    decreases n
  {
    match n
    case Text(_, _, _) => []
    case Element(_, ch) => PathsFrom(ch, 0)
  }

  function Prefixed(k: nat, ps: seq<Path>): (r: seq<Path>)
    ensures forall p :: p in r <==> p != [] && p[0] == k && p[1..] in ps
  {
    var r := seq(|ps|, i requires 0 <= i < |ps| => [k] + ps[i]);
    assert forall i :: 0 <= i < |ps| ==> r[i][1..] == ps[i];
    assert forall p :: p != [] && p[0] == k && p[1..] in ps ==> p == [k] + p[1..];
    r
  }

  function AllPaths(ns: seq<Node>): seq<Path>
  {
    PathsFrom(ns, 0)
  }

  lemma {:induction false} PathsFromExact(ns: seq<Node>, k: nat, p: Path)
    requires k <= |ns|
    ensures p in PathsFrom(ns, k) <==> p != [] && k <= p[0] && NodeAt(ns, p).Some?
    decreases ns, |ns| - k
  {
    if k < |ns| {
      var cs := ChildPaths(ns[k]);
      assert PathsFrom(ns, k) == [[k]] + Prefixed(k, cs) + PathsFrom(ns, k + 1);
      PathsFromExact(ns, k + 1, p);
      if p == [] {
      } else if p[0] != k {
        assert p !in Prefixed(k, cs) && p != [k];
      } else if |p| == 1 {
        assert p == [k];
      } else {
        ChildPathsExact(ns[k], p[1..]);
        assert NodeAt(ns, p) == (if ns[k].Element? then NodeAt(ns[k].children, p[1..]) else None);
        assert p != [k] && p !in PathsFrom(ns, k + 1);
        assert p in Prefixed(k, cs) <==> p[1..] in cs;
      }
    }
  }

  lemma {:induction false} ChildPathsExact(n: Node, q: Path)
    ensures q in ChildPaths(n) <==> n.Element? && NodeAt(n.children, q).Some?
    decreases n
  {
    if n.Element? {
      PathsFromExact(n.children, 0, q);
    }
  }

  /** The tree's paths are exactly the paths that address a node. */
  lemma AllPathsExact(ns: seq<Node>)
    ensures forall p :: p in AllPaths(ns) <==> NodeAt(ns, p).Some?
  {
    forall p ensures p in AllPaths(ns) <==> NodeAt(ns, p).Some? {
      PathsFromExact(ns, 0, p);
    }
  }

  /** The node at p exists and the match accepts it. */
  predicate Matches(ns: seq<Node>, p: Path, pred: Node -> bool)
  {
    NodeAt(ns, p).Some? && pred(NodeAt(ns, p).value)
  }

  /** A node the range touches and the match accepts. */
  predicate Hit(ns: seq<Node>, p: Path, r: Range, pred: Node -> bool)
  {
    InSpan(p, r) && Matches(ns, p, pred)
  }

  function Select(ns: seq<Node>, ps: seq<Path>, r: Range, pred: Node -> bool): (out: seq<Path>)
    ensures forall q :: q in out <==> q in ps && Hit(ns, q, r, pred)
  {
    if ps == [] then []
    else (if Hit(ns, ps[0], r, pred) then [ps[0]] else []) + Select(ns, ps[1..], r, pred)
  }

  /** `Editor.nodes(at: r, match: pred)`: the paths of the matching nodes the range touches,
      in document order. */
  function NodesIn(ns: seq<Node>, r: Range, pred: Node -> bool): (out: seq<Path>)
    ensures forall q :: q in out <==> Hit(ns, q, r, pred)
  {
    AllPathsExact(ns);
    Select(ns, AllPaths(ns), r, pred)
  }

  /** The first entry `Editor.nodes` yields (`const [entry] = Editor.nodes(...)`), or None
      when there is no selection to search or nothing matches. */
  function FirstIn(ns: seq<Node>, sel: Option<Range>, pred: Node -> bool): (res: Option<Path>)
    ensures res.Some? ==> sel.Some? && Hit(ns, res.value, sel.value, pred)
    ensures res.None? <==> sel.None? || forall q :: !Hit(ns, q, sel.value, pred)
  {
    match sel
    case None => None
    case Some(r) =>
      var ps := NodesIn(ns, r, pred);
      if ps == [] then None
      else
        assert ps[0] in ps;
        Some(ps[0])
  }

  /** Where `Editor.above` starts looking: the parent of the node holding a range whose two
      points are in one node, and the common ancestor of a range across nodes. */
  function AboveFrom(r: Range): Option<Path>
  {
    if r.anchor.path == r.focus.path then
      if r.anchor.path == [] then None else Some(Parent(r.anchor.path))
    else Some(Common(r.anchor.path, r.focus.path))
  }

  /** The lowest ancestor-or-self of p that exists and matches. */
  function Lowest(ns: seq<Node>, p: Path, pred: Node -> bool): (res: Option<Path>)
    ensures res.Some? ==> res.value <= p && Matches(ns, res.value, pred)
    ensures res.Some? ==> forall j :: |res.value| < j <= |p| ==> !Matches(ns, p[..j], pred)
    ensures res.None? ==> forall j :: 0 <= j <= |p| ==> !Matches(ns, p[..j], pred)
    decreases |p|
  {
    if p == [] then None
    else if Matches(ns, p, pred) then Some(p)
    else
      var res := Lowest(ns, Parent(p), pred);
      assert forall j :: 0 <= j < |p| ==> p[..j] == Parent(p)[..j];
      assert p[..|p|] == p;
      res
  }

  /** `Editor.above(match: pred)` at the selection: the nearest matching ancestor. */
  function Above(ns: seq<Node>, sel: Option<Range>, pred: Node -> bool): Option<Path>
  {
    match sel
    case None => None
    case Some(r) =>
      match AboveFrom(r)
      case None => None
      case Some(b) => Lowest(ns, b, pred)
  }

  /** `Node.last` from node n at path p, then `Editor.end`: the end of the last text leaf
      below n. None when the walk reaches an element without children, where `Editor.end`
      throws. */
  function LastLeafEnd(n: Node, p: Path): (res: Option<Point>)
    ensures res.Some? ==> p <= res.value.path
    decreases n
  {
    match n
    case Text(t, _, _) => Some(Point(p, |t|))
    case Element(_, ch) =>
      if ch == [] then None else LastLeafEnd(ch[|ch| - 1], p + [|ch| - 1])
  }

  /** `Editor.end(editor, p)`. */
  function EndOf(ns: seq<Node>, p: Path): Option<Point>
  {
    match NodeAt(ns, p)
    case None => None
    case Some(n) => LastLeafEnd(n, p)
  }

  // ---------------------------------------------------------------------------------
  // Structural edits. Each works on one children list, addressed by its parent path.

  /** One edit of a children list. */
  datatype Edit =
    | RemoveChild(i: nat)                 // removeNodes at the child's path
    | InsertChild(i: nat, n: Node)        // insertNodes at the child's path
    | SetKind(i: nat, k: ElementKind)     // setNodes({type, ...}) on the child
    | MergeChild(i: nat)                  // mergeNodes at the child's path
    | LiftChild(i: nat, j: nat)           // liftNodes on child j of child i
    | SplitText(i: nat, o: nat)           // splitNodes inside text leaf i at offset o
    | ReplaceChildren(i: nat, ch: seq<Node>) // child i's children become ch (an unwrap below it)

  /** The effect of an edit on a children list. An edit whose index does not fit changes
      nothing. `MergeChild` appends the children of element s[i] to those of element
      s[i-1], which keeps its attributes, and removes s[i]. `LiftChild` splits element
      s[i] around its child j, which moves up between the two parts; a part that would
      have no children is not kept. `SplitText` cuts text leaf s[i] in two at offset o, both
      halves keeping its marks. */
  function ApplyEdit(s: seq<Node>, e: Edit): seq<Node>
  {
    match e
    case RemoveChild(i) => if i < |s| then s[..i] + s[i + 1..] else s
    case InsertChild(i, n) => if i <= |s| then s[..i] + [n] + s[i..] else s
    case SetKind(i, k) => if i < |s| && s[i].Element? then s[i := Element(k, s[i].children)] else s
    case MergeChild(i) =>
      if 0 < i < |s| && s[i - 1].Element? && s[i].Element? then
        s[..i - 1] + [Element(s[i - 1].kind, s[i - 1].children + s[i].children)] + s[i + 1..]
      else s
    case LiftChild(i, j) =>
      if i < |s| && s[i].Element? && j < |s[i].children| then
        var k, ch := s[i].kind, s[i].children;
        s[..i] + Part(k, ch[..j]) + [ch[j]] + Part(k, ch[j + 1..]) + s[i + 1..]
      else s
    case SplitText(i, o) =>
      if i < |s| && s[i].Text? && o <= |s[i].text| then
        var t, b, it := s[i].text, s[i].bold, s[i].italic;
        s[..i] + [Text(t[..o], b, it), Text(t[o..], b, it)] + s[i + 1..]
      else s
    case ReplaceChildren(i, ch) =>
      if i < |s| && s[i].Element? then s[i := Element(s[i].kind, ch)] else s
  }

  // One lemma per edit that needs it, so that proofs about one edit need not unfold the
  // others.

  lemma InsertChildEdit(s: seq<Node>, i: nat, n: Node)
    requires i <= |s|
    ensures ApplyEdit(s, InsertChild(i, n)) == s[..i] + [n] + s[i..]
  {
  }

  lemma SetKindEdit(s: seq<Node>, i: nat, k: ElementKind)
    requires i < |s| && s[i].Element?
    ensures ApplyEdit(s, SetKind(i, k)) == s[i := Element(k, s[i].children)]
  {
  }

  lemma LiftChildEdit(s: seq<Node>, i: nat, j: nat)
    requires i < |s| && s[i].Element? && j < |s[i].children|
    ensures var k, ch := s[i].kind, s[i].children;
      ApplyEdit(s, LiftChild(i, j)) == s[..i] + Part(k, ch[..j]) + [ch[j]] + Part(k, ch[j + 1..]) + s[i + 1..]
  {
  }

  lemma SplitTextEdit(s: seq<Node>, i: nat, o: nat)
    requires i < |s| && s[i].Text? && o <= |s[i].text|
    ensures var t, b, it := s[i].text, s[i].bold, s[i].italic;
      ApplyEdit(s, SplitText(i, o)) == s[..i] + [Text(t[..o], b, it), Text(t[o..], b, it)] + s[i + 1..]
  {
  }

  /** Whether a list sits among ns or anywhere below them. */
  predicate HasList(ns: seq<Node>)
    decreases ns
  {
    ns != [] && ((ns[0].Element? && (ns[0].kind.List? || HasList(ns[0].children))) || HasList(ns[1..]))
  }

  /** `unwrapNodes(match: list)` in its default lowest mode over everything in ns: each list
      holding no list is replaced by its children, which move up into its place; every
      other node stays, with its own children unwrapped the same way. */
  function UnwrapLowest(ns: seq<Node>): seq<Node>
    decreases ns
  {
    if ns == [] then []
    else
      var n := ns[0];
      (if n.Text? then [n]
       else if n.kind.List? && !HasList(n.children) then n.children
       else [Element(n.kind, UnwrapLowest(n.children))])
      + UnwrapLowest(ns[1..])
  }

  /** The number of lists among ns and below them. */
  function ListCount(ns: seq<Node>): nat
    decreases ns
  {
    if ns == [] then 0
    else
      (if ns[0].Element? then (if ns[0].kind.List? then 1 else 0) + ListCount(ns[0].children) else 0)
      + ListCount(ns[1..])
  }

  lemma {:induction false} ListCountAppend(a: seq<Node>, b: seq<Node>)
    ensures ListCount(a + b) == ListCount(a) + ListCount(b)
    decreases |a|
  {
    if a == [] {
      assert a + b == b;
    } else {
      assert (a + b)[1..] == a[1..] + b;
      ListCountAppend(a[1..], b);
    }
  }

  /** There is a list among ns or below them exactly when the list count is positive. */
  lemma {:induction false} HasListCount(ns: seq<Node>)
    ensures HasList(ns) <==> ListCount(ns) > 0
    decreases ns
  {
    if ns != [] {
      if ns[0].Element? {
        HasListCount(ns[0].children);
      }
      HasListCount(ns[1..]);
    }
  }

  /** Without a list there is nothing to unwrap. */
  lemma {:induction false} UnwrapLowestNoList(ns: seq<Node>)
    requires !HasList(ns)
    ensures UnwrapLowest(ns) == ns
    decreases ns
  {
    if ns != [] {
      if ns[0].Element? {
        UnwrapLowestNoList(ns[0].children);
      }
      UnwrapLowestNoList(ns[1..]);
      assert ns == [ns[0]] + ns[1..];
    }
  }

  /** Unwrapping never adds a list, and removes at least one when there is one. */
  lemma {:induction false} UnwrapLowestFewerLists(ns: seq<Node>)
    ensures ListCount(UnwrapLowest(ns)) <= ListCount(ns)
    ensures HasList(ns) ==> ListCount(UnwrapLowest(ns)) < ListCount(ns)
    decreases ns
  {
    if ns != [] {
      var n := ns[0];
      UnwrapLowestFewerLists(ns[1..]);
      var head := if n.Text? then [n]
                  else if n.kind.List? && !HasList(n.children) then n.children
                  else [Element(n.kind, UnwrapLowest(n.children))];
      ListCountAppend(head, UnwrapLowest(ns[1..]));
      if n.Element? {
        HasListCount(n.children);
        if !(n.kind.List? && !HasList(n.children)) {
          UnwrapLowestFewerLists(n.children);
          assert [Element(n.kind, UnwrapLowest(n.children))][1..] == [];
        }
      } else {
        assert [n][1..] == [];
      }
    }
  }

  /** An element of kind k holding ch, or nothing when ch is empty. */
  function Part(k: ElementKind, ch: seq<Node>): seq<Node>
  {
    if ch == [] then [] else [Element(k, ch)]
  }

  /** Apply an edit to the children list at parent path pp; nothing changes when pp does not
      address an element (or the top level). */
  function EditAt(ns: seq<Node>, pp: Path, e: Edit): seq<Node>
    decreases |pp|
  {
    if pp == [] then ApplyEdit(ns, e)
    else if pp[0] >= |ns| || ns[pp[0]].Text? then ns
    else ns[pp[0] := Element(ns[pp[0]].kind, EditAt(ns[pp[0]].children, pp[1..], e))]
  }

  /** The edited children list is the edit applied to the old one. */
  lemma {:induction false} EditAtList(ns: seq<Node>, pp: Path, e: Edit)
    ensures ChildrenAt(ns, pp).Some? ==> ChildrenAt(EditAt(ns, pp, e), pp) == Some(ApplyEdit(ChildrenAt(ns, pp).value, e))
    ensures ChildrenAt(ns, pp).None? ==> EditAt(ns, pp, e) == ns
    decreases |pp|
  {
    if pp != [] && pp[0] < |ns| && ns[pp[0]].Element? && |pp| > 1 {
      EditAtList(ns[pp[0]].children, pp[1..], e);
    }
  }

  /** One level up: the parent's own list sees only the parent's children replaced. */
  lemma {:induction false} EditAtParentList(ns: seq<Node>, g: Path, i: nat, e: Edit)
    requires ChildrenAt(ns, g).Some? && i < |ChildrenAt(ns, g).value|
    requires ChildrenAt(ns, g).value[i].Element?
    ensures var s := ChildrenAt(ns, g).value;
      ChildrenAt(EditAt(ns, g + [i], e), g) == Some(s[i := Element(s[i].kind, ApplyEdit(s[i].children, e))])
    decreases |g|
  {
    if g == [] {
    } else {
      assert (g + [i])[1..] == g[1..] + [i];
      var ch := ns[g[0]].children;
      if |g| > 1 {
        EditAtParentList(ch, g[1..], i, e);
      } else {
        assert EditAt(ns, g + [i], e) == ns[g[0] := Element(ns[g[0]].kind, EditAt(ch, [i], e))];
        assert EditAt(ch, [i], e) == ch[i := Element(ch[i].kind, EditAt(ch[i].children, [], e))];
      }
    }
  }

  /** Nodes that are neither ancestors nor descendants of the edited list's parent are
      untouched. */
  lemma {:induction false} EditAtElsewhere(ns: seq<Node>, pp: Path, e: Edit, q: Path)
    requires Compare(q, pp) != 0
    ensures NodeAt(EditAt(ns, pp, e), q) == NodeAt(ns, q)
    decreases |pp|
  {
    if pp[0] < |ns| && ns[pp[0]].Element? && q[0] == pp[0] {
      EditAtElsewhere(ns[pp[0]].children, pp[1..], e, q[1..]);
    }
  }

  /** Relabelling changes the kind of the element at pp + [i] and nothing else: the same
      paths exist, text leaves are unchanged and every other element keeps its kind. */
  lemma {:induction false} SetKindShape(ns: seq<Node>, pp: Path, i: nat, k: ElementKind, q: Path)
    ensures var ns' := EditAt(ns, pp, SetKind(i, k));
      match NodeAt(ns, q)
      case None => NodeAt(ns', q).None?
      case Some(Text(_, _, _)) => NodeAt(ns', q) == NodeAt(ns, q)
      case Some(Element(k0, _)) =>
        NodeAt(ns', q).Some? && NodeAt(ns', q).value.Element?
        && NodeAt(ns', q).value.kind == (if q == pp + [i] then k else k0)
    decreases |pp|
  {
    if q == [] || q[0] >= |ns| {
    } else if pp == [] {
      if |q| > 1 && q[0] == i && i < |ns| && ns[i].Element? {
        assert NodeAt(ns[i := Element(k, ns[i].children)], q) == NodeAt(ns[i].children, q[1..]);
      }
    } else if pp[0] < |ns| && ns[pp[0]].Element? && q[0] == pp[0] && |q| > 1 {
      assert (q == pp + [i]) == (q[1..] == pp[1..] + [i]);
      SetKindShape(ns[pp[0]].children, pp[1..], i, k, q[1..]);
    }
  }
}
