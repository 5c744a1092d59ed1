/** The text of the document (`Node.string`) under the structural edits: relabelling,
    merging and lifting never change it. */
module Content {
  import opened Types
  import opened Tree

  lemma NodesStringSingle(x: Node)
    ensures NodesString([x]) == NodeString(x)
  {
    assert [x][1..] == [];
  }

  /** The text of a list is the text before a node, the node's, and the text after it. */
  lemma NodesStringAround(a: seq<Node>, x: Node, b: seq<Node>)
    ensures NodesString(a + [x] + b) == NodesString(a) + NodeString(x) + NodesString(b)
  {
    NodesStringAppend(a + [x], b);
    NodesStringAppend(a, [x]);
    NodesStringSingle(x);
  }

  /** Splitting a list around position j. */
  lemma NodesStringSplit(ch: seq<Node>, j: nat)
    requires j < |ch|
    ensures NodesString(ch) == NodesString(ch[..j]) + NodeString(ch[j]) + NodesString(ch[j + 1..])
  {
    var a, x, b := ch[..j], ch[j], ch[j + 1..];
    assert ch == a + ch[j..];
    assert ch[j..] == [x] + b;
    NodesStringAppend(a, ch[j..]);
    NodesStringAppend([x], b);
    NodesStringSingle(x);
  }

  lemma SetKindKeepsText(s: seq<Node>, i: nat, k: ElementKind)
    ensures NodesString(ApplyEdit(s, SetKind(i, k))) == NodesString(s)
  {
    if i < |s| && s[i].Element? {
      var s' := s[i := Element(k, s[i].children)];
      NodesStringSplit(s, i);
      NodesStringSplit(s', i);
      assert s'[..i] == s[..i];
      assert s'[i + 1..] == s[i + 1..];
    }
  }

  lemma MergeKeepsText(s: seq<Node>, i: nat)
    ensures NodesString(ApplyEdit(s, MergeChild(i))) == NodesString(s)
  {
    if 0 < i < |s| && s[i - 1].Element? && s[i].Element? {
      var l, r := s[..i - 1], s[i + 1..];
      var a, b := s[i - 1], s[i];
      var m := Element(a.kind, a.children + b.children);
      assert NodesString(s) == NodesString(l) + NodeString(a) + (NodeString(b) + NodesString(r)) by {
        assert s == l + [a] + ([b] + r);
        NodesStringAround(l, a, [b] + r);
        NodesStringAppend([b], r);
        NodesStringSingle(b);
      }
      assert NodeString(m) == NodeString(a) + NodeString(b) by {
        NodesStringAppend(a.children, b.children);
      }
      assert ApplyEdit(s, MergeChild(i)) == l + [m] + r;
      NodesStringAround(l, m, r);
    }
  }

  lemma PartText(k: ElementKind, ch: seq<Node>)
    ensures NodesString(Part(k, ch)) == NodesString(ch)
  {
    if ch != [] {
      NodesStringSingle(Element(k, ch));
    }
  }

  lemma Regroup(l: seq<Node>, b: seq<Node>, x: Node, a: seq<Node>, r: seq<Node>)
    ensures l + b + [x] + a + r == (l + b) + [x] + (a + r)
  {
  }

  lemma LiftText(l: seq<Node>, k: ElementKind, ch: seq<Node>, j: nat, r: seq<Node>)
    requires j < |ch|
    ensures NodesString(l + Part(k, ch[..j]) + [ch[j]] + Part(k, ch[j + 1..]) + r)
         == NodesString(l) + NodesString(ch) + NodesString(r)
  {
    var before, after := Part(k, ch[..j]), Part(k, ch[j + 1..]);
    var a, b, c, d, e := NodesString(l), NodesString(ch[..j]), NodeString(ch[j]), NodesString(ch[j + 1..]), NodesString(r);
    PartText(k, ch[..j]);
    PartText(k, ch[j + 1..]);
    Regroup(l, before, ch[j], after, r);
    NodesStringAround(l + before, ch[j], after + r);
    NodesStringAppend(l, before);
    NodesStringAppend(after, r);
    assert NodesString(l + before + [ch[j]] + after + r) == (a + b) + c + (d + e);
    NodesStringSplit(ch, j);
    assert NodesString(ch) == b + c + d;
  }

  lemma LiftKeepsText(s: seq<Node>, i: nat, j: nat)
    ensures NodesString(ApplyEdit(s, LiftChild(i, j))) == NodesString(s)
  {
    if i < |s| && s[i].Element? && j < |s[i].children| {
      LiftChildEdit(s, i, j);
      LiftText(s[..i], s[i].kind, s[i].children, j, s[i + 1..]);
      NodesStringSplit(s, i);
    }
  }

  /** Unwrapping the lowest lists moves their children up without changing the text. */
  lemma {:induction false} UnwrapLowestKeepsText(ns: seq<Node>)
    ensures NodesString(UnwrapLowest(ns)) == NodesString(ns)
    decreases ns
  {
    if ns != [] {
      var n := ns[0];
      UnwrapLowestKeepsText(ns[1..]);
      var head := if n.Text? then [n]
                  else if n.kind.List? && !HasList(n.children) then n.children
                  else [Element(n.kind, UnwrapLowest(n.children))];
      NodesStringAppend(head, UnwrapLowest(ns[1..]));
      if n.Text? {
        NodesStringSingle(n);
      } else if !(n.kind.List? && !HasList(n.children)) {
        UnwrapLowestKeepsText(n.children);
        NodesStringSingle(Element(n.kind, UnwrapLowest(n.children)));
      }
    }
  }

  /** Replacing the children of child i by children with the same text keeps the text. */
  lemma ReplaceChildrenKeepsText(s: seq<Node>, i: nat, ch: seq<Node>)
    requires i < |s| && s[i].Element? && NodesString(ch) == NodesString(s[i].children)
    ensures NodesString(ApplyEdit(s, ReplaceChildren(i, ch))) == NodesString(s)
  {
    var x := Element(s[i].kind, ch);
    NodesStringSplit(s, i);
    NodesStringSplit(s[i := x], i);
    assert s[i := x][..i] == s[..i] && s[i := x][i + 1..] == s[i + 1..];
  }

  /** Relabelling, merging and lifting move nodes around without changing the text of the
      list they edit. */
  lemma EditKeepsText(s: seq<Node>, e: Edit)
    requires e.SetKind? || e.MergeChild? || e.LiftChild?
    ensures NodesString(ApplyEdit(s, e)) == NodesString(s)
  {
    match e
    case SetKind(i, k) => SetKindKeepsText(s, i, k);
    case MergeChild(i) => MergeKeepsText(s, i);
    case LiftChild(i, j) => LiftKeepsText(s, i, j);
  }

  lemma ChildrenAtStep(ns: seq<Node>, pp: Path)
    requires pp != [] && pp[0] < |ns| && ns[pp[0]].Element?
    ensures ChildrenAt(ns, pp) == ChildrenAt(ns[pp[0]].children, pp[1..])
  {
  }

  /** An edit that keeps the text of the list it edits keeps the text of the document. */
  lemma {:induction false} EditAtKeepsText(ns: seq<Node>, pp: Path, e: Edit)
    requires ChildrenAt(ns, pp).Some? ==>
      NodesString(ApplyEdit(ChildrenAt(ns, pp).value, e)) == NodesString(ChildrenAt(ns, pp).value)
    ensures NodesString(EditAt(ns, pp, e)) == NodesString(ns)
    decreases |pp|
  {
    if pp != [] && pp[0] < |ns| && ns[pp[0]].Element? {
      var c := ns[pp[0]];
      ChildrenAtStep(ns, pp);
      EditAtKeepsText(c.children, pp[1..], e);
      var c' := Element(c.kind, EditAt(c.children, pp[1..], e));
      NodesStringSplit(ns, pp[0]);
      NodesStringSplit(ns[pp[0] := c'], pp[0]);
      assert ns[pp[0] := c'][..pp[0]] == ns[..pp[0]];
      assert ns[pp[0] := c'][pp[0] + 1..] == ns[pp[0] + 1..];
    }
  }
}
