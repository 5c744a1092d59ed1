/** Links (src/helper/link.ts): the active link at the selection, building a link, inserting
    or replacing one, and removing the link at the cursor. */
module Links {
  import opened Wrappers
  import opened Types
  import opened Tree
  import opened Content
  import opened EditorState

  predicate IsLinkNode(n: Node)
  {
    n.Element? && n.kind.Link?
  }

  function LinkMatch(): Node -> bool
  {
    n => IsLinkNode(n)
  }

  /** `getActiveLink`: the first link the selection touches, or nothing without a selection
      or without such a link. */
  function GetActiveLink(doc: seq<Node>, sel: Option<Range>): (r: Option<Node>)
    ensures r.Some? ==> IsLinkNode(r.value)
    ensures r.Some? ==> sel.Some? && exists q :: Hit(doc, q, sel.value, LinkMatch()) && NodeAt(doc, q) == r
    ensures r.None? <==> sel.None? || forall q :: !Hit(doc, q, sel.value, LinkMatch())
  {
    match FirstIn(doc, sel, LinkMatch())
    case None => None
    case Some(p) => NodeAt(doc, p)
  }

  /** `isLinkActive`: some link is among the nodes the selection touches. */
  function IsLinkActive(doc: seq<Node>, sel: Option<Range>): (r: bool)
    ensures r <==> GetActiveLink(doc, sel).Some?
    ensures r <==> sel.Some? && exists q :: Hit(doc, q, sel.value, LinkMatch())
  {
    FirstIn(doc, sel, LinkMatch()).Some?
  }

  /** The link `wrapLink` builds: the given url and target, and one text leaf without marks
      holding the given text. */
  function BuildLink(url: string, text: string, target: string): (r: Node)
    ensures r.Element? && r.kind == Link(url, Some(target))
    ensures |r.children| == 1 && r.children[0].Text? && r.children[0].text == text
    ensures r.children[0].bold.None? && r.children[0].italic.None?
    ensures NodeString(r) == text
  {
    var r := Element(Link(url, Some(target)), [Text(text, None, None)]);
    assert NodesString(r.children) == text by { NodesStringSingle(Text(text, None, None)); }
    r
  }

  // ---------------------------------------------------------------------------------
  // Replacing the active link

  /** `removeNodes` at p, then `insertNodes(n)` at p. */
  function ReplaceAt(doc: seq<Node>, p: Path, n: Node): seq<Node>
    requires p != []
  {
    EditAt(EditAt(doc, Parent(p), RemoveChild(Index(p))), Parent(p), InsertChild(Index(p), n))
  }

  lemma RemoveThenInsert(s: seq<Node>, i: nat, n: Node)
    requires i < |s|
    ensures ApplyEdit(ApplyEdit(s, RemoveChild(i)), InsertChild(i, n)) == s[i := n]
  {
    var s1 := s[..i] + s[i + 1..];
    assert s1[..i] == s[..i] && s1[i..] == s[i + 1..];
  }

  /** Replacing the node at p puts the new node in its place: the list holding it keeps its
      length and every other sibling, the old node with its children and their marks is
      gone, and nothing outside the parent's subtree changes. */
  lemma ReplaceAtShape(doc: seq<Node>, p: Path, n: Node)
    requires p != [] && NodeAt(doc, p).Some?
    ensures ChildrenAt(doc, Parent(p)).Some? && Index(p) < |ChildrenAt(doc, Parent(p)).value|
    ensures var s := ChildrenAt(doc, Parent(p)).value;
      ChildrenAt(ReplaceAt(doc, p, n), Parent(p)) == Some(s[Index(p) := n])
    ensures NodeAt(ReplaceAt(doc, p, n), p) == Some(n)
    ensures forall q :: Compare(q, Parent(p)) != 0 ==> NodeAt(ReplaceAt(doc, p, n), q) == NodeAt(doc, q)
  {
    ParentList(doc, p);
    var pp, i, s := Parent(p), Index(p), ChildrenAt(doc, Parent(p)).value;
    var doc1 := EditAt(doc, pp, RemoveChild(i));
    EditAtList(doc, pp, RemoveChild(i));
    EditAtList(doc1, pp, InsertChild(i, n));
    RemoveThenInsert(s, i, n);
    NodeAtChild(ReplaceAt(doc, p, n), pp, i);
    assert pp + [i] == p;
    forall q | Compare(q, pp) != 0 ensures NodeAt(ReplaceAt(doc, p, n), q) == NodeAt(doc, q) {
      EditAtElsewhere(doc, pp, RemoveChild(i), q);
      EditAtElsewhere(doc1, pp, InsertChild(i, n), q);
    }
  }

  // ---------------------------------------------------------------------------------
  // Inserting at a collapsed cursor

  /** Where `insertNodes` puts an inline node at a cursor in a text leaf: after the leaf
      when the cursor is at its end (an empty leaf included), before it at offset 0, and
      otherwise between the two halves of the leaf split at the cursor. Nothing when the
      cursor is not in a text leaf. */
  function InsertPath(doc: seq<Node>, pt: Point): (r: Option<Path>)
    ensures r.Some? <==> NodeAt(doc, pt.path).Some? && NodeAt(doc, pt.path).value.Text?
    ensures r.Some? ==> pt.path != [] && r.value != [] && Parent(r.value) == Parent(pt.path)
    ensures r.Some? ==>
      Index(r.value) == (if pt.offset == 0 && NodeAt(doc, pt.path).value.text != [] then Index(pt.path)
                         else Index(pt.path) + 1)
  {
    match NodeAt(doc, pt.path)
    case Some(Text(t, _, _)) =>
      var pp, j := Parent(pt.path), Index(pt.path);
      if pt.offset >= |t| then Some(pp + [j + 1])
      else if pt.offset == 0 then Some(pt.path)
      else Some(pp + [j + 1])
    case _ => None
  }

  /** `insertNodes(n)` at a cursor: the leaf is split at the cursor unless it is at one of
      its edges, and n goes in at `InsertPath`. */
  function InsertAtCursor(doc: seq<Node>, pt: Point, n: Node): seq<Node>
  {
    match NodeAt(doc, pt.path)
    case Some(Text(t, _, _)) =>
      var pp, j := Parent(pt.path), Index(pt.path);
      if pt.offset >= |t| then EditAt(doc, pp, InsertChild(j + 1, n))
      else if pt.offset == 0 then EditAt(doc, pp, InsertChild(j, n))
      else EditAt(EditAt(doc, pp, SplitText(j, pt.offset)), pp, InsertChild(j + 1, n))
    case _ => doc
  }

  /** The list holding the cursor's leaf after the insert: the leaf's text, cut at the
      cursor, with the inserted node between the two parts; the siblings around it read
      as before. */
  function CursorListText(s: seq<Node>, j: nat, o: nat, n: Node): string
    requires j < |s| && s[j].Text?
  {
    var t := s[j].text;
    var c := if o < |t| then o else |t|;
    NodesString(s[..j]) + t[..c] + NodeString(n) + t[c..] + NodesString(s[j + 1..])
  }

  lemma CursorTextAtStart(s: seq<Node>, j: nat, n: Node)
    requires j < |s| && s[j].Text? && s[j].text != []
    ensures CursorListText(s, j, 0, n)
         == NodesString(s[..j]) + NodeString(n) + NodeString(s[j]) + NodesString(s[j + 1..])
  {
    var t := s[j].text;
    assert t[..0] == [] && t[0..] == t;
  }

  lemma CursorTextAtEnd(s: seq<Node>, j: nat, o: nat, n: Node)
    requires j < |s| && s[j].Text? && o >= |s[j].text|
    ensures CursorListText(s, j, o, n)
         == NodesString(s[..j]) + NodeString(s[j]) + NodeString(n) + NodesString(s[j + 1..])
  {
    var t := s[j].text;
    assert t[..|t|] == t && t[|t|..] == [];
  }

  lemma InsertAfterText(s: seq<Node>, j: nat, n: Node)
    requires j < |s|
    ensures NodesString(ApplyEdit(s, InsertChild(j + 1, n)))
         == NodesString(s[..j]) + NodeString(s[j]) + NodeString(n) + NodesString(s[j + 1..])
  {
    var r := ApplyEdit(s, InsertChild(j + 1, n));
    assert r == s[..j] + [s[j]] + ([n] + s[j + 1..]);
    NodesStringAround(s[..j], s[j], [n] + s[j + 1..]);
    NodesStringAppend([n], s[j + 1..]);
    NodesStringSingle(n);
  }

  lemma InsertBeforeText(s: seq<Node>, j: nat, n: Node)
    requires j < |s|
    ensures NodesString(ApplyEdit(s, InsertChild(j, n)))
         == NodesString(s[..j]) + NodeString(n) + NodeString(s[j]) + NodesString(s[j + 1..])
  {
    var r := ApplyEdit(s, InsertChild(j, n));
    assert r == s[..j] + [n] + ([s[j]] + s[j + 1..]);
    NodesStringAround(s[..j], n, [s[j]] + s[j + 1..]);
    NodesStringAppend([s[j]], s[j + 1..]);
    NodesStringSingle(s[j]);
  }

  lemma SplitInsertText(s: seq<Node>, j: nat, o: nat, n: Node)
    requires j < |s| && s[j].Text? && o <= |s[j].text|
    ensures NodesString(ApplyEdit(ApplyEdit(s, SplitText(j, o)), InsertChild(j + 1, n)))
         == NodesString(s[..j]) + s[j].text[..o] + NodeString(n) + s[j].text[o..] + NodesString(s[j + 1..])
  {
    var t, b, it := s[j].text, s[j].bold, s[j].italic;
    var x, y := Text(t[..o], b, it), Text(t[o..], b, it);
    var s1 := ApplyEdit(s, SplitText(j, o));
    SplitTextEdit(s, j, o);
    assert s1 == s[..j] + [x, y] + s[j + 1..];
    var r := ApplyEdit(s1, InsertChild(j + 1, n));
    InsertChildEdit(s1, j + 1, n);
    assert s1[..j + 1] == s[..j] + [x] && s1[j + 1..] == [y] + s[j + 1..];
    assert r == (s[..j] + [x]) + [n] + ([y] + s[j + 1..]);
    NodesStringAround(s[..j] + [x], n, [y] + s[j + 1..]);
    NodesStringAppend(s[..j], [x]);
    NodesStringAppend([y], s[j + 1..]);
    NodesStringSingle(x);
    NodesStringSingle(y);
  }

  /** The three ways of inserting at a cursor, each on the leaf's list. */
  lemma InsertAtEndShape(doc: seq<Node>, pp: Path, j: nat, n: Node)
    requires ChildrenAt(doc, pp).Some? && j < |ChildrenAt(doc, pp).value|
    ensures var s, out := ChildrenAt(doc, pp).value, EditAt(doc, pp, InsertChild(j + 1, n));
      ChildrenAt(out, pp).Some?
      && NodesString(ChildrenAt(out, pp).value)
         == NodesString(s[..j]) + NodeString(s[j]) + NodeString(n) + NodesString(s[j + 1..])
      && NodeAt(out, pp + [j + 1]) == Some(n)
      && forall q :: Compare(q, pp) != 0 ==> NodeAt(out, q) == NodeAt(doc, q)
  {
    var s, out := ChildrenAt(doc, pp).value, EditAt(doc, pp, InsertChild(j + 1, n));
    EditAtList(doc, pp, InsertChild(j + 1, n));
    InsertAfterText(s, j, n);
    NodeAtChild(out, pp, j + 1);
    forall q | Compare(q, pp) != 0 ensures NodeAt(out, q) == NodeAt(doc, q) {
      EditAtElsewhere(doc, pp, InsertChild(j + 1, n), q);
    }
  }

  lemma InsertAtStartShape(doc: seq<Node>, pp: Path, j: nat, n: Node)
    requires ChildrenAt(doc, pp).Some? && j < |ChildrenAt(doc, pp).value|
    ensures var s, out := ChildrenAt(doc, pp).value, EditAt(doc, pp, InsertChild(j, n));
      ChildrenAt(out, pp).Some?
      && NodesString(ChildrenAt(out, pp).value)
         == NodesString(s[..j]) + NodeString(n) + NodeString(s[j]) + NodesString(s[j + 1..])
      && NodeAt(out, pp + [j]) == Some(n)
      && forall q :: Compare(q, pp) != 0 ==> NodeAt(out, q) == NodeAt(doc, q)
  {
    var s, out := ChildrenAt(doc, pp).value, EditAt(doc, pp, InsertChild(j, n));
    EditAtList(doc, pp, InsertChild(j, n));
    InsertBeforeText(s, j, n);
    NodeAtChild(out, pp, j);
    forall q | Compare(q, pp) != 0 ensures NodeAt(out, q) == NodeAt(doc, q) {
      EditAtElsewhere(doc, pp, InsertChild(j, n), q);
    }
  }

  lemma InsertInsideShape(doc: seq<Node>, pp: Path, j: nat, o: nat, n: Node)
    requires ChildrenAt(doc, pp).Some? && j < |ChildrenAt(doc, pp).value|
    requires ChildrenAt(doc, pp).value[j].Text? && o <= |ChildrenAt(doc, pp).value[j].text|
    ensures var s := ChildrenAt(doc, pp).value;
      var out := EditAt(EditAt(doc, pp, SplitText(j, o)), pp, InsertChild(j + 1, n));
      ChildrenAt(out, pp).Some?
      && NodesString(ChildrenAt(out, pp).value)
         == NodesString(s[..j]) + s[j].text[..o] + NodeString(n) + s[j].text[o..] + NodesString(s[j + 1..])
      && NodeAt(out, pp + [j + 1]) == Some(n)
      && forall q :: Compare(q, pp) != 0 ==> NodeAt(out, q) == NodeAt(doc, q)
  {
    var s := ChildrenAt(doc, pp).value;
    var doc1 := EditAt(doc, pp, SplitText(j, o));
    var out := EditAt(doc1, pp, InsertChild(j + 1, n));
    EditAtList(doc, pp, SplitText(j, o));
    EditAtList(doc1, pp, InsertChild(j + 1, n));
    SplitInsertText(s, j, o, n);
    NodeAtChild(out, pp, j + 1);
    forall q | Compare(q, pp) != 0 ensures NodeAt(out, q) == NodeAt(doc, q) {
      EditAtElsewhere(doc, pp, SplitText(j, o), q);
      EditAtElsewhere(doc1, pp, InsertChild(j + 1, n), q);
    }
  }

  /** The shape `InsertAtCursorShape` states, for a cursor in a text leaf. */
  ghost predicate InsertedAtCursor(doc: seq<Node>, pt: Point, n: Node)
    requires NodeAt(doc, pt.path).Some? && NodeAt(doc, pt.path).value.Text?
  {
    && pt.path != [] && ChildrenAt(doc, Parent(pt.path)).Some?
    && (var s := ChildrenAt(doc, Parent(pt.path)).value;
        Index(pt.path) < |s| && s[Index(pt.path)].Text?
        && ChildrenAt(InsertAtCursor(doc, pt, n), Parent(pt.path)).Some?
        && NodesString(ChildrenAt(InsertAtCursor(doc, pt, n), Parent(pt.path)).value)
           == CursorListText(s, Index(pt.path), pt.offset, n))
    && NodeAt(InsertAtCursor(doc, pt, n), InsertPath(doc, pt).value) == Some(n)
    && forall q :: Compare(q, Parent(pt.path)) != 0 ==> NodeAt(InsertAtCursor(doc, pt, n), q) == NodeAt(doc, q)
  }

  lemma InsertAtCursorEnd(doc: seq<Node>, pt: Point, n: Node)
    requires NodeAt(doc, pt.path).Some? && NodeAt(doc, pt.path).value.Text?
    requires pt.offset >= |NodeAt(doc, pt.path).value.text|
    ensures InsertedAtCursor(doc, pt, n)
  {
    ParentList(doc, pt.path);
    var pp, j, s := Parent(pt.path), Index(pt.path), ChildrenAt(doc, Parent(pt.path)).value;
    var t := s[j].text;
    assert pp + [j] == pt.path;
    assert InsertAtCursor(doc, pt, n) == EditAt(doc, pp, InsertChild(j + 1, n));
    assert InsertPath(doc, pt) == Some(pp + [j + 1]);
    InsertAtEndShape(doc, pp, j, n);
    CursorTextAtEnd(s, j, pt.offset, n);
  }

  lemma InsertAtCursorStart(doc: seq<Node>, pt: Point, n: Node)
    requires NodeAt(doc, pt.path).Some? && NodeAt(doc, pt.path).value.Text?
    requires pt.offset == 0 < |NodeAt(doc, pt.path).value.text|
    ensures InsertedAtCursor(doc, pt, n)
  {
    ParentList(doc, pt.path);
    var pp, j, s := Parent(pt.path), Index(pt.path), ChildrenAt(doc, Parent(pt.path)).value;
    assert pp + [j] == pt.path;
    assert InsertAtCursor(doc, pt, n) == EditAt(doc, pp, InsertChild(j, n));
    assert InsertPath(doc, pt) == Some(pp + [j]);
    InsertAtStartShape(doc, pp, j, n);
    CursorTextAtStart(s, j, n);
  }

  lemma InsertAtCursorInside(doc: seq<Node>, pt: Point, n: Node)
    requires NodeAt(doc, pt.path).Some? && NodeAt(doc, pt.path).value.Text?
    requires 0 < pt.offset < |NodeAt(doc, pt.path).value.text|
    ensures InsertedAtCursor(doc, pt, n)
  {
    ParentList(doc, pt.path);
    var pp, j := Parent(pt.path), Index(pt.path);
    assert pp + [j] == pt.path;
    assert InsertAtCursor(doc, pt, n) == EditAt(EditAt(doc, pp, SplitText(j, pt.offset)), pp, InsertChild(j + 1, n));
    assert InsertPath(doc, pt) == Some(pp + [j + 1]);
    InsertInsideShape(doc, pp, j, pt.offset, n);
  }

  /** Inserting at a cursor in a text leaf puts n at `InsertPath`, reads in the leaf's
      list as the leaf's text cut at the cursor with n's text between the parts, and
      leaves every node outside that list's subtree unchanged. */
  lemma InsertAtCursorShape(doc: seq<Node>, pt: Point, n: Node)
    requires NodeAt(doc, pt.path).Some? && NodeAt(doc, pt.path).value.Text?
    ensures pt.path != [] && ChildrenAt(doc, Parent(pt.path)).Some?
    ensures var s := ChildrenAt(doc, Parent(pt.path)).value;
      Index(pt.path) < |s| && s[Index(pt.path)].Text?
      && ChildrenAt(InsertAtCursor(doc, pt, n), Parent(pt.path)).Some?
      && NodesString(ChildrenAt(InsertAtCursor(doc, pt, n), Parent(pt.path)).value)
         == CursorListText(s, Index(pt.path), pt.offset, n)
    ensures NodeAt(InsertAtCursor(doc, pt, n), InsertPath(doc, pt).value) == Some(n)
    ensures forall q :: Compare(q, Parent(pt.path)) != 0 ==> NodeAt(InsertAtCursor(doc, pt, n), q) == NodeAt(doc, q)
  {
    var t := NodeAt(doc, pt.path).value.text;
    if pt.offset >= |t| {
      InsertAtCursorEnd(doc, pt, n);
    } else if pt.offset == 0 {
      InsertAtCursorStart(doc, pt, n);
    } else {
      InsertAtCursorInside(doc, pt, n);
    }
  }

  // ---------------------------------------------------------------------------------
  // wrapLink / insertLink

  /** `insertLink` (through `wrapLink`). With a link active, the first link the selection
      touches is removed, the new link inserted at its path and the selection collapsed to
      its end. Otherwise, at a collapsed cursor in a text leaf the link is inserted there
      and the cursor moves to the end of its text. With an expanded selection and no
      active link, Slate's splitting `wrapNodes` runs and the selection is collapsed to
      its end; `wrapped` is the wrap's outcome, and `rebasedEnd` is the end of the
      selection as Slate rebases it over the replacement or the wrap. Without a selection
      nothing changes. */
  method InsertLink(e: Editor, url: string, text: string, target: string, wrapped: seq<Node>, rebasedEnd: Point)
    modifies e`children, e`selection
    ensures var doc, sel, link := old(e.children), old(e.selection), BuildLink(url, text, target);
      if IsLinkActive(doc, sel) then
        var p := FirstIn(doc, sel, LinkMatch()).value;
        p != [] && e.children == ReplaceAt(doc, p, link) && e.selection == Some(Range(rebasedEnd, rebasedEnd))
      else if sel.None? then
        e.children == doc && e.selection == sel
      else if IsCollapsed(sel.value) then
        e.children == InsertAtCursor(doc, sel.value.anchor, link)
        && e.selection == (match InsertPath(doc, sel.value.anchor)
                           case None => sel
                           case Some(ip) => Some(Range(Point(ip + [0], |text|), Point(ip + [0], |text|))))
      else
        e.children == wrapped && e.selection == Some(Range(rebasedEnd, rebasedEnd))
  {
    var link := BuildLink(url, text, target);
    if IsLinkActive(e.children, e.selection) {
      var entry := FirstIn(e.children, e.selection, LinkMatch());
      var path := entry.value;
      e.children := EditAt(e.children, Parent(path), RemoveChild(Index(path)));
      e.children := EditAt(e.children, Parent(path), InsertChild(Index(path), link));
      e.selection := Some(Range(rebasedEnd, rebasedEnd));
      return;
    }
    if e.selection.Some? && IsCollapsed(e.selection.value) {
      var at := InsertPath(e.children, e.selection.value.anchor);
      e.children := InsertAtCursor(e.children, e.selection.value.anchor, link);
      if at.Some? {
        var end := Point(at.value + [0], |text|);
        e.selection := Some(Range(end, end));
      }
    } else if e.selection.Some? {
      e.children := wrapped;
      e.selection := Some(Range(rebasedEnd, rebasedEnd));
    }
  }

  /** After inserting at a cursor, the new cursor is the end of the inserted link's text. */
  lemma CursorAfterLink(doc: seq<Node>, pt: Point, url: string, text: string, target: string)
    requires NodeAt(doc, pt.path).Some? && NodeAt(doc, pt.path).value.Text?
    ensures var link, ip := BuildLink(url, text, target), InsertPath(doc, pt).value;
      EndOf(InsertAtCursor(doc, pt, link), ip) == Some(Point(ip + [0], |text|))
  {
    var link, ip := BuildLink(url, text, target), InsertPath(doc, pt).value;
    InsertAtCursorShape(doc, pt, link);
    assert LastLeafEnd(link.children[0], ip + [0]) == Some(Point(ip + [0], |text|));
    assert LastLeafEnd(link, ip) == LastLeafEnd(link.children[0], ip + [0]);
  }

  // ---------------------------------------------------------------------------------
  // unwrapLink / removeLink

  /** `unwrapNodes(match: link, split: true, mode: lowest)` at a collapsed cursor: the
      lowest link holding the cursor's leaf is split around the child that holds the
      cursor, which moves up between the two parts. Nothing changes without such a link. */
  function UnwrapAtCursor(doc: seq<Node>, pt: Point): seq<Node>
  {
    match Lowest(doc, pt.path, LinkMatch())
    case None => doc
    case Some(lp) =>
      if |lp| < |pt.path| then EditAt(doc, Parent(lp), LiftChild(Index(lp), pt.path[|lp|])) else doc
  }

  /** Removing the link at the cursor keeps the document's text. */
  lemma UnwrapAtCursorKeepsText(doc: seq<Node>, pt: Point)
    ensures NodesString(UnwrapAtCursor(doc, pt)) == NodesString(doc)
  {
    match Lowest(doc, pt.path, LinkMatch())
    case None =>
    case Some(lp) =>
      if |lp| < |pt.path| {
        var e := LiftChild(Index(lp), pt.path[|lp|]);
        if ChildrenAt(doc, Parent(lp)).Some? {
          LiftKeepsText(ChildrenAt(doc, Parent(lp)).value, Index(lp), pt.path[|lp|]);
        }
        EditAtKeepsText(doc, Parent(lp), e);
      }
  }

  /** Removing the link at the cursor lifts it: the list that held the link becomes that
      list with the link split around the child holding the cursor, and that child now
      sits directly in the list. */
  lemma UnwrapAtCursorLifts(doc: seq<Node>, pt: Point)
    requires NodeAt(doc, pt.path).Some? && Lowest(doc, pt.path, LinkMatch()).Some?
    requires |Lowest(doc, pt.path, LinkMatch()).value| < |pt.path|
    ensures var lp := Lowest(doc, pt.path, LinkMatch()).value;
      ChildrenAt(doc, Parent(lp)).Some? && Index(lp) < |ChildrenAt(doc, Parent(lp)).value|
    ensures var lp := Lowest(doc, pt.path, LinkMatch()).value;
      var s, j := ChildrenAt(doc, Parent(lp)).value, pt.path[|lp|];
      s[Index(lp)].Element? && j < |s[Index(lp)].children|
      && ChildrenAt(UnwrapAtCursor(doc, pt), Parent(lp)) == Some(ApplyEdit(s, LiftChild(Index(lp), j)))
      && s[Index(lp)].children[j] in ApplyEdit(s, LiftChild(Index(lp), j))
  {
    var lp := Lowest(doc, pt.path, LinkMatch()).value;
    ParentList(doc, lp);
    var s := ChildrenAt(doc, Parent(lp)).value;
    var j := pt.path[|lp|];
    assert lp + [j] <= pt.path;
    PrefixExists(doc, pt.path, lp + [j]);
    NodeAtChild(doc, lp, j);
    EditAtList(doc, Parent(lp), LiftChild(Index(lp), j));
    var k, ch := s[Index(lp)].kind, s[Index(lp)].children;
    var out := s[..Index(lp)] + Part(k, ch[..j]) + [ch[j]] + Part(k, ch[j + 1..]) + s[Index(lp) + 1..];
    assert out[|s[..Index(lp)] + Part(k, ch[..j])|] == ch[j];
  }

  /** `removeLink` (through `unwrapLink`): nothing without a selection; at a collapsed
      cursor the link holding it is split around the cursor's child; with an expanded
      selection Slate's splitting unwrap runs, and `unwrapped` is its outcome. */
  method RemoveLink(e: Editor, unwrapped: seq<Node>)
    modifies e`children
    ensures old(e.selection).None? ==> e.children == old(e.children)
    ensures old(e.selection).Some? && IsCollapsed(old(e.selection).value) ==>
      e.children == UnwrapAtCursor(old(e.children), old(e.selection).value.anchor)
    ensures old(e.selection).Some? && !IsCollapsed(old(e.selection).value) ==> e.children == unwrapped
  {
    if e.selection.None? {
      return;
    }
    if IsCollapsed(e.selection.value) {
      e.children := UnwrapAtCursor(e.children, e.selection.value.anchor);
    } else {
      e.children := unwrapped;
    }
  }
}
