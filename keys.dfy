/** Keyboard handling (src/helper/key-handler.ts): the mark hotkeys, Enter or Backspace on
    an empty list item, and the guards of the heading and link Enter handlers. */
module KeyHandler {
  import opened Wrappers
  import opened Types
  import opened Tree
  import opened Content
  import opened EditorState
  import opened Mark
  import opened Lists
  import opened Links

  // ---------------------------------------------------------------------------------
  // Hotkeys

  /** `HOTKEYS`, in the order its keys are enumerated. */
  const Hotkeys: seq<(string, MarkKey)> := [("mod+b", Bold), ("mod+i", Italic)]

  /** The mark a hotkey toggles: bold for mod+b, italic for mod+i, none for any other. */
  function HotkeyMark(combo: string): (r: Option<MarkKey>)
    ensures r == Some(Bold) <==> combo == "mod+b"
    ensures r == Some(Italic) <==> combo == "mod+i"
    ensures r.Some? <==> exists i :: 0 <= i < |Hotkeys| && Hotkeys[i].0 == combo
  {
    assert Hotkeys[0].0 == "mod+b" && Hotkeys[1].0 == "mod+i";
    if combo == "mod+b" then Some(Bold) else if combo == "mod+i" then Some(Italic) else None
  }

  /** The mark record after toggling, in order, the mark of every entry of hs whose combo
      the key press matches. `pressed` is the set of combos the event matches. */
  function ApplyHotkeys(marks: Option<Marks>, hs: seq<(string, MarkKey)>, pressed: set<string>): Option<Marks>
    decreases |hs|
  {
    if hs == [] then marks
    else ApplyHotkeys(if hs[0].0 in pressed then Toggled(marks, hs[0].1) else marks, hs[1..], pressed)
  }

  /** The document after toggling, in order, the mark of every entry of hs whose combo the
      key press matches: with an expanded selection each toggle is the leaf write of its
      mark, adding it exactly when the record at that point has it inactive; at a
      collapsed cursor the document stays. */
  function HotkeysDocument(doc: seq<Node>, expanded: bool, marks: Option<Marks>, hs: seq<(string, MarkKey)>,
                           pressed: set<string>, markLeaves: LeafWrite): seq<Node>
    decreases |hs|
  {
    if hs == [] then doc
    else if hs[0].0 in pressed then
      var doc' := if expanded then markLeaves(doc, hs[0].1, !IsMarkActive(marks, hs[0].1)) else doc;
      HotkeysDocument(doc', expanded, Toggled(marks, hs[0].1), hs[1..], pressed, markLeaves)
    else HotkeysDocument(doc, expanded, marks, hs[1..], pressed, markLeaves)
  }

  /** A key press matching only mod+b toggles bold and leaves italic as it was; with an
      expanded selection the document gets bold written to its selected leaves, added
      exactly when bold was inactive. */
  lemma BoldHotkey(doc: seq<Node>, expanded: bool, marks: Option<Marks>, markLeaves: LeafWrite)
    ensures ApplyHotkeys(marks, Hotkeys, {"mod+b"}) == Toggled(marks, Bold)
    ensures HotkeysDocument(doc, expanded, marks, Hotkeys, {"mod+b"}, markLeaves)
            == if expanded then markLeaves(doc, Bold, !IsMarkActive(marks, Bold)) else doc
  {
    assert "mod+i" !in {"mod+b"};
    assert Hotkeys[1..][1..] == [];
  }

  /** A key press matching no hotkey leaves the marks and the document alone. */
  lemma {:induction false} NoHotkey(doc: seq<Node>, expanded: bool, marks: Option<Marks>, hs: seq<(string, MarkKey)>,
                                    pressed: set<string>, markLeaves: LeafWrite)
    requires forall i :: 0 <= i < |hs| ==> hs[i].0 !in pressed
    ensures ApplyHotkeys(marks, hs, pressed) == marks
    ensures HotkeysDocument(doc, expanded, marks, hs, pressed, markLeaves) == doc
    decreases |hs|
  {
    if hs != [] {
      assert hs[0].0 !in pressed;
      NoHotkey(doc, expanded, marks, hs[1..], pressed, markLeaves);
    }
  }

  /** At a collapsed cursor or without a selection, hotkeys never change the document. */
  lemma {:induction false} CollapsedHotkeysKeepDocument(doc: seq<Node>, marks: Option<Marks>, hs: seq<(string, MarkKey)>,
                                                        pressed: set<string>, markLeaves: LeafWrite)
    ensures HotkeysDocument(doc, false, marks, hs, pressed, markLeaves) == doc
    decreases |hs|
  {
    if hs != [] {
      var marks' := if hs[0].0 in pressed then Toggled(marks, hs[0].1) else marks;
      CollapsedHotkeysKeepDocument(doc, marks', hs[1..], pressed, markLeaves);
    }
  }

  /** `handleHotKey`: for each hotkey the event matches, suppress the default and toggle its
      mark. */
  method HandleHotKey(e: Editor, pressed: set<string>, markLeaves: LeafWrite) returns (prevent: bool)
    requires e.Valid()
    modifies e`marks, e`children
    ensures e.Valid()
    ensures e.marks == ApplyHotkeys(old(e.marks), Hotkeys, pressed)
    ensures e.children == HotkeysDocument(old(e.children), Expanded(e.selection), old(e.marks), Hotkeys, pressed, markLeaves)
    ensures prevent <==> exists i :: 0 <= i < |Hotkeys| && Hotkeys[i].0 in pressed
  {
    prevent := false;
    var i := 0;
    while i < |Hotkeys|
      invariant 0 <= i <= |Hotkeys|
      invariant e.Valid()
      invariant ApplyHotkeys(e.marks, Hotkeys[i..], pressed) == ApplyHotkeys(old(e.marks), Hotkeys, pressed)
      invariant HotkeysDocument(e.children, Expanded(e.selection), e.marks, Hotkeys[i..], pressed, markLeaves)
                == HotkeysDocument(old(e.children), Expanded(e.selection), old(e.marks), Hotkeys, pressed, markLeaves)
      invariant prevent <==> exists j :: 0 <= j < i && Hotkeys[j].0 in pressed
    {
      var (combo, mark) := Hotkeys[i];
      assert Hotkeys[i..][1..] == Hotkeys[i + 1..];
      if combo in pressed {
        prevent := true;
        ToggleMark(e, mark, markLeaves);
      }
      i := i + 1;
    }
  }

  // ---------------------------------------------------------------------------------
  // Enter or Backspace on an empty list item

  predicate IsListItemNode(n: Node)
  {
    n.Element? && n.kind.ListItem?
  }

  function ListItemMatch(): Node -> bool
  {
    n => IsListItemNode(n)
  }

  /** The list item the handler acts on: the first one the selection touches, when its
      text is empty. */
  function EmptyItem(doc: seq<Node>, sel: Option<Range>): (r: Option<Path>)
    ensures r.Some? ==> sel.Some? && Hit(doc, r.value, sel.value, ListItemMatch())
    ensures r.Some? ==> NodeString(NodeAt(doc, r.value).value) == ""
    ensures r.None? <==> match FirstIn(doc, sel, ListItemMatch())
                         case None => true
                         case Some(p) => NodeString(NodeAt(doc, p).value) != ""
  {
    match FirstIn(doc, sel, ListItemMatch())
    case None => None
    case Some(p) => if NodeString(NodeAt(doc, p).value) == "" then Some(p) else None
  }

  /** The item at liPath relabelled as a paragraph (`setNodes` at its path). */
  function AsParagraph(doc: seq<Node>, liPath: Path): seq<Node>
    requires liPath != []
  {
    EditAt(doc, Parent(liPath), SetKind(Index(liPath), Paragraph))
  }

  /** Whether the item at liPath holds a list. `unwrapNodes(at: liPath, match: list)`
      searches `Editor.range(liPath)`, which reaches every node below the item and every
      node above it; in lowest mode a list below the item hides every list above it. */
  predicate HoldsList(doc: seq<Node>, liPath: Path)
  {
    NodeAt(doc, liPath).Some? && NodeAt(doc, liPath).value.Element?
    && HasList(NodeAt(doc, liPath).value.children)
  }

  /** The nearest list above the item, which `unwrapNodes(at: liPath, match: list)`
      acts on when the item holds no list. */
  function EnclosingList(doc: seq<Node>, liPath: Path): (r: Option<Path>)
    requires liPath != []
    ensures r.Some? ==> r.value != [] && |r.value| < |liPath| && r.value <= liPath
  {
    var r := Lowest(doc, Parent(liPath), ListMatch(None));
    if r.Some? then
      assert r.value <= Parent(liPath) <= liPath;
      r
    else r
  }

  /** Steps 1 and 2 of the handler: relabel the item as a paragraph, then unwrap. When the
      item holds a list, every list inside it that holds no list is replaced by its
      children. Otherwise the child of its nearest list that holds it is lifted out of that
      list, splitting the list around it. */
  function ExitList(doc: seq<Node>, liPath: Path): seq<Node>
    requires liPath != []
  {
    var doc1 := AsParagraph(doc, liPath);
    if HoldsList(doc1, liPath) then EditAt(doc1, Parent(liPath), UnwrapItem(doc1, liPath))
    else match EnclosingList(doc1, liPath)
      case None => doc1
      case Some(lp) => EditAt(doc1, Parent(lp), LiftChild(Index(lp), liPath[|lp|]))
  }

  /** `unwrapNodes(at: liPath, match: list)` on an item holding a list: the item's children
      become those children with every list among them that holds no list unwrapped. */
  function UnwrapItem(doc: seq<Node>, liPath: Path): Edit
    requires liPath != [] && HoldsList(doc, liPath)
  {
    ReplaceChildren(Index(liPath), UnwrapLowest(NodeAt(doc, liPath).value.children))
  }

  /** Relabelling the item changes only its kind: its children and its siblings stay. */
  lemma AsParagraphItem(doc: seq<Node>, liPath: Path)
    requires liPath != [] && NodeAt(doc, liPath).Some? && NodeAt(doc, liPath).value.Element?
    ensures ChildrenAt(doc, Parent(liPath)).Some? && Index(liPath) < |ChildrenAt(doc, Parent(liPath)).value|
    ensures var s, x := ChildrenAt(doc, Parent(liPath)).value, Element(Paragraph, NodeAt(doc, liPath).value.children);
      ChildrenAt(AsParagraph(doc, liPath), Parent(liPath)) == Some(s[Index(liPath) := x])
      && NodeAt(AsParagraph(doc, liPath), liPath) == Some(x)
  {
    var pp, i := Parent(liPath), Index(liPath);
    ParentList(doc, liPath);
    EditAtList(doc, pp, SetKind(i, Paragraph));
    NodeAtChild(AsParagraph(doc, liPath), pp, i);
    assert pp + [i] == liPath;
  }

  /** Leaving the list keeps the document's text. */
  lemma ExitListKeepsText(doc: seq<Node>, liPath: Path)
    requires liPath != []
    ensures NodesString(ExitList(doc, liPath)) == NodesString(doc)
  {
    var pp, i := Parent(liPath), Index(liPath);
    if ChildrenAt(doc, pp).Some? {
      SetKindKeepsText(ChildrenAt(doc, pp).value, i, Paragraph);
    }
    EditAtKeepsText(doc, pp, SetKind(i, Paragraph));
    var doc1 := AsParagraph(doc, liPath);
    if HoldsList(doc1, liPath) {
      var ch := NodeAt(doc1, liPath).value.children;
      ParentList(doc1, liPath);
      UnwrapLowestKeepsText(ch);
      ReplaceChildrenKeepsText(ChildrenAt(doc1, pp).value, i, UnwrapLowest(ch));
      EditAtKeepsText(doc1, pp, UnwrapItem(doc1, liPath));
    } else {
      match EnclosingList(doc1, liPath)
      case None =>
      case Some(lp) =>
        if ChildrenAt(doc1, Parent(lp)).Some? {
          LiftKeepsText(ChildrenAt(doc1, Parent(lp)).value, Index(lp), liPath[|lp|]);
        }
        EditAtKeepsText(doc1, Parent(lp), LiftChild(Index(lp), liPath[|lp|]));
    }
  }

  /** An item holding no list, directly inside a list, ends up as a paragraph with the
      item's children, in the list that held that list, between the two parts of the old
      list: the items before it stay in a list of the old kind, and so do the items after
      it, each part dropped when empty. */
  lemma ExitListShape(doc: seq<Node>, liPath: Path)
    requires liPath != [] && NodeAt(doc, liPath).Some? && IsListItemNode(NodeAt(doc, liPath).value)
    requires !HasList(NodeAt(doc, liPath).value.children)
    requires NodeAt(doc, Parent(liPath)).Some? && IsList(NodeAt(doc, Parent(liPath)).value, None)
    ensures var lp, i := Parent(liPath), Index(liPath);
      ChildrenAt(doc, Parent(lp)).Some? && Index(lp) < |ChildrenAt(doc, Parent(lp)).value|
      && var g := ChildrenAt(doc, Parent(lp)).value;
         var list := g[Index(lp)];
         list.Element? && i < |list.children|
         && ChildrenAt(ExitList(doc, liPath), Parent(lp))
            == Some(g[..Index(lp)] + Part(list.kind, list.children[..i])
                    + [Element(Paragraph, NodeAt(doc, liPath).value.children)]
                    + Part(list.kind, list.children[i + 1..]) + g[Index(lp) + 1..])
  {
    var lp, i := Parent(liPath), Index(liPath);
    var li := NodeAt(doc, liPath).value;
    var doc1 := AsParagraph(doc, liPath);
    AsParagraphInList(doc, liPath);
    AsParagraphItem(doc, liPath);
    var g := ChildrenAt(doc, Parent(lp)).value;
    var list := g[Index(lp)];
    assert liPath[|lp|] == i by {
      assert liPath == lp + [i];
    }
    assert ExitList(doc, liPath) == EditAt(doc1, Parent(lp), LiftChild(Index(lp), i));
    EditAtList(doc1, Parent(lp), LiftChild(Index(lp), i));
    LiftRelabelled(g, Index(lp), list.kind, list.children, i, Element(Paragraph, li.children));
  }

  /** Lifting a child that was just replaced out of its list. */
  lemma LiftRelabelled(g: seq<Node>, j: nat, k: ElementKind, c: seq<Node>, i: nat, x: Node)
    requires j < |g| && i < |c|
    ensures ApplyEdit(g[j := Element(k, c[i := x])], LiftChild(j, i))
            == g[..j] + Part(k, c[..i]) + [x] + Part(k, c[i + 1..]) + g[j + 1..]
  {
    var s, ch := g[j := Element(k, c[i := x])], c[i := x];
    assert ch[..i] == c[..i] && ch[i + 1..] == c[i + 1..];
    assert s[..j] == g[..j] && s[j + 1..] == g[j + 1..];
  }

  /** Relabelling an item directly inside a list: the list's own parent list sees only the
      item replaced by a paragraph, and that list is still the item's nearest list. */
  lemma AsParagraphInList(doc: seq<Node>, liPath: Path)
    requires liPath != [] && NodeAt(doc, liPath).Some? && IsListItemNode(NodeAt(doc, liPath).value)
    requires NodeAt(doc, Parent(liPath)).Some? && IsList(NodeAt(doc, Parent(liPath)).value, None)
    ensures var lp, i := Parent(liPath), Index(liPath);
      ChildrenAt(doc, Parent(lp)).Some? && Index(lp) < |ChildrenAt(doc, Parent(lp)).value|
      && var g := ChildrenAt(doc, Parent(lp)).value;
         var list := g[Index(lp)];
         list.Element? && i < |list.children|
         && EnclosingList(AsParagraph(doc, liPath), liPath) == Some(lp)
         && ChildrenAt(AsParagraph(doc, liPath), Parent(lp))
            == Some(g[Index(lp) := Element(list.kind, list.children[i := Element(Paragraph, NodeAt(doc, liPath).value.children)])])
  {
    var lp, i := Parent(liPath), Index(liPath);
    var li := NodeAt(doc, liPath).value;
    var doc1 := AsParagraph(doc, liPath);
    ParentList(doc, liPath);
    ParentList(doc, lp);
    var g := ChildrenAt(doc, Parent(lp)).value;
    var list := g[Index(lp)];
    SetKindShape(doc, lp, i, Paragraph, lp);
    assert liPath == lp + [i];
    assert NodeAt(doc1, lp).Some? && IsList(NodeAt(doc1, lp).value, None);
    assert lp == Parent(lp) + [Index(lp)];
    EditAtParentList(doc, Parent(lp), Index(lp), SetKind(i, Paragraph));
    assert ApplyEdit(list.children, SetKind(i, Paragraph)) == list.children[i := Element(Paragraph, li.children)];
  }

  /** Leaving the list touches nothing outside the subtree of the list's parent. */
  lemma ExitListElsewhere(doc: seq<Node>, liPath: Path, q: Path)
    requires liPath != [] && NodeAt(doc, liPath).Some? && IsListItemNode(NodeAt(doc, liPath).value)
    requires NodeAt(doc, Parent(liPath)).Some? && IsList(NodeAt(doc, Parent(liPath)).value, None)
    requires Compare(q, Parent(Parent(liPath))) != 0
    ensures NodeAt(ExitList(doc, liPath), q) == NodeAt(doc, q)
  {
    var lp, i := Parent(liPath), Index(liPath);
    var doc1 := AsParagraph(doc, liPath);
    SetKindShape(doc, lp, i, Paragraph, lp);
    assert liPath == lp + [i];
    assert EnclosingList(doc1, liPath) == Some(lp);
    assert Compare(q, lp) != 0 by {
      assert lp == Parent(lp) + [Index(lp)];
    }
    EditAtElsewhere(doc, lp, SetKind(i, Paragraph), q);
    if HoldsList(doc1, liPath) {
      EditAtElsewhere(doc1, lp, UnwrapItem(doc1, liPath), q);
    } else {
      EditAtElsewhere(doc1, Parent(lp), LiftChild(Index(lp), liPath[|lp|]), q);
    }
  }

  /** An item holding a list ends up as a paragraph in its place, holding its children
      with every list inside them that holds no list unwrapped; nothing outside the item's
      own list changes. */
  lemma ExitListNestedShape(doc: seq<Node>, liPath: Path)
    requires liPath != [] && NodeAt(doc, liPath).Some? && IsListItemNode(NodeAt(doc, liPath).value)
    requires HasList(NodeAt(doc, liPath).value.children)
    ensures ChildrenAt(doc, Parent(liPath)).Some? && Index(liPath) < |ChildrenAt(doc, Parent(liPath)).value|
    ensures var s, li := ChildrenAt(doc, Parent(liPath)).value, NodeAt(doc, liPath).value;
      ChildrenAt(ExitList(doc, liPath), Parent(liPath))
      == Some(s[Index(liPath) := Element(Paragraph, UnwrapLowest(li.children))])
    ensures forall q :: Compare(q, Parent(liPath)) != 0 ==> NodeAt(ExitList(doc, liPath), q) == NodeAt(doc, q)
  {
    var pp, i := Parent(liPath), Index(liPath);
    var doc1 := AsParagraph(doc, liPath);
    AsParagraphItem(doc, liPath);
    assert HoldsList(doc1, liPath);
    EditAtList(doc1, pp, UnwrapItem(doc1, liPath));
    var s, li := ChildrenAt(doc, pp).value, NodeAt(doc, liPath).value;
    var x := Element(Paragraph, li.children);
    assert ApplyEdit(s[i := x], UnwrapItem(doc1, liPath)) == s[i := Element(Paragraph, UnwrapLowest(li.children))];
    forall q | Compare(q, pp) != 0
      ensures NodeAt(ExitList(doc, liPath), q) == NodeAt(doc, q)
    {
      EditAtElsewhere(doc, pp, SetKind(i, Paragraph), q);
      EditAtElsewhere(doc1, pp, UnwrapItem(doc1, liPath), q);
    }
  }

  /** An empty item whose only child is an empty nested list: the nested list is
      unwrapped and the outer item becomes a paragraph inside the outer list. */
  lemma NestedEmptyItem()
    ensures var inner := Element(ListItem, [Text("", None, None)]);
      ExitList([Element(List(Unordered), [Element(ListItem, [Element(List(Unordered), [inner])])])], [0, 0])
      == [Element(List(Unordered), [Element(Paragraph, [inner])])]
  {
    var inner := Element(ListItem, [Text("", None, None)]);
    var nested := Element(List(Unordered), [inner]);
    var doc := [Element(List(Unordered), [Element(ListItem, [nested])])];
    assert HasList([nested]);
    assert !HasList([inner]) by {
      assert !HasList([Text("", None, None)]);
    }
    assert UnwrapLowest([nested]) == [inner];
    var doc1 := [Element(List(Unordered), [Element(Paragraph, [nested])])];
    assert Parent([0, 0]) == [0] && Index([0, 0]) == 0;
    assert [0][1..] == [];
    assert ApplyEdit([Element(ListItem, [nested])], SetKind(0, Paragraph)) == [Element(Paragraph, [nested])];
    assert AsParagraph(doc, [0, 0]) == doc1;
    assert HoldsList(doc1, [0, 0]) by {
      assert NodeAt(doc1, [0, 0]) == Some(Element(Paragraph, [nested]));
    }
    assert UnwrapItem(doc1, [0, 0]) == ReplaceChildren(0, [inner]);
    assert ApplyEdit([Element(Paragraph, [nested])], ReplaceChildren(0, [inner])) == [Element(Paragraph, [inner])];
    assert EditAt(doc1, [0], ReplaceChildren(0, [inner])) == [Element(List(Unordered), [Element(Paragraph, [inner])])];
  }

  /** `handleEnterOrBackspaceOnEmptyListItem`: with an empty list item at the selection,
      turn it into a paragraph out of its list and report the key handled; otherwise
      change nothing and report it unhandled. */
  method HandleEmptyListItem(e: Editor) returns (handled: bool)
    modifies e`children
    ensures handled <==> EmptyItem(old(e.children), e.selection).Some?
    ensures !handled ==> e.children == old(e.children)
    ensures handled ==> e.children == ExitList(old(e.children), EmptyItem(old(e.children), e.selection).value)
  {
    var liEntry := FirstIn(e.children, e.selection, ListItemMatch());
    if liEntry.Some? {
      var liPath := liEntry.value;
      var liNode := NodeAt(e.children, liPath).value;
      if NodeString(liNode) == "" {
        e.children := EditAt(e.children, Parent(liPath), SetKind(Index(liPath), Paragraph));
        if HoldsList(e.children, liPath) {
          e.children := EditAt(e.children, Parent(liPath), UnwrapItem(e.children, liPath));
        } else {
          var list := EnclosingList(e.children, liPath);
          if list.Some? {
            var lp := list.value;
            e.children := EditAt(e.children, Parent(lp), LiftChild(Index(lp), liPath[|lp|]));
          }
        }
        return true;
      }
    }
    return false;
  }

  // ---------------------------------------------------------------------------------
  // Enter in a heading or at the end of a link

  /** What an Enter handler does. The splits themselves are Slate's `splitNodes`
      sequences; only which one runs is modelled. */
  datatype BreakOutcome =
    | Declined                  // returns false, nothing changed
    | SplitItem(liPath: Path)   // splits the list item and starts a bare line after it
    | SplitHeading              // splits the heading and makes the new block a paragraph
    | SplitLink                 // splits after the link and makes the new block a paragraph
    | Throws                    // a TypeError escapes the handler

  predicate IsHeadingNode(n: Node)
  {
    n.Element? && n.kind.Heading?
  }

  function HeadingMatch(): Node -> bool
  {
    n => IsHeadingNode(n)
  }

  /** The cursor of a collapsed selection that sits exactly at the end of the nearest
      element matching pred above it; `Editor.end` on an element without text below it is
      treated as not at the end. */
  predicate AtEndOf(doc: seq<Node>, sel: Option<Range>, pred: Node -> bool)
  {
    && sel.Some? && IsCollapsed(sel.value)
    && Above(doc, sel, pred).Some?
    && EndOf(doc, Above(doc, sel, pred).value) == Some(sel.value.anchor)
  }

  /** `handleHeadingBreakline` as written: after the guards it destructures the list item
      above the cursor without a check, which throws when the heading is not in a list
      item, so the fallback for a heading outside a list is never reached. */
  function HeadingBreakAsWritten(doc: seq<Node>, sel: Option<Range>): (r: BreakOutcome)
    ensures r.Declined? <==> !AtEndOf(doc, sel, HeadingMatch())
    ensures r.Throws? <==> AtEndOf(doc, sel, HeadingMatch()) && Above(doc, sel, ListItemMatch()).None?
  {
    if sel.None? || !IsCollapsed(sel.value) then Declined
    else match Above(doc, sel, HeadingMatch())
      case None => Declined
      case Some(hp) =>
        if EndOf(doc, hp) != Some(sel.value.anchor) then Declined
        else match Above(doc, sel, ListItemMatch())
          case None => Throws
          case Some(lp) => SplitItem(lp)
  }

  /** The heading from the Findings table: a top-level heading "Title" with the cursor at
      its end. */
  const TitleDoc: seq<Node> := [Element(Heading(1), [Text("Title", None, None)])]
  const TitleCursor: Point := Point([0, 0], 5)

  /** Enter at the end of a heading that is not in a list throws as written. */
  lemma HeadingBreakThrowsOutsideList()
    ensures HeadingBreakAsWritten(TitleDoc, Some(Range(TitleCursor, TitleCursor))) == Throws
  {
    var sel := Some(Range(TitleCursor, TitleCursor));
    assert Parent([0, 0]) == [0];
    assert AboveFrom(sel.value) == Some([0]);
    assert NodeAt(TitleDoc, [0]) == Some(TitleDoc[0]);
    assert Lowest(TitleDoc, [0], HeadingMatch()) == Some([0]);
    assert Above(TitleDoc, sel, HeadingMatch()) == Some([0]);
    assert [0] + [0] == [0, 0] && |"Title"| == 5;
    assert LastLeafEnd(TitleDoc[0], [0]) == LastLeafEnd(Text("Title", None, None), [0, 0]);
    assert EndOf(TitleDoc, [0]) == Some(TitleCursor);
    assert Lowest(TitleDoc, [], ListItemMatch()) == None;
    assert !Matches(TitleDoc, [0], ListItemMatch());
    assert Lowest(TitleDoc, [0], ListItemMatch()) == None;
  }

  /** `handleHeadingBreakline` as evidently intended: the list-item split when the heading
      is in a list item, and the heading-to-paragraph fallback otherwise. */
  function HeadingBreak(doc: seq<Node>, sel: Option<Range>): (r: BreakOutcome)
    ensures !r.Throws? && !r.SplitLink?
    ensures r.Declined? <==> !AtEndOf(doc, sel, HeadingMatch())
    ensures r.SplitItem? <==> AtEndOf(doc, sel, HeadingMatch()) && Above(doc, sel, ListItemMatch()).Some?
    ensures r.SplitItem? ==> Above(doc, sel, ListItemMatch()) == Some(r.liPath)
    ensures r.SplitHeading? <==> AtEndOf(doc, sel, HeadingMatch()) && Above(doc, sel, ListItemMatch()).None?
  {
    if sel.None? || !IsCollapsed(sel.value) then Declined
    else match Above(doc, sel, HeadingMatch())
      case None => Declined
      case Some(hp) =>
        if EndOf(doc, hp) != Some(sel.value.anchor) then Declined
        else match Above(doc, sel, ListItemMatch())
          case None => SplitHeading
          case Some(lp) => SplitItem(lp)
  }

  /** The two agree wherever the code as written does not throw. */
  lemma HeadingBreakAgrees(doc: seq<Node>, sel: Option<Range>)
    ensures !HeadingBreakAsWritten(doc, sel).Throws? ==> HeadingBreak(doc, sel) == HeadingBreakAsWritten(doc, sel)
    ensures HeadingBreakAsWritten(doc, sel).Throws? ==> HeadingBreak(doc, sel) == SplitHeading
  {
  }

  /** `handleLinkBreakline`: with a collapsed cursor exactly at the end of the link above
      it, split out a new paragraph; otherwise decline. */
  function LinkBreak(doc: seq<Node>, sel: Option<Range>): (r: BreakOutcome)
    ensures r.Declined? || r.SplitLink?
    ensures r.SplitLink? <==> AtEndOf(doc, sel, LinkMatch())
  {
    if sel.None? || !IsCollapsed(sel.value) then Declined
    else match Above(doc, sel, LinkMatch())
      case None => Declined
      case Some(lp) => if EndOf(doc, lp) == Some(sel.value.anchor) then SplitLink else Declined
  }
}
