/** Lists (src/helper/list.ts): whether a list is active at the selection, and the part of
    `toggleList` that merges the newly wrapped list with same-type neighbours. */
module Lists {
  import opened Wrappers
  import opened Types
  import opened Tree
  import opened Content
  import opened EditorState

  /** The match of `isListActive`: a list element, of the requested type when a type is
      given, of any type otherwise. */
  predicate IsList(n: Node, lt: Option<ListType>)
  {
    n.Element? && n.kind.List? && (lt.None? || n.kind.listType == lt.value)
  }

  function ListMatch(lt: Option<ListType>): Node -> bool
  {
    n => IsList(n, lt)
  }

  /** `isListActive`: false without a selection; otherwise whether some list (of the
      requested type) is among the nodes the selection touches. */
  function IsListActive(doc: seq<Node>, sel: Option<Range>, lt: Option<ListType>): (r: bool)
    ensures sel.None? ==> !r
    ensures r <==> sel.Some? && exists q :: Hit(doc, q, sel.value, ListMatch(lt))
  {
    FirstIn(doc, sel, ListMatch(lt)).Some?
  }

  /** The label step 2 of `toggleList` gives the selected blocks: paragraph when the list is
      active, list-item otherwise. */
  function RelabelKind(active: bool): (k: ElementKind)
    ensures k.Paragraph? || k.ListItem?
    ensures k.Paragraph? <==> active
  {
    if active then Paragraph else ListItem
  }

  // ---------------------------------------------------------------------------------
  // Merging with the neighbours (steps 4 and 5).

  /** `Node.has(path)` and the node there is a list of type lt. */
  predicate IsListAt(doc: seq<Node>, p: Path, lt: ListType)
  {
    NodeAt(doc, p).Some? && IsList(NodeAt(doc, p).value, Some(lt))
  }

  /** Step 5 of `toggleList`: the sibling after `listPath` is merged into it when it is a
      list of type lt. */
  function MergeNext(doc: seq<Node>, listPath: Path, lt: ListType): seq<Node>
    requires listPath != []
  {
    var nextPath := Parent(listPath) + [Index(listPath) + 1];
    if IsListAt(doc, nextPath, lt) then EditAt(doc, Parent(nextPath), MergeChild(Index(nextPath)))
    else doc
  }

  /** Steps 4 and 5 for the list at p: it is merged into its previous sibling when that is
      a list of type lt, and `listPath` moves there; then step 5 runs from `listPath`. */
  function MergeAround(doc: seq<Node>, p: Path, lt: ListType): seq<Node>
    requires p != []
  {
    var prev := Index(p) > 0 && IsListAt(doc, Parent(p) + [Index(p) - 1], lt);
    if prev then MergeNext(EditAt(doc, Parent(p), MergeChild(Index(p))), Parent(p) + [Index(p) - 1], lt)
    else MergeNext(doc, p, lt)
  }

  /** Steps 4 and 5 of `toggleList` on the first list of type lt the selection touches;
      without one nothing changes. */
  function MergeLists(doc: seq<Node>, sel: Option<Range>, lt: ListType): seq<Node>
  {
    match FirstIn(doc, sel, ListMatch(Some(lt)))
    case None => doc
    case Some(p) => MergeAround(doc, p, lt)
  }

  /** The items of a run of lists, earlier lists' items first. */
  function Items(ls: seq<Node>): seq<Node>
  {
    if ls == [] then [] else (if ls[0].Element? then ls[0].children else []) + Items(ls[1..])
  }

  lemma ItemsOne(a: Node)
    requires a.Element?
    ensures Items([a]) == a.children
  {
    assert [a][1..] == [];
  }

  lemma ItemsCons(a: Node, rest: seq<Node>)
    requires a.Element?
    ensures Items([a] + rest) == a.children + Items(rest)
  {
    assert ([a] + rest)[1..] == rest;
  }

  /** Where the run of same-type lists around index i starts and ends. */
  function RunStart(s: seq<Node>, i: nat, lt: ListType): nat
    requires i < |s|
  {
    if i > 0 && IsList(s[i - 1], Some(lt)) then i - 1 else i
  }

  function RunEnd(s: seq<Node>, i: nat, lt: ListType): nat
    requires i < |s|
  {
    if i + 1 < |s| && IsList(s[i + 1], Some(lt)) then i + 1 else i
  }

  /** The list s[lo..hi] replaced by one list of type lt holding their items. */
  function Merged(s: seq<Node>, lo: nat, hi: nat, lt: ListType): seq<Node>
    requires lo <= hi < |s|
  {
    s[..lo] + [Element(List(lt), Items(s[lo..hi + 1]))] + s[hi + 1..]
  }

  /** One merge: the children of s[i] go to the end of s[i-1]'s, and s[i] goes away. */
  lemma MergeOne(s: seq<Node>, i: nat, lt: ListType)
    requires 0 < i < |s| && IsList(s[i - 1], Some(lt)) && IsList(s[i], Some(lt))
    ensures ApplyEdit(s, MergeChild(i)) == Merged(s, i - 1, i, lt)
  {
    assert s[i - 1..i + 1] == [s[i - 1]] + [s[i]];
    ItemsCons(s[i - 1], [s[i]]);
    ItemsOne(s[i]);
  }

  /** Two merges at the same index: the lists at i - 1, i and i + 1 become one. */
  lemma MergeTwo(s: seq<Node>, i: nat, lt: ListType)
    requires 0 < i && i + 1 < |s|
    requires IsList(s[i - 1], Some(lt)) && IsList(s[i], Some(lt)) && IsList(s[i + 1], Some(lt))
    ensures ApplyEdit(ApplyEdit(s, MergeChild(i)), MergeChild(i)) == Merged(s, i - 1, i + 1, lt)
  {
    var m := Element(List(lt), s[i - 1].children + s[i].children);
    var s1 := s[..i - 1] + [m] + s[i + 1..];
    assert ApplyEdit(s, MergeChild(i)) == s1;
    assert s1[i - 1] == m && s1[i] == s[i + 1] && |s1| == |s| - 1;
    assert s1[..i - 1] == s[..i - 1] && s1[i + 1..] == s[i + 2..];
    assert ApplyEdit(s1, MergeChild(i)) == s[..i - 1] + [Element(List(lt), m.children + s[i + 1].children)] + s[i + 2..];
    assert s[i - 1..i + 2] == [s[i - 1]] + ([s[i]] + [s[i + 1]]);
    ItemsCons(s[i - 1], [s[i]] + [s[i + 1]]);
    ItemsCons(s[i], [s[i + 1]]);
    ItemsOne(s[i + 1]);
    assert Items(s[i - 1..i + 2]) == m.children + s[i + 1].children;
  }

  lemma MergeNone(s: seq<Node>, i: nat, lt: ListType)
    requires i < |s| && IsList(s[i], Some(lt))
    ensures s == Merged(s, i, i, lt)
  {
    assert s[i..i + 1] == [s[i]];
    ItemsOne(s[i]);
    assert s[i] == Element(List(lt), s[i].children);
    assert s == s[..i] + [s[i]] + s[i + 1..];
  }

  /** Whether the sibling at index j of the list at pp is a list of type lt. */
  lemma SiblingIsList(doc: seq<Node>, pp: Path, j: nat, lt: ListType)
    requires ChildrenAt(doc, pp).Some?
    ensures IsListAt(doc, pp + [j], lt)
      <==> j < |ChildrenAt(doc, pp).value| && IsList(ChildrenAt(doc, pp).value[j], Some(lt))
  {
    NodeAtChild(doc, pp, j);
  }

  /** After merging s[i] into s[i-1], the node after the merged list is s[i+1]. */
  lemma AfterMerge(s: seq<Node>, i: nat, lt: ListType)
    requires 0 < i < |s| && IsList(s[i - 1], Some(lt)) && IsList(s[i], Some(lt))
    ensures |ApplyEdit(s, MergeChild(i))| == |s| - 1
    ensures i + 1 < |s| ==> ApplyEdit(s, MergeChild(i))[i] == s[i + 1]
  {
  }

  /** Steps 4 and 5 when the previous sibling is a list of the same type. */
  lemma MergeAroundPrevious(doc: seq<Node>, p: Path, lt: ListType)
    requires p != [] && ChildrenAt(doc, Parent(p)).Some?
    requires var s := ChildrenAt(doc, Parent(p)).value;
      0 < Index(p) < |s| && IsList(s[Index(p)], Some(lt)) && IsList(s[Index(p) - 1], Some(lt))
    ensures var pp, i, s := Parent(p), Index(p), ChildrenAt(doc, Parent(p)).value;
      var doc1 := EditAt(doc, pp, MergeChild(i));
      var next := i + 1 < |s| && IsList(s[i + 1], Some(lt));
      MergeAround(doc, p, lt) == (if next then EditAt(doc1, pp, MergeChild(i)) else doc1)
      && ChildrenAt(doc1, pp) == Some(ApplyEdit(s, MergeChild(i)))
  {
    var pp, i, s := Parent(p), Index(p), ChildrenAt(doc, Parent(p)).value;
    SiblingIsList(doc, pp, i - 1, lt);
    var doc1 := EditAt(doc, pp, MergeChild(i));
    EditAtList(doc, pp, MergeChild(i));
    AfterMerge(s, i, lt);
    var lp := pp + [i - 1];
    assert Parent(lp) == pp && Index(lp) == i - 1;
    SiblingIsList(doc1, pp, i, lt);
  }

  /** Steps 4 and 5 when the previous sibling is not a list of the same type. */
  lemma MergeAroundAlone(doc: seq<Node>, p: Path, lt: ListType)
    requires p != [] && ChildrenAt(doc, Parent(p)).Some?
    requires var s := ChildrenAt(doc, Parent(p)).value;
      Index(p) < |s| && !(Index(p) > 0 && IsList(s[Index(p) - 1], Some(lt)))
    ensures var pp, i, s := Parent(p), Index(p), ChildrenAt(doc, Parent(p)).value;
      var next := i + 1 < |s| && IsList(s[i + 1], Some(lt));
      MergeAround(doc, p, lt) == (if next then EditAt(doc, pp, MergeChild(i + 1)) else doc)
  {
    var pp, i := Parent(p), Index(p);
    if i > 0 {
      SiblingIsList(doc, pp, i - 1, lt);
    }
    SiblingIsList(doc, pp, i + 1, lt);
  }

  /** What steps 4 and 5 do to the document around a list of type lt at p: its parent's
      children list becomes the run of same-type lists around p merged into one, and every
      node outside that parent's subtree is unchanged. */
  lemma MergeAroundShape(doc: seq<Node>, p: Path, lt: ListType)
    requires p != [] && NodeAt(doc, p).Some? && IsList(NodeAt(doc, p).value, Some(lt))
    ensures ChildrenAt(doc, Parent(p)).Some? && Index(p) < |ChildrenAt(doc, Parent(p)).value|
    ensures var s := ChildrenAt(doc, Parent(p)).value;
      ChildrenAt(MergeAround(doc, p, lt), Parent(p))
        == Some(Merged(s, RunStart(s, Index(p), lt), RunEnd(s, Index(p), lt), lt))
    ensures forall q :: Compare(q, Parent(p)) != 0 ==> NodeAt(MergeAround(doc, p, lt), q) == NodeAt(doc, q)
    ensures NodesString(MergeAround(doc, p, lt)) == NodesString(doc)
  {
    ParentList(doc, p);
    var pp, i, s := Parent(p), Index(p), ChildrenAt(doc, Parent(p)).value;
    var prev := i > 0 && IsList(s[i - 1], Some(lt));
    var next := i + 1 < |s| && IsList(s[i + 1], Some(lt));
    var doc1 := if prev then EditAt(doc, pp, MergeChild(i)) else doc;
    var at := if prev then i else i + 1;
    if prev {
      MergeAroundPrevious(doc, p, lt);
    } else {
      MergeAroundAlone(doc, p, lt);
    }
    var out := MergeAround(doc, p, lt);
    EditAtList(doc, pp, MergeChild(i));
    EditAtList(doc1, pp, MergeChild(at));
    if prev && next {
      MergeTwo(s, i, lt);
    } else if prev {
      MergeOne(s, i, lt);
    } else if next {
      MergeOne(s, i + 1, lt);
    } else {
      MergeNone(s, i, lt);
    }
    MergeListsText(doc, pp, i, at, prev, next);
    forall q | Compare(q, pp) != 0 ensures NodeAt(out, q) == NodeAt(doc, q) {
      EditAtElsewhere(doc, pp, MergeChild(i), q);
      EditAtElsewhere(doc1, pp, MergeChild(at), q);
    }
  }

  /** The merge keeps the document's text, and does nothing when the selection touches no
      list of the requested type. */
  lemma MergeListsShape(doc: seq<Node>, sel: Option<Range>, lt: ListType)
    ensures NodesString(MergeLists(doc, sel, lt)) == NodesString(doc)
    ensures FirstIn(doc, sel, ListMatch(Some(lt))).None? ==> MergeLists(doc, sel, lt) == doc
  {
    match FirstIn(doc, sel, ListMatch(Some(lt)))
    case None =>
    case Some(p) =>
      MergeAroundShape(doc, p, lt);
  }

  lemma MergeListsText(doc: seq<Node>, pp: Path, i: nat, at: nat, prev: bool, next: bool)
    ensures var doc1 := if prev then EditAt(doc, pp, MergeChild(i)) else doc;
      NodesString(if next then EditAt(doc1, pp, MergeChild(at)) else doc1) == NodesString(doc)
  {
    var doc1 := if prev then EditAt(doc, pp, MergeChild(i)) else doc;
    if ChildrenAt(doc, pp).Some? {
      MergeKeepsText(ChildrenAt(doc, pp).value, i);
    }
    EditAtKeepsText(doc, pp, MergeChild(i));
    if ChildrenAt(doc1, pp).Some? {
      MergeKeepsText(ChildrenAt(doc1, pp).value, at);
    }
    EditAtKeepsText(doc1, pp, MergeChild(at));
  }

  /** Step 4 of `toggleList` as written: merge the list at p into its previous sibling
      when that is a list of type lt; the result is `listPath` afterwards. */
  method MergePrevious(e: Editor, p: Path, lt: ListType) returns (listPath: Path)
    requires p != []
    modifies e`children
    ensures listPath != []
    ensures var prev := Index(p) > 0 && IsListAt(old(e.children), Parent(p) + [Index(p) - 1], lt);
      listPath == (if prev then Parent(p) + [Index(p) - 1] else p)
      && e.children == (if prev then EditAt(old(e.children), Parent(p), MergeChild(Index(p))) else old(e.children))
  {
    listPath := p;
    if Index(listPath) > 0 {
      var prevPath := Parent(listPath) + [Index(listPath) - 1];
      if IsListAt(e.children, prevPath, lt) {
        e.children := EditAt(e.children, Parent(listPath), MergeChild(Index(listPath)));
        listPath := prevPath;
      }
    }
  }

  /** Step 5 of `toggleList` as written: merge the next sibling of `listPath` into it when
      that is a list of type lt. */
  method MergeNextSibling(e: Editor, listPath: Path, lt: ListType)
    requires listPath != []
    modifies e`children
    ensures e.children == MergeNext(old(e.children), listPath, lt)
  {
    var nextPath := Parent(listPath) + [Index(listPath) + 1];
    if IsListAt(e.children, nextPath, lt) {
      e.children := EditAt(e.children, Parent(nextPath), MergeChild(Index(nextPath)));
    }
  }

  /** Steps 4 and 5 of `toggleList` as written: find the list, merge it into a same-type
      previous sibling and move `listPath` there, then merge a same-type next sibling. */
  method MergeWithSiblingLists(e: Editor, lt: ListType)
    modifies e`children
    ensures e.children == MergeLists(old(e.children), e.selection, lt)
  {
    ghost var doc := e.children;
    var found := FirstIn(e.children, e.selection, ListMatch(Some(lt)));
    if found.None? {
      return;
    }
    assert MergeLists(doc, e.selection, lt) == MergeAround(doc, found.value, lt);
    var listPath := MergePrevious(e, found.value, lt);
    MergeNextSibling(e, listPath, lt);
  }

  /** `toggleList`. Steps 1 to 3 (unwrapping the lists at the selection, relabelling the
      selected blocks with `RelabelKind`, and, when activating, wrapping them in a new list)
      are carried out by the editor's splitting transforms; `restructure` gives their
      outcome for the chosen label, and `rebasedSel` the selection as the editor rebases it
      over them. Deactivating stops there; activating then merges at that selection. */
  method ToggleList(e: Editor, lt: ListType, restructure: ElementKind -> seq<Node>, rebasedSel: Option<Range>)
    modifies e`children, e`selection
    ensures e.selection == rebasedSel
    ensures var active := IsListActive(old(e.children), old(e.selection), Some(lt));
      e.children == if active then restructure(RelabelKind(active))
                    else MergeLists(restructure(RelabelKind(active)), rebasedSel, lt)
  {
    var active := IsListActive(e.children, e.selection, Some(lt));
    e.children := restructure(RelabelKind(active));
    e.selection := rebasedSel;
    if !active {
      MergeWithSiblingLists(e, lt);
    }
  }

  /** An unordered item split off the end of an ordered list lands next to an unordered
      list: merging at the cursor rebased into it joins the two. */
  const SplitOffDoc: seq<Node> := [
    Element(List(Ordered), [Element(ListItem, [Text("a", None, None)])]),
    Element(List(Unordered), [Element(ListItem, [Text("b", None, None)])]),
    Element(List(Unordered), [Element(ListItem, [Text("c", None, None)])])
  ]

  /** Below the item of the second list there is only its text leaf. */
  lemma BelowSplitOffItem(q: Path)
    requires |q| >= 3 && [1, 0, 0] <= q
    ensures NodeAt(SplitOffDoc, q) == if |q| == 3 then Some(Text("b", None, None)) else None
  {
    var item := SplitOffDoc[1].children[0];
    assert NodeAt(SplitOffDoc, q) == NodeAt(SplitOffDoc[1].children, q[1..]);
    assert NodeAt(SplitOffDoc[1].children, q[1..]) == NodeAt(item.children, q[1..][1..]);
  }

  /** The only unordered list the cursor at [1, 0, 0] touches is the one at [1]. */
  lemma SplitOffOnlyHit(q: Path)
    requires Hit(SplitOffDoc, q, Range(Point([1, 0, 0], 0), Point([1, 0, 0], 0)), ListMatch(Some(Unordered)))
    ensures q == [1]
  {
    assert q <= [1, 0, 0] || [1, 0, 0] <= q;
    assert q != [] && q[0] == 1;
    if |q| > 1 {
      assert q[1] == 0;
      assert NodeAt(SplitOffDoc, q) == NodeAt(SplitOffDoc[1].children, q[1..]);
      if |q| > 2 {
        BelowSplitOffItem(q);
      }
    }
  }

  /** The cursor at [1, 0, 0] finds the second list first. */
  lemma SplitOffFound()
    ensures var pt := Point([1, 0, 0], 0);
      FirstIn(SplitOffDoc, Some(Range(pt, pt)), ListMatch(Some(Unordered))) == Some([1])
  {
    var pt := Point([1, 0, 0], 0);
    var r := Range(pt, pt);
    SplitOffSecondHit();
    var found := FirstIn(SplitOffDoc, Some(r), ListMatch(Some(Unordered)));
    assert found.Some?;
    SplitOffOnlyHit(found.value);
  }

  lemma SplitOffSecondHit()
    ensures var pt := Point([1, 0, 0], 0);
      Hit(SplitOffDoc, [1], Range(pt, pt), ListMatch(Some(Unordered)))
  {
    assert NodeAt(SplitOffDoc, [1]) == Some(SplitOffDoc[1]);
  }

  /** Merging around the second list joins it with the third and leaves the first. */
  lemma SplitOffMergeAround()
    ensures MergeAround(SplitOffDoc, [1], Unordered) == Merged(SplitOffDoc, 1, 2, Unordered)
  {
    var doc := SplitOffDoc;
    MergeAroundShape(doc, [1], Unordered);
    assert Parent([1]) == [] && Index([1]) == 1;
    assert RunStart(doc, 1, Unordered) == 1 && RunEnd(doc, 1, Unordered) == 2;
  }

  lemma MergeAtRebasedCursor()
    ensures var pt := Point([1, 0, 0], 0);
      MergeLists(SplitOffDoc, Some(Range(pt, pt)), Unordered) == Merged(SplitOffDoc, 1, 2, Unordered)
  {
    SplitOffFound();
    SplitOffMergeAround();
  }
}
