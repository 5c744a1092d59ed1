/** The field component's own logic (src/rich-text-field.tsx): the key-down dispatch over
    the key handlers, and the change filter that reports the serialized value. */
module RichTextField {
  import opened Wrappers
  import opened Types
  import opened Tree
  import opened Convert
  import opened EditorState
  import opened KeyHandler
  import opened Mark

  // ---------------------------------------------------------------------------------
  // handleOnKeyDown

  /** What a key press leads to after the hotkeys: nothing, leaving a list from an empty
      item, a soft line break (`insertText("\n")`), one of the Enter handlers' outcomes, or
      Slate's own `insertBreak`. `Break(Throws)` is the heading handler's TypeError: it
      escapes `handleOnKeyDown`, so neither the link handler nor `insertBreak` runs. */
  datatype Action =
    | Nothing
    | LeaveList
    | InsertNewline
    | Break(outcome: BreakOutcome)
    | InsertBreak

  /** The dispatch of `handleOnKeyDown` after the hotkeys, over a given heading handler.
      Backspace runs only the empty item handler; Enter runs it first, then Shift+Enter
      inserts a line break, then the heading handler, the link handler only if the heading
      handler declined, and `insertBreak` only if both declined. */
  function Dispatch(doc: seq<Node>, sel: Option<Range>, key: string, shift: bool, heading: BreakOutcome): Action
  {
    if key != "Enter" && key != "Backspace" then Nothing
    else if key == "Backspace" then (if EmptyItem(doc, sel).Some? then LeaveList else Nothing)
    else if EmptyItem(doc, sel).Some? then LeaveList
    else if shift then InsertNewline
    else if !heading.Declined? then Break(heading)
    else if LinkBreak(doc, sel).SplitLink? then Break(SplitLink)
    else InsertBreak
  }

  /** The dispatch as written, over the heading handler as written: Enter at the end of a
      heading outside any list item ends in the handler's TypeError. */
  function KeyDownAction(doc: seq<Node>, sel: Option<Range>, key: string, shift: bool): (a: Action)
    ensures key != "Enter" && key != "Backspace" ==> a == Nothing
    ensures key == "Backspace" ==> (a == LeaveList <==> EmptyItem(doc, sel).Some?)
    ensures key == "Backspace" ==> a == LeaveList || a == Nothing
    ensures key == "Enter" ==> a != Nothing
    ensures a == LeaveList <==> (key == "Enter" || key == "Backspace") && EmptyItem(doc, sel).Some?
    ensures a == Break(Throws) <==>
      (key == "Enter" && EmptyItem(doc, sel).None? && !shift
       && AtEndOf(doc, sel, HeadingMatch()) && Above(doc, sel, ListItemMatch()).None?)
  {
    Dispatch(doc, sel, key, shift, HeadingBreakAsWritten(doc, sel))
  }

  /** The dispatch over the corrected heading handler: it never throws. */
  function KeyDownActionIntended(doc: seq<Node>, sel: Option<Range>, key: string, shift: bool): (a: Action)
    ensures a != Break(Throws)
    ensures key == "Enter" ==> a != Nothing
  {
    Dispatch(doc, sel, key, shift, HeadingBreak(doc, sel))
  }

  /** The two dispatches differ exactly where the code as written throws, and there the
      corrected one splits the heading. */
  lemma KeyDownActionsAgree(doc: seq<Node>, sel: Option<Range>, key: string, shift: bool)
    ensures KeyDownAction(doc, sel, key, shift) != KeyDownActionIntended(doc, sel, key, shift)
            <==> KeyDownAction(doc, sel, key, shift) == Break(Throws)
    ensures KeyDownAction(doc, sel, key, shift) == Break(Throws) ==>
            KeyDownActionIntended(doc, sel, key, shift) == Break(SplitHeading)
  {
    HeadingBreakAgrees(doc, sel);
  }

  /** Enter at the end of the top-level heading of the Findings table ends in the
      TypeError, where the corrected dispatch splits the heading. */
  lemma TitleEnterThrows()
    ensures KeyDownAction(TitleDoc, Some(Range(TitleCursor, TitleCursor)), "Enter", false) == Break(Throws)
    ensures KeyDownActionIntended(TitleDoc, Some(Range(TitleCursor, TitleCursor)), "Enter", false) == Break(SplitHeading)
  {
    var sel := Some(Range(TitleCursor, TitleCursor));
    HeadingBreakThrowsOutsideList();
    assert FirstIn(TitleDoc, sel, ListItemMatch()) == None by {
      TitleHasNoItem(sel);
    }
    assert EmptyItem(TitleDoc, sel) == None;
  }

  /** The Findings document holds no list item. */
  lemma TitleHasNoItem(sel: Option<Range>)
    requires sel.Some?
    ensures forall q :: !Hit(TitleDoc, q, sel.value, ListItemMatch())
  {
    forall q | NodeAt(TitleDoc, q).Some?
      ensures !IsListItemNode(NodeAt(TitleDoc, q).value)
    {
      if |q| > 1 {
        var heading := TitleDoc[0];
        assert NodeAt(TitleDoc, q) == NodeAt(heading.children, q[1..]);
        assert q[1..][0] == 0;
      }
    }
  }

  /** Whether the key press's default is suppressed: by a matched hotkey, always on Enter,
      and on Backspace exactly when the empty item handler took it. */
  function PreventsDefault(doc: seq<Node>, sel: Option<Range>, key: string, hotkey: bool): (r: bool)
    ensures key == "Enter" ==> r
    ensures key == "Backspace" ==> (r <==> hotkey || EmptyItem(doc, sel).Some?)
    ensures key != "Enter" && key != "Backspace" ==> (r <==> hotkey)
  {
    hotkey || key == "Enter" || (key == "Backspace" && EmptyItem(doc, sel).Some?)
  }

  /** On Enter without an empty item, Shift always gives a soft line break, whatever the
      heading and link handlers would do. */
  lemma ShiftEnterIsNewline(doc: seq<Node>, sel: Option<Range>)
    requires EmptyItem(doc, sel).None?
    ensures KeyDownAction(doc, sel, "Enter", true) == InsertNewline
  {
  }

  /** The link handler only acts when the heading handler declined, `insertBreak` runs
      exactly when every handler declined a plain Enter, and a throwing heading handler
      stops the dispatch. */
  lemma EnterHandlerOrder(doc: seq<Node>, sel: Option<Range>, key: string, shift: bool)
    ensures var a := KeyDownAction(doc, sel, key, shift);
      (a == Break(SplitLink) ==> HeadingBreakAsWritten(doc, sel).Declined? && LinkBreak(doc, sel).SplitLink?)
      && (a == InsertBreak <==> key == "Enter" && EmptyItem(doc, sel).None? && !shift
                                && HeadingBreakAsWritten(doc, sel).Declined? && LinkBreak(doc, sel).Declined?)
      && (a.Break? && !a.outcome.SplitLink? ==> a.outcome == HeadingBreakAsWritten(doc, sel))
  {
    var h := HeadingBreakAsWritten(doc, sel);
    assert !h.SplitLink?;
  }

  /** `handleOnKeyDown`: the hotkeys first, for every key; then the dispatch. The
      empty-item handler's edit is applied; the splits, the soft line break and
      `insertBreak` are Slate's and are returned as the action to carry out, and
      `Break(Throws)` is returned for the heading handler's TypeError, which leaves the
      document as it was (the default was already prevented). */
  method HandleOnKeyDown(e: Editor, key: string, shift: bool, pressed: set<string>, markLeaves: LeafWrite)
    returns (prevent: bool, action: Action)
    requires e.Valid()
    modifies e`marks, e`children
    ensures e.Valid()
    ensures e.marks == ApplyHotkeys(old(e.marks), Hotkeys, pressed)
    ensures var doc := HotkeysDocument(old(e.children), Expanded(e.selection), old(e.marks), Hotkeys, pressed, markLeaves);
      action == KeyDownAction(doc, e.selection, key, shift)
      && prevent == PreventsDefault(doc, e.selection, key, exists i :: 0 <= i < |Hotkeys| && Hotkeys[i].0 in pressed)
      && e.children == if action == LeaveList then ExitList(doc, EmptyItem(doc, e.selection).value) else doc
  {
    prevent := HandleHotKey(e, pressed, markLeaves);
    if key != "Enter" && key != "Backspace" {
      return prevent, Nothing;
    }
    if key == "Backspace" {
      var handled := HandleEmptyListItem(e);
      if handled {
        prevent := true;
      }
      return prevent, if handled then LeaveList else Nothing;
    }
    prevent := true;
    var handled := HandleEmptyListItem(e);
    if handled {
      return prevent, LeaveList;
    }
    if shift {
      return prevent, InsertNewline;
    }
    var heading := HeadingBreakAsWritten(e.children, e.selection);
    if !heading.Declined? {
      return prevent, Break(heading);
    }
    var link := LinkBreak(e.children, e.selection);
    if link.SplitLink? {
      return prevent, Break(link);
    }
    return prevent, InsertBreak;
  }

  // ---------------------------------------------------------------------------------
  // handleOnChange

  /** The Slate operation types a change can carry. */
  datatype Operation =
    | InsertTextOp | RemoveTextOp | InsertNodeOp | RemoveNodeOp | MergeNodeOp
    | SplitNodeOp | MoveNodeOp | SetNodeOp | SetSelectionOp

  /** `operations.some(op => op.type !== 'set_selection')`. */
  function IsAstChange(ops: seq<Operation>): (r: bool)
    ensures r <==> exists i :: 0 <= i < |ops| && !ops[i].SetSelectionOp?
  {
    if ops == [] then false
    else if !ops[0].SetSelectionOp? then true
    else
      var r := IsAstChange(ops[1..]);
      assert forall i :: 0 < i < |ops| ==> ops[i] == ops[1..][i - 1];
      r
  }

  /** `handleOnChange`: the value reported to the form, only when some operation changed
      the document, and then serialized: the empty marker exactly when the text is blank. */
  function OnChange(ops: seq<Operation>, doc: seq<Node>): (r: Option<Stored>)
    ensures r.Some? <==> exists i :: 0 <= i < |ops| && !ops[i].SetSelectionOp?
    ensures r.Some? ==> !r.value.Absent? && (r.value.Blank? <==> IsBlank(NodesString(doc)))
  {
    if IsAstChange(ops) then Some(Serialize(doc)) else None
  }

  /** A change that only moves the selection reports nothing. */
  lemma SelectionOnlyIsSilent(ops: seq<Operation>, doc: seq<Node>)
    requires forall i :: 0 <= i < |ops| ==> ops[i].SetSelectionOp?
    ensures OnChange(ops, doc).None?
  {
  }

  /** A reported value loads back as the document that produced it, unless its text is
      blank. */
  lemma ReportedValueReloads(ops: seq<Operation>, doc: seq<Node>)
    requires OnChange(ops, doc).Some? && !IsBlank(NodesString(doc))
    ensures Deserialize(OnChange(ops, doc).value) == doc
  {
    SerializeRoundTrip(doc);
  }
}
