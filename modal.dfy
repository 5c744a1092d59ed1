/** The link dialog (src/toolbar/link-modal.tsx): the form state it loads from the
    selection, its field updates, the insert-enable rule and the target it inserts with. */
module LinkModal {
  import opened Wrappers
  import opened Types
  import opened Tree
  import opened Convert
  import opened EditorState
  import opened Links

  /** The dialog's form state. */
  datatype LinkForm = LinkForm(text: string, url: string, openInNewTab: bool)

  const InitialForm := LinkForm("", "", false)

  // ---------------------------------------------------------------------------------
  // Editor.string over a range

  predicate IsTextNode(n: Node)
  {
    n.Text?
  }

  function TextMatch(): Node -> bool
  {
    n => IsTextNode(n)
  }

  function Min(a: nat, b: nat): nat
  {
    if a <= b then a else b
  }

  /** The part of a leaf's text `Editor.string` keeps: cut at the end offset when the leaf
      holds the range's end, then from the start offset when it holds the start (JS
      `slice` clamps both to the text). */
  function LeafSlice(t: string, p: Path, s: Point, e: Point): string
  {
    var t1 := if p == e.path then t[..Min(e.offset, |t|)] else t;
    if p == s.path then t1[Min(s.offset, |t1|)..] else t1
  }

  function LeavesString(doc: seq<Node>, ps: seq<Path>, s: Point, e: Point): string
  {
    if ps == [] then ""
    else
      (match NodeAt(doc, ps[0])
       case Some(Text(t, _, _)) => LeafSlice(t, ps[0], s, e)
       case _ => "")
      + LeavesString(doc, ps[1..], s, e)
  }

  /** `Editor.string(editor, range)`: the text of the leaves the range touches, in
      document order, each cut to the range. */
  function RangeString(doc: seq<Node>, r: Range): string
  {
    LeavesString(doc, NodesIn(doc, r, TextMatch()), Start(r), End(r))
  }

  /** A text leaf has no descendants. */
  lemma {:induction false} LeafHasNoDescendants(ns: seq<Node>, q: Path, p: Path)
    requires q < p && NodeAt(ns, q).Some? && NodeAt(ns, q).value.Text?
    ensures NodeAt(ns, p).None?
    decreases |q|
  {
    if |q| > 1 {
      assert p[0] == q[0];
      LeafHasNoDescendants(ns[q[0]].children, q[1..], p[1..]);
    }
  }

  /** The leaves a collapsed cursor in a text leaf touches: that leaf alone. */
  lemma CursorLeaf(doc: seq<Node>, pt: Point, q: Path)
    requires NodeAt(doc, pt.path).Some? && NodeAt(doc, pt.path).value.Text?
    requires Hit(doc, q, Range(pt, pt), TextMatch())
    ensures q == pt.path
  {
    assert Compare(q, pt.path) == 0;
    if q < pt.path {
      LeafHasNoDescendants(doc, q, pt.path);
    } else if pt.path < q {
      LeafHasNoDescendants(doc, pt.path, q);
    }
  }

  lemma {:induction false} LeavesAtCursor(doc: seq<Node>, ps: seq<Path>, pt: Point)
    requires forall i :: 0 <= i < |ps| ==> ps[i] == pt.path
    ensures LeavesString(doc, ps, pt, pt) == ""
  {
    if ps != [] {
      LeavesAtCursor(doc, ps[1..], pt);
    }
  }

  /** A collapsed cursor in a text leaf selects no text. */
  lemma CursorSelectsNothing(doc: seq<Node>, pt: Point)
    requires NodeAt(doc, pt.path).Some? && NodeAt(doc, pt.path).value.Text?
    ensures RangeString(doc, Range(pt, pt)) == ""
  {
    var r := Range(pt, pt);
    var ps := NodesIn(doc, r, TextMatch());
    forall i | 0 <= i < |ps|
      ensures ps[i] == pt.path
    {
      assert ps[i] in ps;
      CursorLeaf(doc, pt, ps[i]);
    }
    assert Start(r) == pt && End(r) == pt;
    LeavesAtCursor(doc, ps, pt);
  }

  // ---------------------------------------------------------------------------------
  // Loading the form

  /** The form loaded from an active link: its URL, `openInNewTab` exactly when its target
      is `_blank`, and its text. */
  function FormOfLink(n: Node): (f: LinkForm)
    requires IsLinkNode(n)
    ensures f.openInNewTab <==> n.kind.target == Some("_blank")
  {
    LinkForm(NodeString(n), n.kind.url, n.kind.target == Some("_blank"))
  }

  /** `onShowModal`: the form is left as it is without a selection; with no active link it
      is the initial form holding the selected text; otherwise it is loaded from the
      active link. */
  function ShownForm(form: LinkForm, doc: seq<Node>, sel: Option<Range>): (f: LinkForm)
    ensures sel.None? ==> f == form
    ensures sel.Some? && !IsLinkActive(doc, sel) ==>
      f.url == "" && !f.openInNewTab && f.text == RangeString(doc, sel.value)
    ensures IsLinkActive(doc, sel) ==>
      var n := GetActiveLink(doc, sel).value;
      f.url == n.kind.url && f.text == NodeString(n) && (f.openInNewTab <==> n.kind.target == Some("_blank"))
  {
    if sel.None? then form
    else match GetActiveLink(doc, sel)
      case None => InitialForm.(text := RangeString(doc, sel.value))
      case Some(n) => FormOfLink(n)
  }

  /** Opening the dialog at a bare cursor in a text leaf, away from links, shows the
      initial form. */
  lemma CursorOpensInitialForm(form: LinkForm, doc: seq<Node>, pt: Point)
    requires NodeAt(doc, pt.path).Some? && NodeAt(doc, pt.path).value.Text?
    requires !IsLinkActive(doc, Some(Range(pt, pt)))
    ensures ShownForm(form, doc, Some(Range(pt, pt))) == InitialForm
  {
    CursorSelectsNothing(doc, pt);
  }

  // ---------------------------------------------------------------------------------
  // Editing the form

  /** One call of the `onChange(field)` callback. */
  datatype FieldUpdate = SetText(text: string) | SetUrl(url: string) | SetOpenInNewTab(on: bool)

  /** `{ ...prev, [field]: value }`: the named field takes the value, the others are kept. */
  function Updated(form: LinkForm, u: FieldUpdate): (f: LinkForm)
    ensures f.text == (if u.SetText? then u.text else form.text)
    ensures f.url == (if u.SetUrl? then u.url else form.url)
    ensures f.openInNewTab == (if u.SetOpenInNewTab? then u.on else form.openInNewTab)
  {
    match u
    case SetText(t) => form.(text := t)
    case SetUrl(v) => form.(url := v)
    case SetOpenInNewTab(b) => form.(openInNewTab := b)
  }

  /** Updates of different fields commute, and of the same field the later one wins. */
  lemma UpdatesCommute(form: LinkForm, u: FieldUpdate, v: FieldUpdate)
    ensures u.SetText? != v.SetText? && u.SetUrl? != v.SetUrl? ==>
      Updated(Updated(form, u), v) == Updated(Updated(form, v), u)
    ensures u.SetText? == v.SetText? && u.SetUrl? == v.SetUrl? ==>
      Updated(Updated(form, u), v) == Updated(form, v)
  {
  }

  // ---------------------------------------------------------------------------------
  // Inserting

  /** The target `handleInsert` passes on. */
  function TargetOf(openInNewTab: bool): (t: string)
    ensures t == "_blank" <==> openInNewTab
    ensures t == "_blank" || t == "_self"
  {
    if openInNewTab then "_blank" else "_self"
  }

  /** `canInsert`: both the text and the URL hold something other than white space. */
  function CanInsert(form: LinkForm): (r: bool)
    ensures r <==> !IsBlank(form.text) && !IsBlank(form.url)
  {
    Trim(form.text) != "" && Trim(form.url) != ""
  }

  /** Loading an active link and inserting the form unchanged gives a link with the same
      URL and text; a `_blank` target stays `_blank` and any other or missing target
      becomes `_self`. */
  lemma ReinsertKeepsLink(form: LinkForm, doc: seq<Node>, sel: Option<Range>)
    requires IsLinkActive(doc, sel)
    ensures var n := GetActiveLink(doc, sel).value;
      var f := ShownForm(form, doc, sel);
      var m := BuildLink(f.url, f.text, TargetOf(f.openInNewTab));
      m.kind.url == n.kind.url && NodeString(m) == NodeString(n)
      && m.kind.target == Some(if n.kind.target == Some("_blank") then "_blank" else "_self")
      && (n.kind.target == Some("_blank") || n.kind.target == Some("_self") ==> m.kind == n.kind)
  {
  }

  // ---------------------------------------------------------------------------------
  // The component's state

  /** The dialog's React state. */
  class LinkDialog {
    var link: LinkForm

    constructor()
      ensures link == InitialForm
    {
      link := InitialForm;
    }

    method ShowModal(e: Editor)
      modifies this`link
      ensures link == ShownForm(old(link), e.children, e.selection)
    {
      if e.selection.None? {
        return;
      }
      var active := GetActiveLink(e.children, e.selection);
      if active.None? {
        link := InitialForm.(text := RangeString(e.children, e.selection.value));
      } else {
        var n := active.value;
        link := LinkForm(NodeString(n), n.kind.url, n.kind.target == Some("_blank"));
      }
    }

    method Change(u: FieldUpdate)
      modifies this`link
      ensures link == Updated(old(link), u)
    {
      link := Updated(link, u);
    }

    /** `handleInsert`: insert (or replace) the link from the form. `wrapped` is the
        document Slate's wrap produces for an expanded selection, and `rebasedEnd` the end
        of the selection as Slate rebases it over the replacement or the wrap. */
    method Insert(e: Editor, wrapped: seq<Node>, rebasedEnd: Point)
      modifies e`children, e`selection
      ensures var doc, sel, m := old(e.children), old(e.selection), BuildLink(link.url, link.text, TargetOf(link.openInNewTab));
        if IsLinkActive(doc, sel) then
          e.children == ReplaceAt(doc, FirstIn(doc, sel, LinkMatch()).value, m)
          && e.selection == Some(Range(rebasedEnd, rebasedEnd))
        else if sel.None? then
          e.children == doc && e.selection == sel
        else if IsCollapsed(sel.value) then
          e.children == InsertAtCursor(doc, sel.value.anchor, m)
          && e.selection == (match InsertPath(doc, sel.value.anchor)
                             case None => sel
                             case Some(ip) => Some(Range(Point(ip + [0], |link.text|), Point(ip + [0], |link.text|))))
        else
          e.children == wrapped && e.selection == Some(Range(rebasedEnd, rebasedEnd))
    {
      var target := if link.openInNewTab then "_blank" else "_self";
      InsertLink(e, link.url, link.text, target, wrapped, rebasedEnd);
    }
  }
}
