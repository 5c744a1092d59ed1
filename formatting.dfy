/** Block formatting (src/helper/formatting.ts): which paragraph/heading format is active
    at the selection, and relabelling the selected blocks as a paragraph or a heading. */
module Formatting {
  import opened Wrappers
  import opened Types
  import opened Tree
  import opened Content
  import opened EditorState
  import opened Lists

  // ---------------------------------------------------------------------------------
  // isFormattingActive

  /** The match of `isFormattingActive`: a heading matches when its level is the requested
      one, whatever format was requested; any other element matches when its type is the
      requested format; a text leaf never matches. */
  predicate FormatMatches(n: Node, format: string, level: Option<int>)
  {
    n.Element? && (if n.kind.Heading? then level == Some(n.kind.level as int) else TypeName(n.kind) == format)
  }

  function FormatMatch(format: string, level: Option<int>): Node -> bool
  {
    n => FormatMatches(n, format, level)
  }

  /** `isFormattingActive`: false without a selection; otherwise whether some element the
      selection touches matches. */
  function IsFormattingActive(doc: seq<Node>, sel: Option<Range>, format: string, level: Option<int>): (r: bool)
    ensures sel.None? ==> !r
    ensures r <==> sel.Some? && exists q :: Hit(doc, q, sel.value, FormatMatch(format, level))
  {
    FirstIn(doc, sel, FormatMatch(format, level)).Some?
  }

  /** The element kinds whose type is `format` and which are not headings. */
  predicate PlainKind(n: Node, format: string)
  {
    n.Element? && !n.kind.Heading? && TypeName(n.kind) == format
  }

  function PlainMatch(format: string): Node -> bool
  {
    n => PlainKind(n, format)
  }

  /** Without a level no heading ever matches, so the format is active exactly when the
      selection touches a non-heading element of that type. */
  lemma {:induction false} NoLevelIgnoresHeadings(doc: seq<Node>, r: Range, format: string)
    ensures IsFormattingActive(doc, Some(r), format, None)
        <==> exists q :: Hit(doc, q, r, PlainMatch(format))
  {
    var m, m' := FormatMatch(format, None), PlainMatch(format);
    if IsFormattingActive(doc, Some(r), format, None) {
      var q :| Hit(doc, q, r, m);
      assert Hit(doc, q, r, m');
    }
    if exists q :: Hit(doc, q, r, m') {
      var q :| Hit(doc, q, r, m');
      assert Hit(doc, q, r, m);
    }
  }

  /** A touched heading of level l makes every format read as active for level l, the
      paragraph format included. */
  lemma HeadingActiveForAnyFormat(doc: seq<Node>, r: Range, q: Path, l: HeadingLevel, format: string)
    requires InSpan(q, r) && NodeAt(doc, q).Some?
    requires NodeAt(doc, q).value.Element? && NodeAt(doc, q).value.kind == Heading(l)
    ensures IsFormattingActive(doc, Some(r), format, Some(l as int))
  {
    assert Hit(doc, q, r, FormatMatch(format, Some(l as int)));
  }

  // ---------------------------------------------------------------------------------
  // getActiveFormatting

  /** What `getActiveFormatting` reports: the element type, and a level for headings. */
  datatype ActiveFormat = ActiveFormat(typ: string, level: Option<HeadingLevel>)

  predicate IsParagraphOrHeading(n: Node)
  {
    n.Element? && (n.kind.Paragraph? || n.kind.Heading?)
  }

  function ParagraphOrHeading(): Node -> bool
  {
    n => IsParagraphOrHeading(n)
  }

  /** `getActiveFormatting`: nothing without a selection or without a paragraph or heading
      above it; otherwise the nearest one, reported as `paragraph`, or as `heading` with its
      level. */
  function GetActiveFormatting(doc: seq<Node>, sel: Option<Range>): (r: Option<ActiveFormat>)
    ensures sel.None? ==> r.None?
    ensures r.Some? <==> Above(doc, sel, ParagraphOrHeading()).Some?
    ensures r.Some? ==> r.value.typ == "paragraph" || r.value.typ == "heading"
    ensures r.Some? ==> (r.value.level.Some? <==> r.value.typ == "heading")
    ensures r.Some? ==>
      var n := NodeAt(doc, Above(doc, sel, ParagraphOrHeading()).value);
      n.Some? && n.value.Element?
      && n.value.kind == (if r.value.typ == "heading" then Heading(r.value.level.value) else Paragraph)
  {
    match Above(doc, sel, ParagraphOrHeading())
    case None => None
    case Some(p) =>
      var n := NodeAt(doc, p).value;
      if n.kind.Heading? then Some(ActiveFormat(TypeName(n.kind), Some(n.kind.level)))
      else Some(ActiveFormat(TypeName(n.kind), None))
  }

  // ---------------------------------------------------------------------------------
  // toggleFormatting

  /** The props `toggleFormatting` sets: a heading of the given level when the format is
      `heading` and a level is given, a paragraph for every other call. Either way the
      kind replaces the old one whole, so a level is left only on a heading. */
  function FormattingKind(format: string, level: Option<HeadingLevel>): (k: ElementKind)
    ensures k.Paragraph? || k.Heading?
    ensures k.Heading? <==> format == "heading" && level.Some?
    ensures k.Heading? ==> k.level == level.value
  {
    if format == "heading" && level.Some? then Heading(level.value) else Paragraph
  }

  function BlockMatch(): Node -> bool
  {
    n => IsBlock(n)
  }

  /** The paths among ps that have no strict descendant in all. */
  function LowestOf(ps: seq<Path>, all: seq<Path>): (out: seq<Path>)
    ensures forall q :: q in out <==> q in ps && forall q' :: q' in all ==> !(q < q')
  {
    if ps == [] then []
    else
      var rest := LowestOf(ps[1..], all);
      if exists q' :: q' in all && ps[0] < q' then rest else [ps[0]] + rest
  }

  /** The nodes `setNodes` visits by default (mode `lowest`): the matching nodes the range
      touches that have no matching descendant the range also touches. */
  function LowestIn(doc: seq<Node>, r: Range, pred: Node -> bool): (out: seq<Path>)
    ensures forall q :: q in out <==> Hit(doc, q, r, pred) && forall q' :: q < q' ==> !Hit(doc, q', r, pred)
  {
    var ps := NodesIn(doc, r, pred);
    LowestOf(ps, ps)
  }

  /** `setNodes({type, ...})` on the node at path p. */
  function Relabel(ns: seq<Node>, p: Path, k: ElementKind): seq<Node>
  {
    if p == [] then ns else EditAt(ns, Parent(p), SetKind(Index(p), k))
  }

  /** `setNodes` on every path of ps, in order. */
  function RelabelAll(ns: seq<Node>, ps: seq<Path>, k: ElementKind): seq<Node>
    decreases |ps|
  {
    if ps == [] then ns else Relabel(RelabelAll(ns, ps[..|ps| - 1], k), ps[|ps| - 1], k)
  }

  /** Relabelling a set of paths changes the kind of the elements there and nothing else:
      the same paths exist, text leaves are unchanged, and every other element keeps its
      kind. */
  lemma {:induction false} RelabelAllShape(ns: seq<Node>, ps: seq<Path>, k: ElementKind, q: Path)
    ensures var ns' := RelabelAll(ns, ps, k);
      match NodeAt(ns, q)
      case None => NodeAt(ns', q).None?
      case Some(Text(_, _, _)) => NodeAt(ns', q) == NodeAt(ns, q)
      case Some(Element(k0, _)) =>
        NodeAt(ns', q).Some? && NodeAt(ns', q).value.Element?
        && NodeAt(ns', q).value.kind == (if q in ps && q != [] then k else k0)
    decreases |ps|
  {
    if ps != [] {
      var init, last := ps[..|ps| - 1], ps[|ps| - 1];
      RelabelAllShape(ns, init, k, q);
      var mid := RelabelAll(ns, init, k);
      if last != [] {
        SetKindShape(mid, Parent(last), Index(last), k, q);
        assert Parent(last) + [Index(last)] == last;
      }
      assert q in ps <==> q in init || q == last;
    }
  }

  /** Relabelling keeps the document's text. */
  lemma {:induction false} RelabelAllKeepsText(ns: seq<Node>, ps: seq<Path>, k: ElementKind)
    ensures NodesString(RelabelAll(ns, ps, k)) == NodesString(ns)
    decreases |ps|
  {
    if ps != [] {
      var mid, last := RelabelAll(ns, ps[..|ps| - 1], k), ps[|ps| - 1];
      RelabelAllKeepsText(ns, ps[..|ps| - 1], k);
      if last != [] {
        if ChildrenAt(mid, Parent(last)).Some? {
          SetKindKeepsText(ChildrenAt(mid, Parent(last)).value, Index(last), k);
        }
        EditAtKeepsText(mid, Parent(last), SetKind(Index(last), k));
      }
    }
  }

  /** Whether the list guard of `toggleFormatting` stops it: a list is active and the
      target is a paragraph. */
  predicate ListGuard(doc: seq<Node>, sel: Option<Range>, format: string)
  {
    IsListActive(doc, sel, None) && format == "paragraph"
  }

  /** The document after the guard and the relabelling of `toggleFormatting`: unchanged
      when the guard stops it or there is no selection; otherwise the lowest blocks the
      selection touches take the kind `FormattingKind` gives. */
  function FormattedDocument(doc: seq<Node>, sel: Option<Range>, format: string, level: Option<HeadingLevel>): seq<Node>
  {
    if ListGuard(doc, sel, format) || sel.None? then doc
    else RelabelAll(doc, LowestIn(doc, sel.value, BlockMatch()), FormattingKind(format, level))
  }

  /** What `toggleFormatting` does to the document: every node keeps its place, text leaves
      are unchanged, the lowest touched blocks get the new kind unless the guard stops the
      call, and every other element keeps its kind; the text is unchanged. */
  lemma FormattedDocumentShape(doc: seq<Node>, sel: Option<Range>, format: string, level: Option<HeadingLevel>, q: Path)
    ensures NodesString(FormattedDocument(doc, sel, format, level)) == NodesString(doc)
    ensures ListGuard(doc, sel, format) || sel.None? ==> FormattedDocument(doc, sel, format, level) == doc
    ensures var out := FormattedDocument(doc, sel, format, level);
      match NodeAt(doc, q)
      case None => NodeAt(out, q).None?
      case Some(Text(_, _, _)) => NodeAt(out, q) == NodeAt(doc, q)
      case Some(Element(k0, _)) =>
        NodeAt(out, q).Some? && NodeAt(out, q).value.Element?
        && NodeAt(out, q).value.kind ==
          (if !ListGuard(doc, sel, format) && sel.Some? && q in LowestIn(doc, sel.value, BlockMatch())
           then FormattingKind(format, level) else k0)
  {
    if !(ListGuard(doc, sel, format) || sel.None?) {
      var ps := LowestIn(doc, sel.value, BlockMatch());
      RelabelAllShape(doc, ps, FormattingKind(format, level), q);
      RelabelAllKeepsText(doc, ps, FormattingKind(format, level));
    }
  }

  /** `toggleFormatting` up to its second step: the list guard, then `setNodes` with the
      new props. The result says whether the call goes on to the second step (a heading
      was requested and a list is active afterwards), which re-wraps a heading into a
      list-item and is not part of this model. */
  method ToggleFormatting(e: Editor, format: string, level: Option<HeadingLevel>) returns (rewrap: bool)
    modifies e`children
    ensures e.children == FormattedDocument(old(e.children), e.selection, format, level)
    ensures rewrap <==> !ListGuard(old(e.children), e.selection, format)
                        && format == "heading" && IsListActive(e.children, e.selection, None)
  {
    if IsListActive(e.children, e.selection, None) && format == "paragraph" {
      return false;
    }
    var props := FormattingKind(format, level);
    if e.selection.Some? {
      e.children := RelabelAll(e.children, LowestIn(e.children, e.selection.value, BlockMatch()), props);
    }
    rewrap := format == "heading" && IsListActive(e.children, e.selection, None);
  }
}
