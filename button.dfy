/** The formatting menu of the toolbar (src/toolbar/formatting-button.tsx): the style key
    shown for the active block, and the decoding of a chosen key into `toggleFormatting`'s
    arguments. */
module FormattingButton {
  import opened Wrappers
  import opened Types
  import opened Tree
  import opened Convert
  import opened EditorState
  import opened Formatting
  import opened Lists

  // ---------------------------------------------------------------------------------
  // Encoding: the current style key

  /** The key the effect stores as the current style: `paragraph` without an active
      format, `heading-` and the level for a heading (`heading-undefined` if a heading came
      without one), and the type name otherwise. */
  function StyleKey(active: Option<ActiveFormat>): (key: string)
    ensures active.None? ==> key == "paragraph"
    ensures active.Some? && active.value.typ != "heading" ==> key == active.value.typ
    ensures active.Some? && active.value.typ == "heading" ==> |key| > 8 && key[..8] == "heading-"
  {
    match active
    case None => "paragraph"
    case Some(ActiveFormat(typ, level)) =>
      if typ == "heading" then "heading-" + (if level.Some? then LevelString(level.value) else "undefined")
      else typ
  }

  /** The tooltip labels, by style key. */
  const LabelMap: map<string, string> := map[
    "paragraph" := "Paragraph",
    "heading-1" := "Heading 1",
    "heading-2" := "Heading 2",
    "heading-3" := "Heading 3",
    "heading-4" := "Heading 4",
    "heading-5" := "Heading 5",
    "heading-6" := "Heading 6"
  ]

  /** Every key the effect can store for a document has a label. */
  lemma EveryStyleHasLabel(doc: seq<Node>, sel: Option<Range>)
    ensures StyleKey(GetActiveFormatting(doc, sel)) in LabelMap
  {
    var a := GetActiveFormatting(doc, sel);
    if a.Some? && a.value.typ == "heading" {
      var l := a.value.level.value;
      assert StyleKey(a) == "heading-" + LevelString(l);
      if l == 1 { assert StyleKey(a) == "heading-1"; }
      else if l == 2 { assert StyleKey(a) == "heading-2"; }
      else if l == 3 { assert StyleKey(a) == "heading-3"; }
      else if l == 4 { assert StyleKey(a) == "heading-4"; }
      else if l == 5 { assert StyleKey(a) == "heading-5"; }
      else { assert StyleKey(a) == "heading-6"; }
    }
  }

  // ---------------------------------------------------------------------------------
  // Decoding: String.prototype.split and parseInt

  /** `parts.join(c)`. */
  function Join(parts: seq<string>, c: char): string
    requires |parts| >= 1
  {
    if |parts| == 1 then parts[0] else parts[0] + [c] + Join(parts[1..], c)
  }

  /** Prepending x to the first piece prepends it to the joined string. */
  lemma JoinPrepend(x: string, parts: seq<string>, c: char)
    requires |parts| >= 1
    ensures Join([x + parts[0]] + parts[1..], c) == x + Join(parts, c)
  {
    var ps := [x + parts[0]] + parts[1..];
    if |parts| > 1 {
      assert ps[1..] == parts[1..];
    }
  }

  /** `s.split(c)` for a one-character separator: the maximal pieces between separators,
      at least one, none holding the separator, which joined back give s. */
  function Split(s: string, c: char): (parts: seq<string>)
    ensures |parts| >= 1
    ensures forall i :: 0 <= i < |parts| ==> c !in parts[i]
    ensures Join(parts, c) == s
  {
    if s == [] then [""]
    else
      var rest := Split(s[1..], c);
      if s[0] == c then
        assert ([""] + rest)[1..] == rest;
        assert s == [c] + s[1..];
        [""] + rest
      else
        JoinPrepend([s[0]], rest, c);
        assert s == [s[0]] + s[1..];
        [[s[0]] + rest[0]] + rest[1..]
  }

  /** Splitting a piece followed by the separator gives that piece, then the split of the
      rest. */
  lemma {:induction false} SplitAfterPiece(x: string, y: string, c: char)
    requires c !in x
    ensures Split(x + [c] + y, c) == [x] + Split(y, c)
    decreases |x|
  {
    if x == [] {
      assert x + [c] + y == [c] + y;
      assert ([c] + y)[1..] == y;
    } else {
      var s := x + [c] + y;
      var rest := Split(x[1..] + [c] + y, c);
      assert s[1..] == x[1..] + [c] + y;
      assert s[0] == x[0] != c;
      SplitAfterPiece(x[1..], y, c);
      assert rest[0] == x[1..] && rest[1..] == Split(y, c);
      assert Split(s, c) == [[s[0]] + rest[0]] + rest[1..];
      assert [x[0]] + x[1..] == x;
    }
  }

  /** A piece without the separator splits to itself. */
  lemma {:induction false} SplitPiece(x: string, c: char)
    requires c !in x
    ensures Split(x, c) == [x]
    decreases |x|
  {
    if x != [] {
      SplitPiece(x[1..], c);
      assert [x[0]] + x[1..] == x;
    }
  }

  /** Joining pieces that hold no separator and splitting again gives the pieces back. */
  lemma {:induction false} SplitJoin(parts: seq<string>, c: char)
    requires |parts| >= 1
    requires forall i :: 0 <= i < |parts| ==> c !in parts[i]
    ensures Split(Join(parts, c), c) == parts
    decreases |parts|
  {
    if |parts| == 1 {
      SplitPiece(parts[0], c);
    } else {
      SplitJoin(parts[1..], c);
      SplitAfterPiece(parts[0], Join(parts[1..], c), c);
      assert [parts[0]] + parts[1..] == parts;
    }
  }

  /** The text of s before the first c, all of s when c does not occur. */
  function FirstPiece(s: string, c: char): (p: string)
    ensures p <= s && c !in p
    ensures |p| < |s| ==> s[|p|] == c
  {
    if s == [] || s[0] == c then [] else [s[0]] + FirstPiece(s[1..], c)
  }

  /** A prefix without c that ends at a c or at the end of s is the first piece. */
  lemma FirstPieceUnique(s: string, c: char, p: string)
    requires p <= s && c !in p
    requires |p| < |s| ==> s[|p|] == c
    ensures p == FirstPiece(s, c)
  {
  }

  /** The first of the pieces joined is the first piece of the joined string. */
  lemma JoinHead(parts: seq<string>, c: char)
    requires |parts| >= 1
    requires forall i :: 0 <= i < |parts| ==> c !in parts[i]
    ensures parts[0] == FirstPiece(Join(parts, c), c)
  {
    var s := Join(parts, c);
    if |parts| > 1 {
      assert s == parts[0] + ([c] + Join(parts[1..], c));
    }
    FirstPieceUnique(s, c, parts[0]);
  }

  /** The first two pieces of a split: the first piece of s, and the first piece of what
      follows the first separator. */
  lemma SplitHead(s: string, c: char)
    ensures Split(s, c)[0] == FirstPiece(s, c)
    ensures var k := |FirstPiece(s, c)|;
      k < |s| ==> |Split(s, c)| > 1 && Split(s, c)[1] == FirstPiece(s[k + 1..], c)
  {
    var parts := Split(s, c);
    JoinHead(parts, c);
    if |FirstPiece(s, c)| < |s| {
      assert s == parts[0] + [c] + Join(parts[1..], c);
      assert s[|parts[0]| + 1..] == Join(parts[1..], c);
      JoinHead(parts[1..], c);
    }
  }

  predicate IsDigit(ch: char)
  {
    '0' <= ch <= '9'
  }

  /** The number of leading decimal digits of s. */
  function DigitPrefix(s: string): (k: nat)
    ensures k <= |s|
    ensures forall i :: 0 <= i < k ==> IsDigit(s[i])
    ensures k < |s| ==> !IsDigit(s[k])
  {
    if s != [] && IsDigit(s[0]) then 1 + DigitPrefix(s[1..]) else 0
  }

  function DigitValue(ch: char): (d: nat)
    requires IsDigit(ch)
    ensures d <= 9
  {
    ch as int - '0' as int
  }

  /** The value of a string of decimal digits. */
  function DigitsValue(ds: string): (n: nat)
    requires forall i :: 0 <= i < |ds| ==> IsDigit(ds[i])
  {
    if ds == [] then 0 else 10 * DigitsValue(ds[..|ds| - 1]) + DigitValue(ds[|ds| - 1])
  }

  /** The heading-level argument `handleOnSelect` hands on: `undefined` when no second
      piece is there, JS `NaN`, or a number. */
  datatype LevelValue = Undefined | NaN | Number(n: int)

  /** `parseInt(s, 10)`: leading white space skipped, an optional sign, then the longest
      run of digits; `NaN` when there is no digit. */
  function ParseInt(s: string): (r: LevelValue)
    ensures !r.Undefined?
    ensures r.NaN? <==>
      var t := s[LeadingWhitespace(s)..];
      var u := if t != [] && (t[0] == '-' || t[0] == '+') then t[1..] else t;
      u == [] || !IsDigit(u[0])
  {
    var t := s[LeadingWhitespace(s)..];
    var negative := t != [] && t[0] == '-';
    var u := if t != [] && (t[0] == '-' || t[0] == '+') then t[1..] else t;
    var k := DigitPrefix(u);
    if k == 0 then NaN
    else
      var v: int := DigitsValue(u[..k]);
      Number(if negative then -v else v)
  }

  /** A single digit parses to its value. */
  lemma ParseDigit(l: HeadingLevel)
    ensures ParseInt(LevelString(l)) == Number(l)
  {
    var s := LevelString(l);
    assert !IsWhitespace(s[0]);
    assert LeadingWhitespace(s) == 0;
    assert s[0..] == s;
    assert IsDigit(s[0]) && s[0] != '-' && s[0] != '+';
    assert DigitPrefix(s[1..]) == 0;
    assert DigitPrefix(s) == 1;
    assert s[..1] == s && s[..0] == [];
    assert DigitValue(s[0]) == l;
    assert DigitsValue(s) == l;
  }

  /** `handleOnSelect`'s decoding: the format is the piece before the first `-`; a level
      is parsed only when a non-empty second piece exists. */
  function Decode(value: string): (r: (string, LevelValue))
    ensures '-' !in r.0
    ensures r.0 <= value
    ensures |r.0| < |value| ==> value[|r.0|] == '-'
    ensures r.0 == value ==> r.1 == Undefined
    ensures |r.0| < |value| ==>
      var second := FirstPiece(value[|r.0| + 1..], '-');
      r.1 == (if second == "" then Undefined else ParseInt(second))
  {
    SplitHead(value, '-');
    var parts := Split(value, '-');
    var level := if |parts| > 1 && parts[1] != "" then ParseInt(parts[1]) else Undefined;
    if |parts| == 1 then (parts[0], level)
    else
      assert value == parts[0] + ['-'] + Join(parts[1..], '-');
      (parts[0], level)
  }

  /** The level `toggleFormatting` acts on: its test `format === 'heading' && headingLevel`
      treats `undefined`, `NaN` and 0 as no level. Numbers other than 0 outside 1..6 are
      not levels of this model and are read as no level too. */
  function LevelArgument(v: LevelValue): (l: Option<HeadingLevel>)
    ensures l.Some? <==> v.Number? && 1 <= v.n <= 6
    ensures l.Some? ==> l.value == v.n
  {
    if v.Number? && 1 <= v.n <= 6 then Some(v.n as HeadingLevel) else None
  }

  /** The key of a heading decodes to the heading format and its level. */
  lemma DecodeHeadingKey(l: HeadingLevel)
    ensures Decode(StyleKey(Some(ActiveFormat("heading", Some(l))))) == ("heading", Number(l))
  {
    var key := StyleKey(Some(ActiveFormat("heading", Some(l))));
    assert key == "heading" + ['-'] + LevelString(l);
    SplitJoin(["heading", LevelString(l)], '-');
    assert Join(["heading", LevelString(l)], '-') == key;
    ParseDigit(l);
  }

  /** The paragraph key decodes to the paragraph format and no level. */
  lemma DecodeParagraphKey()
    ensures Decode(StyleKey(None)) == ("paragraph", Undefined)
    ensures Decode(StyleKey(Some(ActiveFormat("paragraph", None)))) == ("paragraph", Undefined)
  {
    SplitPiece("paragraph", '-');
  }

  /** Choosing the style key shown for the selection asks `toggleFormatting` for the kind
      the active block already has (a paragraph when none is active). */
  lemma ShownStyleReapplies(doc: seq<Node>, sel: Option<Range>)
    ensures var a := GetActiveFormatting(doc, sel);
      var d := Decode(StyleKey(a));
      var k := FormattingKind(d.0, LevelArgument(d.1));
      (a.None? ==> k == Paragraph)
      && (a.Some? ==> NodeAt(doc, Above(doc, sel, ParagraphOrHeading()).value).value.kind == k)
  {
    var a := GetActiveFormatting(doc, sel);
    if a.None? || a.value.typ == "paragraph" {
      DecodeParagraphKey();
    } else {
      DecodeHeadingKey(a.value.level.value);
    }
  }

  // ---------------------------------------------------------------------------------
  // The component's state

  /** The menu's React state: the current style key and whether the popover is open. */
  class StyleMenu {
    var currentStyle: string
    var open: bool

    constructor()
      ensures currentStyle == "paragraph" && !open
    {
      currentStyle := "paragraph";
      open := false;
    }

    /** The effect run on a selection or focus change. */
    method Refresh(e: Editor)
      modifies this`currentStyle
      ensures currentStyle == StyleKey(GetActiveFormatting(e.children, e.selection))
      ensures currentStyle in LabelMap
    {
      var active := GetActiveFormatting(e.children, e.selection);
      if active.None? {
        currentStyle := "paragraph";
      } else {
        currentStyle := StyleKey(active);
      }
      EveryStyleHasLabel(e.children, e.selection);
    }

    /** `handleOnSelect`: decode the chosen key, toggle the formatting, close the popover.
        The result is `toggleFormatting`'s report of whether it goes on to re-wrap. */
    method Select(e: Editor, value: string) returns (rewrap: bool)
      modifies this`open, e`children
      ensures !open
      ensures var d := Decode(value);
        e.children == FormattedDocument(old(e.children), e.selection, d.0, LevelArgument(d.1))
      ensures rewrap <==> !ListGuard(old(e.children), e.selection, Decode(value).0)
                          && Decode(value).0 == "heading" && IsListActive(e.children, e.selection, None)
    {
      var d := Decode(value);
      rewrap := ToggleFormatting(e, d.0, LevelArgument(d.1));
      open := false;
    }
  }
}
