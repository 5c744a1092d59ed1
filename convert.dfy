/** The persisted format of the field value and the two converters between it and the
    editing tree (src/helper/convert.ts). */
module Convert {
  import opened Wrappers
  import opened Types

  /** A node of the persisted form. An element record keeps the element's attributes; a
      text record is `{type: 'text', value, bold?, italic?}` and may carry further keys,
      which `extra` stands for. */
  datatype PNode =
    | PElement(kind: ElementKind, children: seq<PNode>)
    | PText(value: string, bold: Option<bool>, italic: Option<bool>, extra: map<string, string>)

  /** The stored value: absent (`null`), the empty marker `''`, or a `root` record. */
  datatype Stored = Absent | Blank | Root(children: seq<PNode>)

  /** The characters JavaScript's `String.prototype.trim` removes: the ECMAScript
      WhiteSpace and LineTerminator code points. */
  predicate IsWhitespace(c: char)
  {
    || c == '\t' || c == '\n' || c == '\U{000B}' || c == '\U{000C}' || c == '\r'
    || c == ' ' || c == '\U{00A0}' || c == '\U{1680}'
    || ('\U{2000}' <= c <= '\U{200A}')
    || c == '\U{2028}' || c == '\U{2029}' || c == '\U{202F}' || c == '\U{205F}'
    || c == '\U{3000}' || c == '\U{FEFF}'
  }

  predicate IsBlank(s: string)
  {
    forall i :: 0 <= i < |s| ==> IsWhitespace(s[i])
  }

  /** How many whitespace characters the text starts with. */
  function LeadingWhitespace(s: string): (k: nat)
    ensures k <= |s|
    ensures forall i :: 0 <= i < k ==> IsWhitespace(s[i])
    ensures k < |s| ==> !IsWhitespace(s[k])
  {
    if s != [] && IsWhitespace(s[0]) then 1 + LeadingWhitespace(s[1..]) else 0
  }

  /** How many whitespace characters the text ends with. */
  function TrailingWhitespace(s: string): (k: nat)
    ensures k <= |s|
    ensures forall i :: |s| - k <= i < |s| ==> IsWhitespace(s[i])
    ensures k < |s| ==> !IsWhitespace(s[|s| - 1 - k])
  {
    if s != [] && IsWhitespace(s[|s| - 1]) then 1 + TrailingWhitespace(s[..|s| - 1]) else 0
  }

  /** `trim()`: the text between the leading and the trailing whitespace. It is empty
      exactly when the text is all whitespace, and otherwise starts and ends with a
      character that is not whitespace. */
  function Trim(s: string): (r: string)
    ensures r == [] <==> IsBlank(s)
    ensures r != [] ==> !IsWhitespace(r[0]) && !IsWhitespace(r[|r| - 1])
    ensures r != [] ==> LeadingWhitespace(s) + TrailingWhitespace(s) < |s|
    ensures r != [] ==> r == s[LeadingWhitespace(s)..|s| - TrailingWhitespace(s)]
  {
    var a, b := LeadingWhitespace(s), TrailingWhitespace(s);
    if a == |s| then "" else
    assert a < |s| - b;
    s[a..|s| - b]
  }

  // ---------------------------------------------------------------------------------
  // serialize

  /** One editing node in persisted form: an element keeps its attributes and converts
      its children in order; a leaf becomes a text record with its marks exactly as they
      are, an explicit `false` included. */
  function ToPersisted(n: Node): (r: PNode)
    ensures r.PElement? <==> n.Element?
    ensures n.Element? ==> r.kind == n.kind && |r.children| == |n.children|
    ensures n.Text? ==> r == PText(n.text, n.bold, n.italic, map[])
    decreases n
  {
    match n
    case Element(k, ch) => PElement(k, ToPersistedAll(ch))
    case Text(t, b, i) => PText(t, b, i, map[])
  }

  /** `nodes.map(convertNode)`: same count, same order. */
  function ToPersistedAll(ns: seq<Node>): (r: seq<PNode>)
    ensures |r| == |ns|
    ensures forall i :: 0 <= i < |ns| ==> r[i] == ToPersisted(ns[i])
    decreases ns
  {
    if ns == [] then [] else [ToPersisted(ns[0])] + ToPersistedAll(ns[1..])
  }

  /** `serialize`: the empty marker when the text of the whole document is blank, and
      otherwise a root holding the converted top-level nodes. */
  function Serialize(ns: seq<Node>): (r: Stored)
    ensures !r.Absent?
    ensures r.Blank? <==> IsBlank(NodesString(ns))
    ensures r.Root? ==> |r.children| == |ns|
    ensures r.Root? ==> forall i :: 0 <= i < |ns| ==> r.children[i] == ToPersisted(ns[i])
  {
    if Trim(NodesString(ns)) == "" then Blank else Root(ToPersistedAll(ns))
  }

  // ---------------------------------------------------------------------------------
  // deserialize

  /** One persisted record as an editing node: a text record keeps its value and the
      marks present in it and drops every other key; any other record keeps its
      attributes and converts its children in order. */
  function FromPersisted(p: PNode): (n: Node)
    ensures n.Text? <==> p.PText?
    ensures p.PText? ==> n == Text(p.value, p.bold, p.italic)
    ensures p.PElement? ==> n.kind == p.kind && |n.children| == |p.children|
    decreases p
  {
    match p
    case PText(v, b, i, _) => Text(v, b, i)
    case PElement(k, ch) => Element(k, FromPersistedAll(ch))
  }

  function FromPersistedAll(ps: seq<PNode>): (r: seq<Node>)
    ensures |r| == |ps|
    ensures forall i :: 0 <= i < |ps| ==> r[i] == FromPersisted(ps[i])
    decreases ps
  {
    if ps == [] then [] else [FromPersisted(ps[0])] + FromPersistedAll(ps[1..])
  }

  /** The document an absent or empty value opens with: one paragraph with one empty
      text leaf. */
  const EmptyDocument: seq<Node> := [Element(Paragraph, [Text("", None, None)])]

  /** `deserialize`: the default paragraph for an absent or empty value, and otherwise the
      root's children converted, same count and order (a root without children gives no
      nodes at all). */
  function Deserialize(v: Stored): (r: seq<Node>)
    ensures !v.Root? ==> r == EmptyDocument
    ensures v.Root? ==> |r| == |v.children|
    ensures v.Root? ==> forall i :: 0 <= i < |r| ==> r[i] == FromPersisted(v.children[i])
  {
    match v
    case Absent => EmptyDocument
    case Blank => EmptyDocument
    case Root(ch) => FromPersistedAll(ch)
  }

  // ---------------------------------------------------------------------------------
  // round trips

  lemma {:induction false} NodeRoundTrip(n: Node)
    ensures FromPersisted(ToPersisted(n)) == n
    decreases n
  {
    if n.Element? {
      NodesRoundTrip(n.children);
    }
  }

  lemma {:induction false} NodesRoundTrip(ns: seq<Node>)
    ensures FromPersistedAll(ToPersistedAll(ns)) == ns
    decreases ns
  {
    var r := FromPersistedAll(ToPersistedAll(ns));
    forall i | 0 <= i < |ns| ensures r[i] == ns[i] {
      NodeRoundTrip(ns[i]);
    }
  }

  /** Deserializing a serialized document gives it back exactly, marks included, unless
      its text is blank. */
  lemma SerializeRoundTrip(ns: seq<Node>)
    requires !IsBlank(NodesString(ns))
    ensures Deserialize(Serialize(ns)) == ns
  {
    NodesRoundTrip(ns);
  }

  /** A document whose text is blank is stored as the empty marker, and comes back as the
      default paragraph. */
  lemma BlankDocumentCollapses(ns: seq<Node>)
    requires IsBlank(NodesString(ns))
    ensures Serialize(ns) == Blank
    ensures Deserialize(Serialize(ns)) == EmptyDocument
  {
  }

  /** A persisted record with no keys outside the model. */
  predicate NoExtraKeys(p: PNode)
    decreases p
  {
    match p
    case PText(_, _, _, extra) => extra == map[]
    case PElement(_, ch) => forall i :: 0 <= i < |ch| ==> NoExtraKeys(ch[i])
  }

  lemma {:induction false} PersistedRoundTrip(p: PNode)
    requires NoExtraKeys(p)
    ensures ToPersisted(FromPersisted(p)) == p
    decreases p
  {
    if p.PElement? {
      var ch := p.children;
      var r := ToPersistedAll(FromPersistedAll(ch));
      forall i | 0 <= i < |ch| ensures r[i] == ch[i] {
        PersistedRoundTrip(ch[i]);
      }
    }
  }

  /** Conversely, a stored root whose records carry no other keys and whose text is not
      blank is serialized back to itself. */
  lemma StoredRoundTrip(ch: seq<PNode>)
    requires forall i :: 0 <= i < |ch| ==> NoExtraKeys(ch[i])
    requires !IsBlank(NodesString(Deserialize(Root(ch))))
    ensures Serialize(Deserialize(Root(ch))) == Root(ch)
  {
    var r := ToPersistedAll(FromPersistedAll(ch));
    forall i | 0 <= i < |ch| ensures r[i] == ch[i] {
      PersistedRoundTrip(ch[i]);
    }
  }
}
