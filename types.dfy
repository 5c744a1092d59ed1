/** The document model of the editing tree: the closed set of element kinds, text leaves
    with their optional marks, and the plain text of a node (`Node.string`). */
module Types {
  import opened Wrappers

  /** A heading's level is one of 1..6. */
  type HeadingLevel = l: int | 1 <= l <= 6 witness 1

  /** The decimal digit of a heading level, as a template literal prints it. */
  function LevelString(l: HeadingLevel): (s: string)
    ensures |s| == 1 && '1' <= s[0] <= '6'
    ensures s[0] as int - '0' as int == l
  {
    [(48 + l) as char]
  }

  datatype ListType = Ordered | Unordered

  /** The element kinds of the editing tree with their non-children attributes. A link
      always has a url; its target may be absent. */
  datatype ElementKind =
    | Paragraph
    | Heading(level: HeadingLevel)
    | Link(url: string, target: Option<string>)
    | List(listType: ListType)
    | ListItem

  /** A node of the editing tree: an element with its ordered children, or a text leaf
      whose only other keys are the optional `bold` and `italic` marks. */
  datatype Node =
    | Element(kind: ElementKind, children: seq<Node>)
    | Text(text: string, bold: Option<bool>, italic: Option<bool>)

  /** The mark keys of a text leaf: every key of a text leaf except `text`. */
  datatype MarkKey = Bold | Italic

  /** The `type` attribute of each element kind. `root` is not one of them: it only
      wraps the persisted form. */
  const ElementTypeNames: set<string> := {"paragraph", "heading", "link", "list", "list-item"}

  function TypeName(k: ElementKind): (r: string)
    ensures r in ElementTypeNames && r != "root"
    ensures r == "heading" <==> k.Heading?
    ensures r == "paragraph" <==> k.Paragraph?
    ensures r == "list" <==> k.List?
    ensures r == "list-item" <==> k.ListItem?
    ensures r == "link" <==> k.Link?
  {
    match k
    case Paragraph => "paragraph"
    case Heading(_) => "heading"
    case Link(_, _) => "link"
    case List(_) => "list"
    case ListItem => "list-item"
  }

  /** The `listType` attribute of a list: exactly `ordered` or `unordered`. */
  function ListTypeName(t: ListType): (r: string)
    ensures r == "ordered" || r == "unordered"
    ensures r == "unordered" <==> t == Unordered
  {
    match t
    case Ordered => "ordered"
    case Unordered => "unordered"
  }

  /** The editor treats only links as inline; every other element is a block. */
  predicate IsBlock(n: Node)
  {
    n.Element? && !n.kind.Link?
  }

  /** `Node.string`: the concatenated text of every leaf below a node, in order. */
  function NodeString(n: Node): string
    decreases n
  {
    match n
    case Text(t, _, _) => t
    case Element(_, ch) => NodesString(ch)
  }

  /** The concatenated `Node.string` of a sequence of nodes. */
  function NodesString(ns: seq<Node>): string
    decreases ns
  {
    if ns == [] then "" else NodeString(ns[0]) + NodesString(ns[1..])
  }

  lemma {:induction false} NodesStringAppend(a: seq<Node>, b: seq<Node>)
    ensures NodesString(a + b) == NodesString(a) + NodesString(b)
    decreases |a|
  {
    if a == [] {
      assert a + b == b;
    } else {
      assert (a + b)[1..] == a[1..] + b;
      NodesStringAppend(a[1..], b);
    }
  }
}
