/** The editor the editing rules work on: its top-level nodes, its selection and the mark
    record at the cursor. */
module EditorState {
  import opened Wrappers
  import opened Types
  import opened Tree
  import opened Convert

  /** The mark record `Editor.marks` reports at the cursor: each mark key absent, `true`
      or `false`. */
  datatype Marks = Marks(bold: Option<bool>, italic: Option<bool>)

  class Editor {
    /** `editor.children`: the top-level nodes of the document. */
    var children: seq<Node>
    /** `editor.selection`: absent when the editor has never been focused. */
    var selection: Option<Range>
    /** `Editor.marks(editor)`: the mark record at the cursor, absent exactly when there is
        no selection. */
    var marks: Option<Marks>

    ghost predicate Valid()
      reads this
    {
      marks.Some? <==> selection.Some?
    }

    /** The editor the field creates from its value: the deserialized document and no
        selection yet. */
    constructor (value: Stored)
      ensures Valid()
      ensures children == Deserialize(value)
      ensures selection.None? && marks.None?
    {
      children := Deserialize(value);
      selection := None;
      marks := None;
    }
  }
}
