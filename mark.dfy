/** The bold and italic marks at the cursor (src/helper/mark.ts). */
module Mark {
  import opened Wrappers
  import opened Types
  import opened Tree
  import opened EditorState

  function Get(m: Marks, k: MarkKey): Option<bool>
  {
    match k
    case Bold => m.bold
    case Italic => m.italic
  }

  /** The record with key k set to v (absent when v is None) and the other key kept. */
  function With(m: Marks, k: MarkKey, v: Option<bool>): (r: Marks)
    ensures Get(r, k) == v
    ensures forall k' :: k' != k ==> Get(r, k') == Get(m, k')
  {
    match k
    case Bold => m.(bold := v)
    case Italic => m.(italic := v)
  }

  /** `isMarkActive`: a mark is active only when the record at the cursor holds exactly
      `true` for it; no record, an absent key and `false` all read as inactive. */
  function IsMarkActive(marks: Option<Marks>, k: MarkKey): (r: bool)
    ensures marks.None? ==> !r
    ensures r <==> marks.Some? && Get(marks.value, k) == Some(true)
  {
    match marks
    case None => false
    case Some(m) => Get(m, k) == Some(true)
  }

  /** `toggleMark` on the record: `removeMark` drops an active key, `addMark` sets an
      inactive one to `true`; the other key is untouched, and without a selection (no
      record) both do nothing. */
  function Toggled(marks: Option<Marks>, k: MarkKey): (r: Option<Marks>)
    ensures r.Some? <==> marks.Some?
    ensures marks.Some? ==> Get(r.value, k) == (if IsMarkActive(marks, k) then None else Some(true))
    ensures marks.Some? ==> forall k' :: k' != k ==> Get(r.value, k') == Get(marks.value, k')
    ensures IsMarkActive(r, k) <==> marks.Some? && !IsMarkActive(marks, k)
  {
    match marks
    case None => None
    case Some(m) => Some(With(m, k, if IsMarkActive(marks, k) then None else Some(true)))
  }

  /** Toggling twice gives back whether the mark was active, and leaves the key either
      `true` or absent: an explicit `false` ends up absent. */
  lemma ToggleTwice(marks: Option<Marks>, k: MarkKey)
    requires marks.Some?
    ensures IsMarkActive(Toggled(Toggled(marks, k), k), k) == IsMarkActive(marks, k)
    ensures Get(Toggled(Toggled(marks, k), k).value, k) == (if IsMarkActive(marks, k) then Some(true) else None)
    ensures forall k' :: k' != k ==> Get(Toggled(Toggled(marks, k), k).value, k') == Get(marks.value, k')
  {
  }

  /** Whether the selection is expanded: `addMark` and `removeMark` then write to the
      selected text leaves instead of the editor's record. */
  predicate Expanded(sel: Option<Range>)
  {
    sel.Some? && !IsCollapsed(sel.value)
  }

  /** Slate's splitting write of a mark onto the selected text leaves: `setNodes({[k]:
      true}, {match: Text.isText, split: true})` when `add`, `unsetNodes(k, ...)`
      otherwise. */
  type LeafWrite = (seq<Node>, MarkKey, bool) -> seq<Node>

  /** `toggleMark(editor, format)`. At a collapsed cursor the record is toggled and the
      document kept; with an expanded selection the document becomes `markLeaves`' write
      of the mark (adding it exactly when it was inactive), and the record, which
      `Editor.marks` then reads from the first selected leaf, toggles with it. */
  method ToggleMark(e: Editor, k: MarkKey, markLeaves: LeafWrite)
    requires e.Valid()
    modifies e`marks, e`children
    ensures e.Valid()
    ensures e.marks == Toggled(old(e.marks), k)
    ensures e.children == if Expanded(e.selection) then markLeaves(old(e.children), k, !IsMarkActive(old(e.marks), k))
                          else old(e.children)
  {
    var active := IsMarkActive(e.marks, k);
    if Expanded(e.selection) {
      e.children := markLeaves(e.children, k, !active);
    }
    if e.marks.Some? {
      if active {
        e.marks := Some(With(e.marks.value, k, None));
      } else {
        e.marks := Some(With(e.marks.value, k, Some(true)));
      }
    }
  }
}
