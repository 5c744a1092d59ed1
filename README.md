# rich-text-field in Dafny

A model of the logic of `rich-text-field`, a Slate-based rich text field for Shopify
admin apps. The document is a tree of elements (paragraph, heading of level 1 to 6,
inline link with URL and optional target, ordered or unordered list, list item) over
text leaves that may carry `bold` and `italic` marks. The model covers:

- the persisted format (`serialize`/`deserialize`): a `root` record, `text`/`value`
  leaf records, and the empty marker `''` for a document whose text is blank;
- the helpers that query and edit the document at the selection: marks, lists,
  paragraph/heading formatting, links;
- the key handlers for hotkeys, Enter and Backspace, and the field's key-down dispatch
  and change filter;
- the toolbar's style-key encoding and decoding, the link dialog's form, and the
  renderer's tag choice and URL shortening.

Modules, one per file:

- `Types` (`types.dfy`): the document's node types.
- `Tree` (`tree.dfy`): the part of Slate's tree API the helpers use. It covers paths
  and points, `Path.compare`, `Editor.nodes` over a range in document order,
  `Editor.above`, `Editor.end`, and the structural edits (remove, insert, set, merge,
  lift, text split).
- `Content` (`content.dfy`): proofs that those edits keep the document's text.
- `Convert` (`convert.dfy`): the persisted format.
- `EditorState` (`editor.dfy`): the editor, a class with the fields `children`,
  `selection` and `marks`. The helpers change these fields in place.
- `Mark`, `Lists`, `Formatting`, `Links` and `KeyHandler`: the helper files.
- `RichTextField`: the field component.
- `FormattingButton`, `LinkModal` and `ElementView`: the toolbar menu, the link dialog
  and the renderer.

Some steps are carried out by Slate's range-splitting transforms. Their outcome is not
determined by this repository's code. Where such a step sits inside a modelled
operation, the operation takes that outcome as a parameter:

- `restructure` for `toggleList`'s first three steps, and `rebasedSel` for the
  selection after them;
- `wrapped` for `wrapLink`'s expanded-selection wrap, and `rebasedEnd` for the end of
  the selection after that wrap or after replacing an active link;
- `unwrapped` for `unwrapLink`'s expanded-selection unwrap;
- `markLeaves` for the write of a mark onto the selected text leaves that `addMark` and
  `removeMark` carry out with an expanded selection.

Where such a step ends an operation, the operation returns which step comes next: the
Enter handlers' splits, and the re-wrap at the end of `toggleFormatting`.

## Model

| member | source | states |
|---|---|---|
| Types.TypeName | src/types.ts:41-48 | each element kind has exactly one of the five type names, and never `root` |
| Types.ListTypeName | src/types.ts:30-34 | a list type is `ordered` or `unordered`, `unordered` exactly for unordered lists |
| Tree.FirstIn | src/helper/link.ts:9-16 | the first node `Editor.nodes` yields is one the selection touches and the match accepts; there is none exactly when there is no selection or nothing matches |
| Convert.Trim | src/helper/convert.ts:11 | trimming gives the empty string exactly for blank text; otherwise the result starts and ends with non-white-space and is the text between the leading and trailing white space |
| Convert.Serialize | src/helper/convert.ts:10-35 | never absent; the empty marker exactly when the document's text is blank; otherwise a root holding every top-level node converted, same count and order |
| Convert.ToPersisted | src/helper/convert.ts:17-27 | an element keeps its kind and child count; a leaf becomes a text record with its text as `value` and its marks exactly as they were |
| Convert.Deserialize | src/helper/convert.ts:40-59 | an absent or empty value opens as one paragraph with one empty leaf; a root gives its children converted, same count and order |
| Convert.FromPersisted | src/helper/convert.ts:45-56 | a text record becomes a leaf with its value and the marks present, dropping every other key; other records keep their kind and child count |
| Convert.NodeRoundTrip | src/helper/convert.ts:17-27 | converting a node to its record and back gives the node |
| Convert.SerializeRoundTrip | src/helper/convert.ts:10-59 | a document whose text is not blank deserializes from its serialization exactly, marks included |
| Convert.BlankDocumentCollapses | src/helper/convert.ts:11-15 | a blank document is stored as `''` and reopens as the default paragraph |
| Convert.PersistedRoundTrip | src/helper/convert.ts:45-56 | a record without keys outside the model converts to a node and back to itself |
| Convert.StoredRoundTrip | src/helper/convert.ts:29-34 | a stored root without extra keys and with non-blank text serializes back to itself after loading |
| Mark.IsMarkActive | src/helper/mark.ts:4-8 | a mark is active only when the record holds exactly `true` for it; no record, an absent key or `false` read as inactive |
| Mark.Toggled | src/helper/mark.ts:10-18 | an active mark is removed and an inactive one set to `true`, the other mark untouched; without a selection nothing changes; the mark's activity flips |
| Mark.ToggleTwice | src/helper/mark.ts:10-18 | toggling twice restores whether the mark is active and the other mark, but an explicit `false` ends up absent |
| Mark.ToggleMark | src/helper/mark.ts:10-18 | the editor's marks become the toggled record, keeping the marks present exactly when a selection is; at a collapsed cursor the document is kept, and with an expanded selection it becomes the leaf write `markLeaves` of the mark, adding it exactly when it was inactive |
| Lists.IsListActive | src/helper/list.ts:4-31 | false without a selection; otherwise true exactly when the selection touches a list of the requested type (any list when no type is given) |
| Lists.RelabelKind | src/helper/list.ts:46-52 | step 2 labels the blocks `paragraph` exactly when the list was active, `list-item` otherwise |
| Lists.MergeOne | src/helper/list.ts:92 | merging a list into a previous list of the same type appends its items to that list's and removes it |
| Lists.MergeTwo | src/helper/list.ts:83-111 | merging at the same index twice joins the previous, the new and the next list into one holding all their items in order |
| Lists.MergeAroundShape | src/helper/list.ts:80-111 | merging around a list of type lt replaces the whole run of same-type neighbours around it in its parent by one list of their items; every node outside the parent's subtree is unchanged; the text is kept |
| Lists.MergeListsShape | src/helper/list.ts:68-111 | the merge keeps the document's text, and does nothing when the selection touches no list of the requested type |
| Lists.MergeWithSiblingLists | src/helper/list.ts:68-111 | the document becomes the merge of the first list at the selection with a same-type previous sibling, then with a same-type next sibling of the merged list |
| Lists.ToggleList | src/helper/list.ts:33-114 | the document is the outcome of steps 1 to 3 for the label `RelabelKind` gives, and the selection becomes the rebased selection `rebasedSel`; when the list was not active, that outcome's lists are then merged with their neighbours at `rebasedSel` |
| Lists.SplitOffOnlyHit | src/helper/list.ts:68-75 | in `[ol[a], ul[b], ul[c]]` with the cursor at `[1, 0, 0]`, the only unordered list the cursor touches is the one at `[1]` |
| Lists.MergeAtRebasedCursor | src/helper/list.ts:68-111 | after `[ol[a, b], ul[c]]` with the cursor on `b` is split into `[ol[a], ul[b], ul[c]]`, merging at the rebased cursor `[1, 0, 0]` joins the two unordered lists into one list of their items |
| Formatting.IsFormattingActive | src/helper/formatting.ts:5-28 | false without a selection; otherwise true exactly when the selection touches an element that matches: a heading by level, any other element by type |
| Formatting.NoLevelIgnoresHeadings | src/helper/formatting.ts:16-20 | without a level no heading matches, so the format is active exactly when a non-heading element of that type is touched |
| Formatting.HeadingActiveForAnyFormat | src/helper/formatting.ts:16-18 | a touched heading of level l makes every format, the paragraph format included, read as active for level l |
| Formatting.GetActiveFormatting | src/helper/formatting.ts:30-53 | nothing without a selection or without a paragraph or heading above it; otherwise `paragraph`, or `heading` with a level exactly for headings, matching the kind of the element above |
| Formatting.FormattingKind | src/helper/formatting.ts:62-65 | the new kind is a heading of the given level exactly when `heading` is requested with a level, a paragraph otherwise |
| Formatting.LowestIn | src/helper/formatting.ts:67 | `setNodes` visits exactly the matching touched nodes with no matching touched descendant |
| Formatting.RelabelAllShape | src/helper/formatting.ts:67 | relabelling keeps every path, leaves text leaves unchanged, gives the relabelled elements the new kind and keeps every other element's kind |
| Formatting.FormattedDocumentShape | src/helper/formatting.ts:55-67 | the guard or a missing selection leaves the document unchanged; otherwise the lowest touched blocks take the new kind and nothing else changes; the text is kept |
| Formatting.ToggleFormatting | src/helper/formatting.ts:55-70 | the document becomes the guarded relabelling; the result says whether the call goes on to its re-wrap step (a heading was requested and a list is active afterwards) |
| Links.GetActiveLink | src/helper/link.ts:8-19 | the result is a link that the selection touches; it is absent exactly when there is no selection or no touched link |
| Links.IsLinkActive | src/helper/link.ts:4-6 | true exactly when `getActiveLink` finds a link |
| Links.BuildLink | src/helper/link.ts:38-43 | the new link has the URL and target and one unmarked leaf holding the text, so its text is the given text |
| Links.ReplaceAtShape | src/helper/link.ts:57-63 | removing the node at a path and inserting the new one there replaces it in its list; every node outside the parent's subtree is unchanged |
| Links.InsertPath | src/helper/link.ts:74-75 | an insert position exists exactly when the cursor is in a text leaf; it is a sibling of that leaf: after it at the end of the text, before it at offset 0, between the two halves otherwise |
| Links.InsertAtCursorShape | src/helper/link.ts:74-75 | inserting at a cursor puts the link at the insert position; the cursor's list reads as the leaf's text cut at the cursor around the link's text; nodes outside that list's subtree are unchanged |
| Links.InsertLink | src/helper/link.ts:37-88 | with a link active, the first touched link is replaced in place and the selection collapses to its rebased end; without a selection nothing changes; at a collapsed cursor the link is inserted and the cursor moves to the end of its text; otherwise the document is the wrap's outcome and the selection collapses to its rebased end |
| Links.CursorAfterLink | src/helper/link.ts:74-75 | the new cursor is `Editor.end` of the inserted link |
| Links.UnwrapAtCursorKeepsText | src/helper/link.ts:21-35 | removing the link at the cursor keeps the document's text |
| Links.UnwrapAtCursorLifts | src/helper/link.ts:28-34 | the list that held the lowest link above the cursor becomes that list with the link split around the child holding the cursor, and that child moves into it |
| Links.RemoveLink | src/helper/link.ts:21-35 | nothing changes without a selection; at a collapsed cursor the link there is unwrapped; otherwise the document is the unwrap's outcome |
| KeyHandler.HotkeyMark | src/helper/key-handler.ts:7-10 | `mod+b` toggles bold and `mod+i` italic; no other combo has a mark |
| KeyHandler.BoldHotkey | src/helper/key-handler.ts:12-20 | a key press matching only `mod+b` toggles bold alone; with an expanded selection the document gets bold written to the selected leaves, added exactly when it was inactive, and otherwise stays |
| KeyHandler.NoHotkey | src/helper/key-handler.ts:12-20 | a key press matching no hotkey leaves the marks and the document alone |
| KeyHandler.CollapsedHotkeysKeepDocument | src/helper/key-handler.ts:12-20 | at a collapsed cursor or without a selection, the hotkeys never change the document |
| KeyHandler.HandleHotKey | src/helper/key-handler.ts:12-20 | the marks become the result of toggling, in order, the mark of every matched hotkey, and the document the result of the matching leaf writes when the selection is expanded; the default is prevented exactly when some hotkey matched |
| KeyHandler.EmptyItem | src/helper/key-handler.ts:25-37 | the handler acts on the first list item the selection touches, and only when its text is empty |
| KeyHandler.EnclosingList | src/helper/key-handler.ts:42-48 | when the item holds no list, the list unwrapped is the nearest list above it, a proper ancestor of the item |
| Tree.HasListCount | src/helper/key-handler.ts:42-48 | there is a list among the nodes or below them exactly when the list count is positive |
| Tree.UnwrapLowestNoList | src/helper/key-handler.ts:42-48 | lowest-mode unwrapping changes nothing when there is no list |
| Tree.UnwrapLowestFewerLists | src/helper/key-handler.ts:42-48 | lowest-mode unwrapping never adds a list, and removes at least one when there is one |
| Content.UnwrapLowestKeepsText | src/helper/key-handler.ts:42-48 | lowest-mode unwrapping keeps the text |
| Content.ReplaceChildrenKeepsText | src/helper/key-handler.ts:42-48 | giving one child new children with the same text keeps the text of its children list |
| KeyHandler.ExitListKeepsText | src/helper/key-handler.ts:39-48 | leaving the list keeps the document's text |
| KeyHandler.ExitListShape | src/helper/key-handler.ts:39-48 | an item holding no list, directly in a list, becomes a paragraph with the item's children; the list's parent now holds exactly the siblings before the list, a list of the old kind with the items before the item (if any), the paragraph, a list of the old kind with the items after it (if any), and the siblings after the list |
| KeyHandler.AsParagraphInList | src/helper/key-handler.ts:39-41 | relabelling the item replaces it with a paragraph in its list, and that list is still the nearest list above it |
| KeyHandler.AsParagraphItem | src/helper/key-handler.ts:39-41 | relabelling the item replaces it in its children list by a paragraph with the same children |
| KeyHandler.ExitListNestedShape | src/helper/key-handler.ts:39-48 | an item holding a list becomes, in its place, a paragraph holding its children with every list inside them that holds no list replaced by its own children; every node outside the item's list is unchanged |
| KeyHandler.NestedEmptyItem | src/helper/key-handler.ts:39-48 | in `[ul[li[ul[li[""]]]]]`, leaving the list at the outer item `[0, 0]` gives `[ul[p[li[""]]]]`: the nested list is unwrapped, not the outer one |
| KeyHandler.ExitListElsewhere | src/helper/key-handler.ts:39-48 | every node outside the subtree of the list's parent is unchanged |
| KeyHandler.HandleEmptyListItem | src/helper/key-handler.ts:25-55 | handled exactly when there is an empty item at the selection; then the item becomes a paragraph, and either the lists inside it that hold no list are unwrapped (when it holds a list) or it leaves its nearest list; otherwise nothing changes |
| KeyHandler.HeadingBreakAsWritten | src/helper/key-handler.ts:60-121 | declines exactly when the cursor is not collapsed at the end of a heading; throws exactly when it is and no list item is above it |
| KeyHandler.HeadingBreakThrowsOutsideList | src/helper/key-handler.ts:89-91 | Enter at the end of a top-level heading throws as written |
| KeyHandler.HeadingBreak | src/helper/key-handler.ts:60-121 | corrected: never throws; splits the list item when one is above the heading, and falls back to the heading split otherwise |
| KeyHandler.HeadingBreakAgrees | src/helper/key-handler.ts:60-121 | the corrected handler agrees with the code wherever that code does not throw |
| KeyHandler.LinkBreak | src/helper/key-handler.ts:126-165 | splits out a paragraph exactly when the cursor is collapsed at the end of the link above it |
| RichTextField.KeyDownAction | src/rich-text-field.tsx:72-108 | the dispatch as written: keys other than Enter and Backspace do nothing more; Backspace only leaves an empty list item; Enter always leads to something, leaves the list exactly when there is an empty item, and ends in the heading handler's TypeError exactly when a plain Enter without an empty item sits at the end of a heading with no list item above |
| RichTextField.KeyDownActionIntended | src/rich-text-field.tsx:103-107 | the dispatch over the corrected heading handler never ends in a TypeError |
| RichTextField.KeyDownActionsAgree | src/rich-text-field.tsx:103-107 | the dispatch as written and the corrected one differ exactly where the written one throws, and there the corrected one splits the heading |
| RichTextField.TitleEnterThrows | src/rich-text-field.tsx:103 | Enter at the end of a lone top-level heading ends in the TypeError as written, where the corrected dispatch splits the heading |
| RichTextField.PreventsDefault | src/rich-text-field.tsx:75-90 | Enter always suppresses the default; Backspace does when a hotkey matched or the empty item handler took it; other keys only when a hotkey matched |
| RichTextField.ShiftEnterIsNewline | src/rich-text-field.tsx:96-100 | Shift+Enter outside an empty item always inserts a line break |
| RichTextField.EnterHandlerOrder | src/rich-text-field.tsx:103-107 | the link handler acts only when the heading handler as written declined; `insertBreak` runs exactly when every handler declined a plain Enter; any other outcome of the dispatch is the heading handler's, its TypeError included |
| RichTextField.HandleOnKeyDown | src/rich-text-field.tsx:72-108 | the hotkeys run for every key, toggling the marks and, with an expanded selection, writing them to the selected leaves; on the document they leave, the empty-item edit is applied exactly when the dispatch leaves the list; the action (the heading handler's TypeError included) and the suppressed default are those of the dispatch as written |
| RichTextField.IsAstChange | src/rich-text-field.tsx:112-114 | true exactly when some operation is not a selection change |
| RichTextField.OnChange | src/rich-text-field.tsx:110-119 | a value is reported exactly when some operation changed the document, and it is the empty marker exactly when the text is blank |
| RichTextField.SelectionOnlyIsSilent | src/rich-text-field.tsx:112-118 | a change made only of selection moves reports nothing |
| RichTextField.ReportedValueReloads | src/rich-text-field.tsx:116-118 | a reported value with non-blank text loads back as the document that produced it |
| FormattingButton.StyleKey | src/toolbar/formatting-button.tsx:38-42 | `paragraph` without an active format; `heading-` and the level for a heading; the type name for any other type |
| FormattingButton.EveryStyleHasLabel | src/toolbar/formatting-button.tsx:18-26 | every key the effect stores has a label |
| FormattingButton.Split | src/toolbar/formatting-button.tsx:47 | `split('-')` gives at least one piece, no piece holds `-`, and the pieces joined by `-` give the value |
| FormattingButton.SplitJoin | src/toolbar/formatting-button.tsx:47 | pieces without `-`, joined and split again, come back unchanged |
| FormattingButton.ParseInt | src/toolbar/formatting-button.tsx:48 | `parseInt` gives `NaN` exactly when no digit follows the leading white space and an optional sign |
| FormattingButton.ParseDigit | src/toolbar/formatting-button.tsx:48 | a level's digit parses to the level |
| FormattingButton.FirstPiece | src/toolbar/formatting-button.tsx:47 | the text before the first separator: a prefix without it, ending at a separator or at the end |
| FormattingButton.SplitHead | src/toolbar/formatting-button.tsx:47 | the first piece of `split` is the text before the first separator, and the second, when there is one, the text between the first and the second |
| FormattingButton.Decode | src/toolbar/formatting-button.tsx:47-48 | the format is exactly the text before the first `-`; without a `-` there is no level; otherwise the level is `undefined` when the text after the first `-` starts with another `-` or is empty, and `parseInt` of the text up to the next `-` otherwise |
| FormattingButton.LevelArgument | src/helper/formatting.ts:62-65 | the level `toggleFormatting` uses exists exactly for a parsed number from 1 to 6 |
| FormattingButton.DecodeHeadingKey | src/toolbar/formatting-button.tsx:42-48 | the key of a heading of level l decodes to `heading` and l |
| FormattingButton.DecodeParagraphKey | src/toolbar/formatting-button.tsx:39-48 | the paragraph key decodes to `paragraph` and no level |
| FormattingButton.ShownStyleReapplies | src/toolbar/formatting-button.tsx:35-50 | choosing the key shown for the selection asks for the kind the active block already has |
| FormattingButton.StyleMenu.Refresh | src/toolbar/formatting-button.tsx:35-44 | the current style becomes the key of the active format, which has a label |
| FormattingButton.StyleMenu.Select | src/toolbar/formatting-button.tsx:46-54 | the chosen key is decoded and the formatting toggled with it; the popover closes; the result says whether `toggleFormatting` goes on to re-wrap, exactly when the decoded format is `heading`, the paragraph guard did not return early and a list is active afterwards |
| LinkModal.CursorSelectsNothing | src/toolbar/link-modal.tsx:34 | `Editor.string` of a collapsed cursor in a text leaf is empty |
| LinkModal.FormOfLink | src/toolbar/link-modal.tsx:36 | `openInNewTab` is set exactly when the link's target is `_blank` |
| LinkModal.ShownForm | src/toolbar/link-modal.tsx:24-38 | without a selection the form is unchanged; without an active link it has an empty URL, no new tab and the selected text; with one it holds the link's URL, text and whether its target is `_blank` |
| LinkModal.CursorOpensInitialForm | src/toolbar/link-modal.tsx:33-34 | opening the dialog at a bare cursor away from links shows the initial form |
| LinkModal.Updated | src/toolbar/link-modal.tsx:46-50 | an update sets its own field and keeps the other two |
| LinkModal.UpdatesCommute | src/toolbar/link-modal.tsx:46-50 | updates of different fields commute; of the same field, the later one wins |
| LinkModal.TargetOf | src/toolbar/link-modal.tsx:54 | the target is `_blank` exactly when `openInNewTab` is set, `_self` otherwise |
| LinkModal.CanInsert | src/toolbar/link-modal.tsx:61 | insert is enabled exactly when neither the text nor the URL is blank |
| LinkModal.ReinsertKeepsLink | src/toolbar/link-modal.tsx:36-55 | loading a link and inserting it unchanged keeps its URL and text; a `_blank` target stays, any other or missing target becomes `_self` |
| LinkModal.LinkDialog.ShowModal | src/toolbar/link-modal.tsx:24-38 | the form becomes the one loaded from the selection |
| LinkModal.LinkDialog.Change | src/toolbar/link-modal.tsx:46-50 | the form takes the update |
| LinkModal.LinkDialog.Insert | src/toolbar/link-modal.tsx:53-59 | the link is inserted with the form's URL, text and target, with `insertLink`'s replacement, cursor insertion, wrap and collapses: the selection collapses to the rebased end after a replacement or a wrap, moves to the end of the link's text after a cursor insertion, and stays as it was without a selection |
| ElementView.DisplayUrl | src/element.tsx:48 | a URL of at most 30 characters is shown unchanged; a longer one as its first 30 characters and `...` |
| ElementView.DisplayUrlBounds | src/element.tsx:48 | the shown URL has at most 33 characters and starts with the first min(30, length) characters of the URL |
| ElementView.DisplayUrlTwice | src/element.tsx:48 | shortening a shown URL again gives the same string |
| Types.LevelString | src/toolbar/formatting-button.tsx:42 | a level prints as one digit from 1 to 6 whose value is the level |
| ElementView.HeadingTag | src/element.tsx:24-26 | a heading's tag is `h` followed by its level's digit |
| ElementView.HeadingTagInjective | src/element.tsx:25 | different levels give different tags |
| ElementView.ListTag | src/element.tsx:29-31 | a list's tag is `ul` exactly when it is unordered, `ol` otherwise |

## Left out

- Slate itself. The model of `Editor.nodes`, `Editor.above`, `Editor.end`, `Path.compare`
  and the transforms is written from their documented behaviour.
- `Editor.unhangRange` is not modelled: the selection is used as it is.
  Normalization, `withoutNormalizing` and slate-history are not modelled either.
- Selection rebasing after structural edits is not modelled. The selection stays as it
  was, except where the code itself moves it.
- Links.InsertLink: how Slate rebases the selection over the replacement of an active
  link and over the wrap is not modelled. The rebased end is the `rebasedEnd` parameter,
  and the `collapse` to it is modelled.
- Lists.ToggleList: steps 1 to 3 (unwrapping, relabelling, wrapping) are carried out by
  Slate's splitting transforms. They are the `restructure` parameter, and the selection
  Slate rebases over them is the `rebasedSel` parameter.
- Links.InsertLink: the expanded-selection `wrapNodes` is the `wrapped` parameter.
- Links.RemoveLink: the expanded-selection splitting unwrap is the `unwrapped` parameter.
- The split sequences of `handleHeadingBreakline` and `handleLinkBreakline` are
  reported as a `BreakOutcome`, not applied.
- RichTextField.HandleOnKeyDown: the soft line break, the splits and `insertBreak` are
  returned as the action to carry out, not applied.
- RichTextField.KeyDownAction and RichTextField.HandleOnKeyDown follow the heading
  handler as written. Enter at the end of a heading outside any list item therefore ends
  in its TypeError (`Break(Throws)`), with the document unchanged. The dispatch over
  the corrected handler is RichTextField.KeyDownActionIntended, and no operation of the
  model uses it in place of the written one.
- Formatting.ToggleFormatting: the re-wrap of a heading into a list item is not
  modelled. The method reports whether the call goes on to it. That step also
  destructures `headingEntry` before checking it.
- The reset effect of the field component is not modelled. It compares
  `JSON.stringify` strings and overwrites editor internals.
- KeyHandler.HandleHotKey: `is-hotkey` matching is not modelled. The set of combos
  the key press matches is an input.
- `Editor.marks` is not derived from the leaves. The editor's `marks` field holds the
  cursor's mark record.
- Mark.ToggleMark, KeyHandler.HandleHotKey, RichTextField.HandleOnKeyDown: with an
  expanded selection, the splitting write of the mark onto the selected leaves is the
  `markLeaves` parameter. The record is toggled there as well, on the reading that
  `Editor.marks` then reports the first selected leaf, which the write sets or clears.
- KeyHandler.EnclosingList, KeyHandler.ExitList, KeyHandler.HandleEmptyListItem: an
  item with no text leaf, or a list inside it with none, would make `Editor.range`
  throw. The model unwraps as if the range could be taken.
- KeyHandler.HeadingBreak, KeyHandler.HeadingBreakAsWritten and KeyHandler.LinkBreak: when the element above has no
  text leaf, `Editor.end` would throw. The model treats that cursor as not at the end.
- FormattingButton.LevelArgument: a parsed level other than 0 outside 1 to 6 would
  make `toggleFormatting` set that level on a heading. The model reads it as no level,
  because heading levels are 1 to 6 here. The menu only offers `paragraph` and
  `heading-1` to `heading-6`.
- FormattingButton.ParseInt: JavaScript's number range is not modelled. A very long
  run of digits is an exact integer here.
- Element attributes outside the node types (for example `listType` left on a
  relabelled list) are not kept. `setNodes` replaces an element's kind whole.
- Links.InsertAtCursor: a cursor that is not in a text leaf leaves the document as
  it is.
- Convert.FromPersisted: unknown extra keys are modelled only on text records. Those
  are the only records whose extra keys `deserialize` drops.
- String lengths and slices are over characters, not UTF-16 code units.
- The icon map, JSX, Polaris components and React hooks other than the state they
  keep are not modelled. The `shopify.modal` host API and focus handling are not
  modelled either.
- The `withInlines` plugin is not modelled as code. Links are inline throughout the
  model.
- `toolbar.tsx`, `list-button.tsx`, `mark-button.tsx`, `link-button.tsx`, `leaf.tsx`
  and `vite.config.ts` are not part of this model.

## Findings

| source | as written | input that shows it | evidently intended | confidence | as-written member | corrected member |
|---|---|---|---|---|---|---|
| src/helper/key-handler.ts:89-91 | after the end-of-heading check, the list item above the cursor is destructured with a non-null assertion; outside a list item that throws, so the heading fallback at lines 115-120 is unreachable | a document holding only a level-1 heading "Title", cursor collapsed at path [0, 0] offset 5, Enter | outside a list item, split the heading and turn the new block into a paragraph (lines 115-120) | not executed | KeyHandler.HeadingBreakAsWritten, KeyHandler.HeadingBreakThrowsOutsideList, RichTextField.KeyDownAction, RichTextField.TitleEnterThrows | KeyHandler.HeadingBreak, RichTextField.KeyDownActionIntended, RichTextField.KeyDownActionsAgree |
