# File explorer tree engine

This project models the explorer sidebar of a browser-based code editor and
the pane that shows the selected file.

The explorer holds a tree of files and folders. It is an ordered sequence of
nodes, and a folder owns an ordered sequence of children. Four copy-on-write
walks rebuild the tree by node id:

- toggling a node open or closed;
- replacing a node, which is how renames are applied;
- removing a node together with its subtree;
- appending a new child to a node.

Around these walks sits the `Sidebar` component's state: the tree, the
right-click context menu, the modal dialog and the modal's draft text. Its
handlers open the menu, turn a menu choice into a modal, and commit the
modal's action. The editor pane picks a syntax-highlighting class from the
selected file's extension. It also looks up the text to show, falling back to
a placeholder.

Modules:

- `Wrappers`: `Option`.
- `Strings`:
  - the JavaScript `trim` (`Trim`), with the ECMAScript white-space and
    line-terminator characters (`IsWhitespace`);
  - `split('.').pop()` (`LastSegment`).
- `FileTree`:
  - the node record. `children` is `Absent` or `Present(items)`, because the
    walks recurse only where a node has a `children` array. An absent
    `isOpen` is `false`.
  - specification views of a tree: the preorder id list `Ids`, `UniqueIds`,
    `Find` (the first node with an id, in preorder) and `Outline` (every
    node's own fields with its depth, in preorder);
  - `Subseq` (order-preserving sub-sequence).
- `TreeEdit`: the four walks (`Toggle`, `Update`, `Remove`, `Add`), the rename
  action, the new-file and new-folder builders, and their properties.
- `Explorer`:
  - class `Sidebar`, holding the four state cells and the handlers;
  - the menu and modal records;
  - the seed tree `mockFileTree`.
- `MainContent`: `getFileContent` and `getLanguageClass`.

The model follows the code where it is looser than a tidy reading:

- Toggling flips `isOpen` on a file too.
- Adding appends under whatever node has the parent id, and creates a
  `children` array if the node has none.
- The rename guard compares the untrimmed draft with the name the node had
  when the modal opened. The new language comes from the untrimmed draft.
  `TreeEdit.RenameTrailingBlank` shows the consequence: renaming `a.js` to
  `a.js ` keeps the name but sets the language to `js `.
- The modal closes after every confirm, whether or not anything was
  committed.

## Model

| member | source | states |
|---|---|---|
| Strings.Trim | src/components/Sidebar/Sidebar.js:372-375 | the result is the draft with leading and trailing ECMAScript whitespace removed; it is a substring with only whitespace around it, neither end is whitespace, and it is empty exactly when the draft is all whitespace |
| Strings.LastSegment | src/components/Sidebar/Sidebar.js:377 | `split('.').pop()`: a suffix of the text with no `.`, preceded by a `.` unless it is the whole text; the whole text when there is no `.` |
| Strings.LastSegmentAfterDot | src/components/Sidebar/Sidebar.js:377 | for `p.e` with no `.` in `e`, the last segment is `e`, whatever dots `p` has |
| Strings.TrimUnpadded | src/components/Sidebar/Sidebar.js:372-375 | a string that neither starts nor ends with whitespace is its own trim |
| Strings.TrimTrailingBlank | src/components/Sidebar/Sidebar.js:399-401 | trimming an unpadded string followed by one blank gives back the string |
| TreeEdit.Toggle | src/components/Sidebar/Sidebar.js:210-219 | `updateNode` keeps the number of top-level nodes and the preorder id list |
| TreeEdit.ToggleOutline | src/components/Sidebar/Sidebar.js:209-222 | with unique ids, toggling flips `isOpen` on the one node with that id (folder or file) and leaves every other node's fields, the depths and the order unchanged |
| TreeEdit.ToggleTwice | src/components/Sidebar/Sidebar.js:209-222 | toggling the same id twice gives back the original tree |
| TreeEdit.ToggleIsUpdate | src/components/Sidebar/Sidebar.js:210-219 | `updateNode` is `updateFileTree` with the flip as action |
| TreeEdit.ToggleAbsent | src/components/Sidebar/Sidebar.js:210-219 | toggling an id that occurs nowhere returns the tree unchanged |
| TreeEdit.Update | src/components/Sidebar/Sidebar.js:331-341 | `updateFileTree` keeps the number of top-level nodes |
| TreeEdit.UpdateAbsent | src/components/Sidebar/Sidebar.js:331-341 | updating an id that occurs nowhere returns the tree unchanged |
| TreeEdit.UpdateOutline | src/components/Sidebar/Sidebar.js:331-341 | with unique ids, an action that keeps `children` changes exactly the matching node's own fields, as the action says, and nothing else in the preorder outline |
| TreeEdit.UpdateKeepsIds | src/components/Sidebar/Sidebar.js:331-341 | an action that keeps id and children keeps the preorder id list |
| TreeEdit.UpdateFind | src/components/Sidebar/Sidebar.js:331-341 | after the update, the first node with the id is the action applied to the first node that had it |
| TreeEdit.RenameOutline | src/components/Sidebar/Sidebar.js:398-406 | with unique ids, a rename changes only the target's name and language in the outline |
| TreeEdit.RenameFind | src/components/Sidebar/Sidebar.js:398-406 | the renamed node has the trimmed draft as name. A file whose draft has a `.` gets the text after the draft's last `.` as language; otherwise the language is kept. Id, kind, `isOpen` and children are kept |
| TreeEdit.RenameKeepsIds | src/components/Sidebar/Sidebar.js:398-406 | a rename keeps the preorder id list, so ids stay unique |
| TreeEdit.RenameTrailingBlank | src/components/Sidebar/Sidebar.js:399-404 | a draft equal to the file's name plus a blank passes the untrimmed guard and leaves the name as it was, but changes the language to the extension with the blank |
| TreeEdit.Remove | src/components/Sidebar/Sidebar.js:344-351 | no node with the removed id is left at any depth, and there are no more top-level nodes than before |
| TreeEdit.RemoveAbsent | src/components/Sidebar/Sidebar.js:344-351 | removing an id that occurs nowhere returns the tree unchanged |
| TreeEdit.RemoveOutline | src/components/Sidebar/Sidebar.js:344-351 | the result's outline is an order-preserving sub-sequence of the original's: survivors keep their fields, depths and relative order |
| TreeEdit.RemoveIds | src/components/Sidebar/Sidebar.js:344-351 | with unique ids, the ids removed are exactly those of the subtree rooted at the node with the id |
| TreeEdit.RemoveSubtree | src/components/Sidebar/Sidebar.js:344-351 | with unique ids, no id of the removed subtree occurs anywhere in the result |
| TreeEdit.RemoveKeepsUnique | src/components/Sidebar/Sidebar.js:344-351 | removal keeps ids unique |
| TreeEdit.RemoveAppend | src/components/Sidebar/Sidebar.js:345 | the filter-then-map distributes over concatenated sibling lists |
| TreeEdit.Add | src/components/Sidebar/Sidebar.js:354-368 | `addNode` keeps the number of top-level nodes |
| TreeEdit.AddAbsent | src/components/Sidebar/Sidebar.js:354-368 | adding under an id that occurs nowhere returns the tree unchanged |
| TreeEdit.AddFind | src/components/Sidebar/Sidebar.js:356-362 | after an add, the first node with the parent id is that node with the new node appended last to its earlier children (a `children` array is created if missing) and `isOpen` set to true |
| TreeEdit.AddFindNew | src/components/Sidebar/Sidebar.js:354-368 | after an add under an existing parent, searching for the new node's fresh id finds the new node |
| TreeEdit.AddIds | src/components/Sidebar/Sidebar.js:354-368 | with unique ids and an existing parent, the ids gained are exactly those of the new node's subtree |
| TreeEdit.AddCount | src/components/Sidebar/Sidebar.js:354-368 | adding a childless node under an existing parent grows the node count by exactly one |
| TreeEdit.AddKeepsUnique | src/components/Sidebar/Sidebar.js:354-368 | unique ids stay unique when every id of the new subtree is fresh |
| TreeEdit.AddThenRemove | src/components/Sidebar/Sidebar.js:344-368 | removing a freshly added node undoes the add, except that the parent stays open and keeps a `children` array |
| TreeEdit.NewFileNode | src/components/Sidebar/Sidebar.js:373-378 | a new file is a file without `children` and closed (it has no `isOpen`), with the given id and the trimmed draft as name; its language is `text` when the draft has no `.`, and otherwise the dot-free text after the draft's last `.`, taken from the untrimmed draft |
| TreeEdit.NewFolderNode | src/components/Sidebar/Sidebar.js:386-392 | a new folder is closed, has no language and an empty `children` array, with the given id and the trimmed draft as name |
| TreeEdit.NewFileTrailingBlank | src/components/Sidebar/Sidebar.js:372-378 | the draft `stem.ext ` passes the trimmed guard and gives a file named `stem.ext` whose language is `ext ` with the blank kept |
| TreeEdit.NamedWithExtension | src/components/Sidebar/Sidebar.js:371-382 | a new file from the draft `stem.ext` is a closed file named `stem.ext` with language `ext` |
| TreeEdit.RenamedWithExtension | src/components/Sidebar/Sidebar.js:398-406 | renaming a file to `stem.ext` sets that name and language `ext` |
| TreeEdit.CreateRenameDelete | src/components/Sidebar/Sidebar.js:344-407 | a file added to an empty folder, then renamed, then the folder deleted: the folder opens holding just the file with its extension as language, the rename sets the new name and extension, and the delete leaves an empty tree |
| Explorer.MenuOptions | src/components/Sidebar/Sidebar.js:232-243 | folders get exactly new-file, new-folder, rename, delete; files get exactly open, rename, delete, in that order; each action at most once, with its label |
| Explorer.ModalTitle | src/components/Sidebar/Sidebar.js:268-303 | the modal's title is the caption of the menu option that opened it, followed for a rename or a delete by `Folder` or `File` after the node's kind |
| Explorer.Sidebar.constructor | src/components/Sidebar/Sidebar.js:189-207 | initial state: the seed tree, a hidden empty menu, a closed modal with no type, title or node, and an empty draft |
| Explorer.Sidebar.ToggleNode | src/components/Sidebar/Sidebar.js:209-223 | the tree becomes `Toggle` of the old one: same ids, with unique ids only the node with that id flips; nothing else changes |
| Explorer.Sidebar.HandleContextMenu | src/components/Sidebar/Sidebar.js:229-252 | the menu becomes visible for the node, with the options for its kind |
| Explorer.Sidebar.CloseContextMenu | src/components/Sidebar/Sidebar.js:312-314 | only `isVisible` of the menu turns false |
| Explorer.Sidebar.CloseModal | src/components/Sidebar/Sidebar.js:316-319 | only `isOpen` of the modal turns false, keeping type, title and node; the draft is cleared |
| Explorer.Sidebar.EditDraft | src/components/Sidebar/Sidebar.js:465 | the draft becomes the typed value, nothing else changes |
| Explorer.Sidebar.HandleContextMenuOptionClick | src/components/Sidebar/Sidebar.js:254-310 | the menu closes. `open` on a file hands that file to `onFileSelect`, and on a folder does nothing. The other actions open their modal on the menu's node: the draft is cleared for new-*, set to the node's name for rename, and kept for delete. The tree never changes |
| Explorer.Sidebar.HandleModalAction | src/components/Sidebar/Sidebar.js:327-418 | per modal type: add the new file or folder when the trimmed draft is non-empty; rename when the trimmed draft is non-empty and the draft differs from the snapshot name; delete the node; otherwise keep the tree. With unique ids and a fresh new id, ids stay unique. The modal always closes and the draft is cleared |
| Explorer.LeafKeepsUnique | src/components/Sidebar/Sidebar.js:371-396 | adding a new file or folder, which has no children, with a fresh id keeps ids unique |
| Explorer.MockFileTreeIds | src/components/Sidebar/Sidebar.js:7-70 | the seed tree lists ids `1` to `20` in preorder, each once |
| Explorer.SeedTreeIds | src/components/Sidebar/Sidebar.js:7-70 | the seed tree's shape lists its ids in preorder |
| MainContent.GetFileContent | src/components/MainContent/MainContent.js:76-82 | empty exactly when nothing is selected; the table's non-empty text for the file's name, or otherwise the placeholder naming the file |
| MainContent.PlaceholderNamesFile | src/components/MainContent/MainContent.js:80-81 | the placeholder holds the file's name at a fixed offset, so different names give different placeholders |
| MainContent.ClassFor | src/components/MainContent/MainContent.js:89-102 | the `switch` gives the class the highlighting table lists for an extension, and the empty class for any extension it does not list |
| MainContent.GetLanguageClass | src/components/MainContent/MainContent.js:85-103 | empty without a selection; otherwise the class listed for the text after the name's last `.` (`js`, `css`, `html`, `json`, `md` to `language-javascript`, `language-css`, `language-html`, `language-json`, `language-markdown`), and empty for any other extension |
| MainContent.LanguageClassOfExtension | src/components/MainContent/MainContent.js:88-101 | a name `stem.ext` is classed by `ext` alone, however many dots the stem has |
| MainContent.LanguageClassWithoutDot | src/components/MainContent/MainContent.js:88-101 | a name without a `.` is its own extension (a file named `md` is markdown) |
| MainContent.LanguageClassTrailingDot | src/components/MainContent/MainContent.js:88-101 | a name ending in `.` has an empty extension and gets no class |

## Left out

- Rendering: `TreeNode`, `ContextMenu` and `Modal` (src/components/Sidebar/Sidebar.js:72-186) and all JSX. Disabling the confirm button for an empty trimmed draft is rendering too, so `HandleModalAction` keeps its own guards.
- Browser plumbing: the click-outside listener, `preventDefault` and `stopPropagation`.
- The context menu's `x`/`y` pointer position. It is only drawn.
- The `console.log` default branches. Their only effect is a log line; the model leaves the state unchanged there, as the code does.
- `generateId` uses `Math.random`. Its value is the parameter `newId` of `HandleModalAction`. Uniqueness is promised only when that id is fresh.
- `onFileSelect` is the caller's callback. `HandleContextMenuOptionClick` returns the file it would be given. Selecting a file by clicking it in the tree is rendering.
- `MainContent.GetFileContent` takes the `mockFileContents` table (src/components/MainContent/MainContent.js:5-72) as the parameter `contents`. The three sample texts, of about a thousand characters each, are not spelled out.
- `MainContent.GetFileContent`: a JavaScript object lookup also finds inherited keys such as `constructor`. The model treats the table as a plain map.
- Strings are sequences of Unicode scalar values, not UTF-16 code units.
- React batches state updates. Each handler here applies its updates in order to the current state, which gives the same result because no handler reads a cell after setting it.
- `HandleContextMenuOptionClick` and `HandleModalAction` require a node exactly where the code reads the node's fields. Without one, the code throws a `TypeError`; the model does not capture that.
- `removeNode` filters first and then maps. `TreeEdit.Remove` fuses both into one pass over the siblings. Each node is kept or dropped on its own id alone, so the result is the same.
- `BottomPanel.js` (drag resizing with a floating-point clamp) and `App.js` (wiring) are not part of this model.
