/** The `Sidebar` component's state and its event handlers: the file tree,
    the right-click context menu, the modal dialog and the modal's text
    input. Each handler replaces whole pieces of state, as the component's
    `setFileTree`, `setContextMenu`, `setModal` and `setInputValue` calls
    do; the tree edits themselves are the functions of `TreeEdit`. */
module Explorer {
  import opened Wrappers
  import opened Strings
  import opened FileTree
  import opened TreeEdit

  /** A context-menu option's `action`; the modal's `type` is one of the
      last four. */
  datatype Action = Open | NewFile | NewFolder | Rename | Delete

  datatype MenuOption = MenuOption(caption: string, action: Action)

  /** The context menu; the pointer position it is drawn at is not modelled. */
  datatype ContextMenu = ContextMenu(isVisible: bool, node: Option<Node>, options: seq<MenuOption>)

  /** The modal dialog; `kind` is the source's `type`. */
  datatype Modal = Modal(isOpen: bool, kind: Option<Action>, title: string, node: Option<Node>)

  /** Whether the context menu of a node of this kind offers `a`: opening
      only for files, creating only inside folders, renaming and deleting
      for both. */
  predicate Offers(kind: Kind, a: Action) {
    match a
    case Open => kind == File
    case NewFile => kind == Folder
    case NewFolder => kind == Folder
    case Rename => true
    case Delete => true
  }

  /** The label shown for each action. */
  function Label(a: Action): string {
    match a
    case Open => "Open"
    case NewFile => "New File"
    case NewFolder => "New Folder"
    case Rename => "Rename"
    case Delete => "Delete"
  }

  /** The actions of a list of options, in order. */
  function Actions(options: seq<MenuOption>): seq<Action> {
    if options == [] then [] else [options[0].action] + Actions(options[1..])
  }

  /** The options `handleContextMenu` builds for a node of this kind. */
  function MenuOptions(kind: Kind): (r: seq<MenuOption>)
    ensures Actions(r) == if kind == Folder then [NewFile, NewFolder, Rename, Delete] else [Open, Rename, Delete]
    ensures forall a: Action :: Offers(kind, a) <==> a in Actions(r)
    ensures forall i, j :: 0 <= i < j < |r| ==> r[i].action != r[j].action
    ensures forall i :: 0 <= i < |r| ==> r[i].caption == Label(r[i].action)
    ensures |r| >= 2 && r[|r| - 2].action == Rename && r[|r| - 1].action == Delete
  {
    if kind == Folder then
      [MenuOption(Label(NewFile), NewFile), MenuOption(Label(NewFolder), NewFolder),
       MenuOption(Label(Rename), Rename), MenuOption(Label(Delete), Delete)]
    else
      [MenuOption(Label(Open), Open), MenuOption(Label(Rename), Rename), MenuOption(Label(Delete), Delete)]
  }

  /** `Folder` or `File`, as the modal titles spell a node's kind. */
  function KindWord(kind: Kind): string {
    if kind == Folder then "Folder" else "File"
  }

  /** The title the modal opened for `a` on `node` carries: the caption of
      the menu option that opened it, followed, for a rename or a delete, by
      the kind of node it acts on. */
  function ModalTitle(a: Action, node: Option<Node>): (r: string)
    requires (a == Rename || a == Delete) ==> node.Some?
    ensures a != Open ==> r == Label(a) + (if a in {Rename, Delete} then " " + KindWord(node.value.kind) else "")
  {
    match a
    case NewFile => "New File"
    case NewFolder => "New Folder"
    case Rename => "Rename " + KindWord(node.value.kind)
    case Delete => "Delete " + KindWord(node.value.kind)
    case Open => ""
  }

  class Sidebar {
    var fileTree: seq<Node>
    var contextMenu: ContextMenu
    var modal: Modal
    var inputValue: string

    /** The component's initial state. */
    constructor ()
      ensures fileTree == MockFileTree()
      ensures contextMenu == ContextMenu(false, None, [])
      ensures modal == Modal(false, None, "", None)
      ensures inputValue == ""
    {
      fileTree := MockFileTree();
      contextMenu := ContextMenu(false, None, []);
      modal := Modal(false, None, "", None);
      inputValue := "";
    }

    /** `toggleNode(nodeId)`. */
    method ToggleNode(nodeId: string)
      modifies this
      ensures fileTree == Toggle(old(fileTree), nodeId)
      ensures Ids(fileTree) == Ids(old(fileTree))
      ensures UniqueIds(old(fileTree)) ==>
        Outline(fileTree, 0) == MapMatching(Outline(old(fileTree), 0), nodeId, FlipEntry)
      ensures contextMenu == old(contextMenu) && modal == old(modal) && inputValue == old(inputValue)
    {
      if UniqueIds(fileTree) {
        ToggleOutline(fileTree, nodeId, 0);
      }
      fileTree := Toggle(fileTree, nodeId);
    }

    /** `handleContextMenu(e, node)`: show the menu for `node`. */
    method HandleContextMenu(node: Node)
      modifies this
      ensures contextMenu == ContextMenu(true, Some(node), MenuOptions(node.kind))
      ensures fileTree == old(fileTree) && modal == old(modal) && inputValue == old(inputValue)
    {
      contextMenu := ContextMenu(true, Some(node), MenuOptions(node.kind));
    }

    /** `closeContextMenu()`: hide the menu, keeping what it showed. */
    method CloseContextMenu()
      modifies this
      ensures contextMenu == old(contextMenu).(isVisible := false)
      ensures fileTree == old(fileTree) && modal == old(modal) && inputValue == old(inputValue)
    {
      contextMenu := contextMenu.(isVisible := false);
    }

    /** `closeModal()`: hide the modal, keeping its type and node, and clear
        the input. */
    method CloseModal()
      modifies this
      ensures modal == old(modal).(isOpen := false)
      ensures inputValue == ""
      ensures fileTree == old(fileTree) && contextMenu == old(contextMenu)
    {
      modal := modal.(isOpen := false);
      inputValue := "";
    }

    /** The modal input's `onChange`: the draft becomes what was typed. */
    method EditDraft(value: string)
      modifies this
      ensures inputValue == value
      ensures fileTree == old(fileTree) && contextMenu == old(contextMenu) && modal == old(modal)
    {
      inputValue := value;
    }

    /** `handleContextMenuOptionClick(option)`. The menu closes; `open` on a
        file hands that file to the caller's `onFileSelect`, returned here
        as `selected`; the other actions open their modal on the menu's
        node, with the input cleared for a new item, set to the node's name
        for a rename and left as it was for a delete. The source reads the
        node's fields for `open`, `rename` and `delete`, so a menu without a
        node is excluded for those. */
    method HandleContextMenuOptionClick(option: MenuOption) returns (selected: Option<Node>)
      requires option.action in {Open, Rename, Delete} ==> contextMenu.node.Some?
      modifies this
      ensures contextMenu == old(contextMenu).(isVisible := false)
      ensures fileTree == old(fileTree)
      ensures option.action == Open ==>
        && selected == (if old(contextMenu.node).value.kind == File then old(contextMenu.node) else None)
        && modal == old(modal) && inputValue == old(inputValue)
      ensures option.action != Open ==>
        && selected == None
        && modal == Modal(true, Some(option.action), ModalTitle(option.action, old(contextMenu.node)), old(contextMenu.node))
      ensures option.action in {NewFile, NewFolder} ==> inputValue == ""
      ensures option.action == Rename ==> inputValue == old(contextMenu.node).value.name
      ensures option.action == Delete ==> inputValue == old(inputValue)
    {
      var node := contextMenu.node;
      CloseContextMenu();
      selected := None;
      match option.action {
        case Open =>
          if node.value.kind == File {
            selected := node;
          }
        case NewFile =>
          modal := Modal(true, Some(NewFile), ModalTitle(NewFile, node), node);
          inputValue := "";
        case NewFolder =>
          modal := Modal(true, Some(NewFolder), ModalTitle(NewFolder, node), node);
          inputValue := "";
        case Rename =>
          modal := Modal(true, Some(Rename), ModalTitle(Rename, node), node);
          inputValue := node.value.name;
        case Delete =>
          modal := Modal(true, Some(Delete), ModalTitle(Delete, node), node);
      }
    }

    /** `handleModalAction()`, the modal's confirm button. `newId` stands for
        the value of `generateId()`. A new file or folder whose trimmed name
        is non-empty is added under the modal's node; a rename whose trimmed
        draft is non-empty and whose draft differs from the name the node
        had when the modal opened is applied; a delete removes the node;
        every other case leaves the tree alone. The modal then closes and
        the input is cleared. The source reads the modal's node whenever it
        edits the tree, so a modal without a node is excluded there. */
    method HandleModalAction(newId: string)
      requires modal.kind == Some(Delete) ==> modal.node.Some?
      requires modal.kind in {Some(NewFile), Some(NewFolder), Some(Rename)} && Trim(inputValue) != "" ==> modal.node.Some?
      modifies this
      ensures old(modal.kind) == Some(NewFile) ==>
        fileTree == if Trim(old(inputValue)) != ""
                    then Add(old(fileTree), old(modal.node).value.id, NewFileNode(newId, old(inputValue)))
                    else old(fileTree)
      ensures old(modal.kind) == Some(NewFolder) ==>
        fileTree == if Trim(old(inputValue)) != ""
                    then Add(old(fileTree), old(modal.node).value.id, NewFolderNode(newId, old(inputValue)))
                    else old(fileTree)
      ensures old(modal.kind) == Some(Rename) ==>
        fileTree == if Trim(old(inputValue)) != "" && old(inputValue) != old(modal.node).value.name
                    then Update(old(fileTree), old(modal.node).value.id, RenameAction(old(inputValue)))
                    else old(fileTree)
      ensures old(modal.kind) == Some(Delete) ==> fileTree == Remove(old(fileTree), old(modal.node).value.id)
      ensures old(modal.kind) in {None, Some(Open)} ==> fileTree == old(fileTree)
      ensures UniqueIds(old(fileTree)) && newId !in Ids(old(fileTree)) ==> UniqueIds(fileTree)
      ensures modal == old(modal).(isOpen := false) && inputValue == ""
      ensures contextMenu == old(contextMenu)
    {
      var target, draft := modal.node, inputValue;
      var wasUnique := UniqueIds(fileTree) && newId !in Ids(fileTree);
      match modal.kind {
        case Some(NewFile) =>
          if Trim(draft) != "" {
            var newFile := NewFileNode(newId, draft);
            if wasUnique {
              LeafKeepsUnique(fileTree, target.value.id, newFile);
            }
            fileTree := Add(fileTree, target.value.id, newFile);
          }
        case Some(NewFolder) =>
          if Trim(draft) != "" {
            var newFolder := NewFolderNode(newId, draft);
            if wasUnique {
              LeafKeepsUnique(fileTree, target.value.id, newFolder);
            }
            fileTree := Add(fileTree, target.value.id, newFolder);
          }
        case Some(Rename) =>
          if Trim(draft) != "" && draft != target.value.name {
            RenameKeepsIds(fileTree, target.value.id, draft);
            fileTree := Update(fileTree, target.value.id, RenameAction(draft));
          }
        case Some(Delete) =>
          if wasUnique {
            RemoveKeepsUnique(fileTree, target.value.id);
          }
          fileTree := Remove(fileTree, target.value.id);
        case _ =>
      }
      CloseModal();
    }
  }

  /** Adding a childless node with a fresh id keeps the ids unique. */
  lemma LeafKeepsUnique(nodes: seq<Node>, parentId: string, leaf: Node)
    requires UniqueIds(nodes) && leaf.id !in Ids(nodes)
    requires leaf.children == Absent || leaf.children == Present([])
    ensures UniqueIds(Add(nodes, parentId, leaf))
  {
    LeafIds(leaf);
    AddKeepsUnique(nodes, parentId, leaf);
  }

  // ---- the seed tree ----

  function FileNode(id: string, name: string, language: string): Node {
    Node(id, name, File, false, Some(language), Absent)
  }

  function FolderNode(id: string, name: string, isOpen: bool, children: seq<Node>): Node {
    Node(id, name, Folder, isOpen, None, Present(children))
  }

  /** `mockFileTree`, the tree the explorer starts with, its ids taken in
      preorder from `SeedIds()`. */
  function MockFileTree(): seq<Node> {
    SeedTree(SeedIds())
  }

  /** The ids of `mockFileTree`, '1' to '20' in preorder. */
  function SeedIds(): seq<string> {
    ["1", "2", "3", "4", "5", "6", "7", "8", "9", "10",
     "11", "12", "13", "14", "15", "16", "17", "18", "19", "20"]
  }

  /** The shape, names and languages of `mockFileTree`, with the ids as
      given. */
  function SeedTree(ids: seq<string>): seq<Node>
    requires |ids| == 20
  {
    [ FolderNode(ids[0], "src", true, [
        FolderNode(ids[1], "components", true, [
          FolderNode(ids[2], "Sidebar", true, [
            FileNode(ids[3], "Sidebar.js", "javascript"),
            FileNode(ids[4], "Sidebar.css", "css")]),
          FolderNode(ids[5], "MainContent", true, [
            FileNode(ids[6], "MainContent.js", "javascript"),
            FileNode(ids[7], "MainContent.css", "css")]),
          FolderNode(ids[8], "BottomPanel", true, [
            FileNode(ids[9], "BottomPanel.js", "javascript"),
            FileNode(ids[10], "BottomPanel.css", "css")])]),
        FileNode(ids[11], "App.js", "javascript"),
        FileNode(ids[12], "App.css", "css"),
        FileNode(ids[13], "index.js", "javascript"),
        FileNode(ids[14], "index.css", "css")]),
      FolderNode(ids[15], "public", false, [
        FileNode(ids[16], "index.html", "html"),
        FileNode(ids[17], "favicon.ico", "image")]),
      FileNode(ids[18], "package.json", "json"),
      FileNode(ids[19], "README.md", "markdown") ]
  }

  /** The ids of a run of files, in order. */
  lemma {:induction false} FileIds(files: seq<Node>)
    requires forall i :: 0 <= i < |files| ==> files[i].children == Absent
    ensures Ids(files) == seq(|files|, i requires 0 <= i < |files| => files[i].id)
    decreases |files|
  {
    if files != [] {
      FileIds(files[1..]);
    }
  }

  /** The ids of a node followed by its siblings. */
  lemma IdsOf(n: Node, rest: seq<Node>)
    ensures Ids([n] + rest) == [n.id] + Ids(Kids(n)) + Ids(rest)
  {
    assert ([n] + rest)[0] == n && ([n] + rest)[1..] == rest;
  }

  lemma ComponentsIds(ids: seq<string>)
    requires |ids| == 20
    ensures Ids(Kids(Kids(SeedTree(ids)[0])[0])) == ids[2..11]
  {
    var comps := Kids(SeedTree(ids)[0])[0];
    var sb, mc, bp := Kids(comps)[0], Kids(comps)[1], Kids(comps)[2];
    FileIds(Kids(sb));
    FileIds(Kids(mc));
    FileIds(Kids(bp));
    IdsOf(bp, []);
    IdsOf(mc, [bp]);
    IdsOf(sb, [mc, bp]);
    assert Kids(comps) == [sb] + [mc, bp];
  }

  lemma SrcIds(ids: seq<string>)
    requires |ids| == 20
    ensures Ids(Kids(SeedTree(ids)[0])) == ids[1..15]
  {
    var src := SeedTree(ids)[0];
    var comps, files := Kids(src)[0], Kids(src)[1..];
    assert Kids(src) == [comps] + files;
    assert Ids(files) == ids[11..15] by {
      FileIds(files);
    }
    assert Ids(Kids(comps)) == ids[2..11] by {
      ComponentsIds(ids);
    }
    IdsOf(comps, files);
    assert ids[1..15] == [ids[1]] + ids[2..11] + ids[11..15];
  }

  lemma TailIds(ids: seq<string>)
    requires |ids| == 20
    ensures Ids(SeedTree(ids)[1..]) == ids[15..]
  {
    var t := SeedTree(ids);
    var pub, tail := t[1], t[2..];
    FileIds(Kids(pub));
    FileIds(tail);
    IdsOf(pub, tail);
    assert t[1..] == [pub] + tail;
  }

  /** `SeedTree` lists its ids in preorder. */
  lemma SeedTreeIds(ids: seq<string>)
    requires |ids| == 20
    ensures Ids(SeedTree(ids)) == ids
  {
    var t := SeedTree(ids);
    SrcIds(ids);
    TailIds(ids);
    IdsOf(t[0], t[1..]);
    assert t == [t[0]] + t[1..];
    assert ids == [ids[0]] + ids[1..15] + ids[15..];
  }

  /** The seed tree lists the ids "1" to "20" in preorder, each once, so
      every edit above starts from a tree whose ids are unique. */
  lemma MockFileTreeIds()
    ensures Ids(MockFileTree()) == SeedIds()
    ensures UniqueIds(MockFileTree())
  {
    SeedTreeIds(SeedIds());
    SeedIdsDistinct();
    DistinctUnique(MockFileTree());
  }

  lemma SeedIdsDistinct()
    ensures forall i, j :: 0 <= i < j < |SeedIds()| ==> SeedIds()[i] != SeedIds()[j]
  {
  }
}
