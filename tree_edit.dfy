/** The four copy-on-write edits of the explorer's file tree, each a walk
    over the node sequence that rebuilds only what lies on the way to the
    nodes carrying the requested id: `updateNode` (toggle), `updateFileTree`
    (used for rename), `removeNode` and `addNode`. */
module TreeEdit {
  import opened Wrappers
  import opened Strings
  import opened FileTree

  // ---- toggle ----

  /** The toggle action: `{ ...node, isOpen: !node.isOpen }`. There is no
      folder check, so a file's missing `isOpen` becomes `true`. */
  function Flip(n: Node): Node {
    n.(isOpen := !n.isOpen)
  }

  function FlipEntry(e: Entry): Entry {
    e.(isOpen := !e.isOpen)
  }

  /** `updateNode(nodes)` inside `toggleNode(nodeId)`. A matching node is
      flipped and its children are not visited; any other node that has a
      `children` array gets a rebuilt one. */
  function Toggle(nodes: seq<Node>, nodeId: string): (r: seq<Node>)
    ensures |r| == |nodes|
    ensures Ids(r) == Ids(nodes)
    decreases nodes
  {
    if nodes == [] then []
    else
      var n := nodes[0];
      var n' := if n.id == nodeId then Flip(n)
                else if n.children.Present? then n.(children := Present(Toggle(n.children.items, nodeId)))
                else n;
      [n'] + Toggle(nodes[1..], nodeId)
  }

  // ---- update (rename) ----

  /** `updateFileTree(nodes, nodeId, action)`: `action` replaces every node
      whose id matches, without visiting its children. */
  function Update(nodes: seq<Node>, nodeId: string, action: Node -> Node): (r: seq<Node>)
    ensures |r| == |nodes|
    decreases nodes
  {
    if nodes == [] then []
    else
      var n := nodes[0];
      var n' := if n.id == nodeId then action(n)
                else if n.children.Present? then n.(children := Present(Update(n.children.items, nodeId, action)))
                else n;
      [n'] + Update(nodes[1..], nodeId, action)
  }

  /** The language a rename gives node `n`: the text after the last `.` of
      the untrimmed draft, for a file whose draft has a `.`; otherwise the
      language it had. */
  function RenamedLanguage(kind: Kind, language: Option<string>, draft: string): Option<string> {
    if kind == File && '.' in draft then Some(LastSegment(draft)) else language
  }

  /** The rename action: the trimmed draft becomes the name. */
  function Renamed(n: Node, draft: string): Node {
    n.(name := Trim(draft), language := RenamedLanguage(n.kind, n.language, draft))
  }

  function RenameAction(draft: string): Node -> Node {
    (n: Node) => Renamed(n, draft)
  }

  function RenamedEntry(draft: string): Entry -> Entry {
    (e: Entry) => e.(name := Trim(draft), language := RenamedLanguage(e.kind, e.language, draft))
  }

  // ---- remove ----

  /** `removeNode(nodes, nodeId)`: drop the nodes whose id matches (with
      their subtrees), then rebuild the `children` of those that remain. The
      source's `filter` and `map` are fused here, one node at a time. */
  function Remove(nodes: seq<Node>, nodeId: string): (r: seq<Node>)
    ensures nodeId !in Ids(r)
    ensures |r| <= |nodes|
    decreases nodes
  {
    if nodes == [] then []
    else
      var n := nodes[0];
      if n.id == nodeId then Remove(nodes[1..], nodeId)
      else
        var n' := if n.children.Present? then n.(children := Present(Remove(n.children.items, nodeId))) else n;
        [n'] + Remove(nodes[1..], nodeId)
  }

  // ---- add ----

  /** `{ ...n, children: [...(n.children || []), newNode], isOpen: true }`.
      There is no folder check: a file gains a `children` array too. */
  function Appended(n: Node, newNode: Node): Node {
    n.(children := Present(Kids(n) + [newNode]), isOpen := true)
  }

  /** `addNode(nodes, parentId, newNode)`. */
  function Add(nodes: seq<Node>, parentId: string, newNode: Node): (r: seq<Node>)
    ensures |r| == |nodes|
    decreases nodes
  {
    if nodes == [] then []
    else
      var n := nodes[0];
      var n' := if n.id == parentId then Appended(n, newNode)
                else if n.children.Present? then n.(children := Present(Add(n.children.items, parentId, newNode)))
                else n;
      [n'] + Add(nodes[1..], parentId, newNode)
  }

  /** The file `handleModalAction` builds for the `new-file` modal: the
      trimmed draft as name, and as language the text after the last `.` of
      the untrimmed draft, or `'text'`. */
  function NewFileNode(id: string, draft: string): (r: Node)
    ensures r.id == id && r.kind == File && !r.isOpen && r.children == Absent
    ensures IsTrimOf(r.name, draft)
    ensures r.language.Some?
    ensures '.' !in draft ==> r.language.value == "text"
    ensures '.' in draft ==> IsExtensionOf(r.language.value, draft)
  {
    Node(id, Trim(draft), File, false, Some(if '.' in draft then LastSegment(draft) else "text"), Absent)
  }

  /** The folder built for the `new-folder` modal: closed, with no children. */
  function NewFolderNode(id: string, draft: string): (r: Node)
    ensures r.id == id && r.kind == Folder && !r.isOpen && r.language == None
    ensures r.children == Present([]) && Kids(r) == []
    ensures IsTrimOf(r.name, draft)
  {
    Node(id, Trim(draft), Folder, false, None, Present([]))
  }

  /** What the tree looks like after an add, minus the added node: the
      parent is open and has a `children` array. */
  function OpenParent(n: Node): Node {
    n.(children := Present(Kids(n)), isOpen := true)
  }

  // ==== Properties ====

  // ---- an id that is nowhere in the tree changes nothing ----

  lemma {:induction false} ToggleAbsent(nodes: seq<Node>, nodeId: string)
    requires nodeId !in Ids(nodes)
    ensures Toggle(nodes, nodeId) == nodes
    decreases nodes
  {
    if nodes != [] {
      var n := nodes[0];
      if n.children.Present? {
        ToggleAbsent(n.children.items, nodeId);
      }
      ToggleAbsent(nodes[1..], nodeId);
      assert nodes == [n] + nodes[1..];
    }
  }

  lemma {:induction false} UpdateAbsent(nodes: seq<Node>, nodeId: string, action: Node -> Node)
    requires nodeId !in Ids(nodes)
    ensures Update(nodes, nodeId, action) == nodes
    decreases nodes
  {
    if nodes != [] {
      var n := nodes[0];
      if n.children.Present? {
        UpdateAbsent(n.children.items, nodeId, action);
      }
      UpdateAbsent(nodes[1..], nodeId, action);
      assert nodes == [n] + nodes[1..];
    }
  }

  lemma {:induction false} AddAbsent(nodes: seq<Node>, parentId: string, newNode: Node)
    requires parentId !in Ids(nodes)
    ensures Add(nodes, parentId, newNode) == nodes
    decreases nodes
  {
    if nodes != [] {
      var n := nodes[0];
      if n.children.Present? {
        AddAbsent(n.children.items, parentId, newNode);
      }
      AddAbsent(nodes[1..], parentId, newNode);
      assert nodes == [n] + nodes[1..];
    }
  }

  lemma {:induction false} RemoveAbsent(nodes: seq<Node>, nodeId: string)
    requires nodeId !in Ids(nodes)
    ensures Remove(nodes, nodeId) == nodes
    decreases nodes
  {
    if nodes != [] {
      var n := nodes[0];
      if n.children.Present? {
        RemoveAbsent(n.children.items, nodeId);
      }
      RemoveAbsent(nodes[1..], nodeId);
      assert nodes == [n] + nodes[1..];
    }
  }

  // ---- toggle ----

  /** Toggling the same id twice gives back the tree. */
  lemma {:induction false} ToggleTwice(nodes: seq<Node>, nodeId: string)
    ensures Toggle(Toggle(nodes, nodeId), nodeId) == nodes
    decreases nodes
  {
    if nodes != [] {
      var n := nodes[0];
      var t := Toggle(nodes, nodeId);
      assert t[1..] == Toggle(nodes[1..], nodeId);
      if n.id != nodeId && n.children.Present? {
        ToggleTwice(n.children.items, nodeId);
      }
      ToggleTwice(nodes[1..], nodeId);
      assert nodes == [n] + nodes[1..];
    }
  }

  /** `updateNode` is `updateFileTree` with the flip action. */
  lemma {:induction false} ToggleIsUpdate(nodes: seq<Node>, nodeId: string)
    ensures Toggle(nodes, nodeId) == Update(nodes, nodeId, Flip)
    decreases nodes
  {
    if nodes != [] {
      var n := nodes[0];
      if n.id != nodeId && n.children.Present? {
        ToggleIsUpdate(n.children.items, nodeId);
      }
      ToggleIsUpdate(nodes[1..], nodeId);
    }
  }

  /** In a tree with unique ids, an update whose action only changes a node's
      own attributes (as `g` describes them) changes exactly the entry of the
      node with that id: every other node keeps its fields, its children and
      its place. */
  lemma {:induction false} UpdateOutline(nodes: seq<Node>, nodeId: string, action: Node -> Node,
                                         g: Entry -> Entry, depth: nat)
    requires UniqueIds(nodes)
    requires forall n: Node :: action(n).children == n.children
    requires forall n: Node, k: nat :: EntryOf(action(n), k) == g(EntryOf(n, k))
    ensures Outline(Update(nodes, nodeId, action), depth) == MapMatching(Outline(nodes, depth), nodeId, g)
    decreases nodes
  {
    if nodes != [] {
      var n, rest := nodes[0], nodes[1..];
      UniqueSplit(nodes);
      var c := if n.children.Present? then Outline(Kids(n), depth + 1) else [];
      assert Outline(nodes, depth) == [EntryOf(n, depth)] + c + Outline(rest, depth);
      MapMatchingAppend([EntryOf(n, depth)] + c, Outline(rest, depth), nodeId, g);
      MapMatchingAppend([EntryOf(n, depth)], c, nodeId, g);
      UpdateOutline(rest, nodeId, action, g, depth);
      var u := Update(nodes, nodeId, action);
      assert u[1..] == Update(rest, nodeId, action);
      if n.id == nodeId {
        OutlineIds(Kids(n), depth + 1);
        MapMatchingAbsent(c, nodeId, g);
        assert u[0] == action(n);
      } else if n.children.Present? {
        UpdateOutline(Kids(n), nodeId, action, g, depth + 1);
      }
    }
  }

  /** With unique ids, toggling changes the `isOpen` of the node with that id
      and nothing else. */
  lemma ToggleOutline(nodes: seq<Node>, nodeId: string, depth: nat)
    requires UniqueIds(nodes)
    ensures Outline(Toggle(nodes, nodeId), depth) == MapMatching(Outline(nodes, depth), nodeId, FlipEntry)
  {
    ToggleIsUpdate(nodes, nodeId);
    UpdateOutline(nodes, nodeId, Flip, FlipEntry, depth);
  }

  /** With unique ids, a rename changes the name (and, for a file whose draft
      has a `.`, the language) of the node with that id and nothing else. */
  lemma RenameOutline(nodes: seq<Node>, nodeId: string, draft: string, depth: nat)
    requires UniqueIds(nodes)
    ensures Outline(Update(nodes, nodeId, RenameAction(draft)), depth)
         == MapMatching(Outline(nodes, depth), nodeId, RenamedEntry(draft))
  {
    UpdateOutline(nodes, nodeId, RenameAction(draft), RenamedEntry(draft), depth);
  }

  /** An action that keeps ids and children keeps the id list. */
  lemma {:induction false} UpdateKeepsIds(nodes: seq<Node>, nodeId: string, action: Node -> Node)
    requires forall n: Node :: action(n).id == n.id && action(n).children == n.children
    ensures Ids(Update(nodes, nodeId, action)) == Ids(nodes)
    decreases nodes
  {
    if nodes != [] {
      var n := nodes[0];
      var u := Update(nodes, nodeId, action);
      assert u[1..] == Update(nodes[1..], nodeId, action);
      if n.id != nodeId && n.children.Present? {
        UpdateKeepsIds(n.children.items, nodeId, action);
      }
      UpdateKeepsIds(nodes[1..], nodeId, action);
    }
  }

  /** After an id-keeping update, the first node with that id is the action
      applied to the node that was first before. */
  lemma {:induction false} UpdateFind(nodes: seq<Node>, nodeId: string, action: Node -> Node)
    requires forall n: Node :: action(n).id == n.id
    ensures Find(Update(nodes, nodeId, action), nodeId)
         == if Find(nodes, nodeId).Some? then Some(action(Find(nodes, nodeId).value)) else None
    decreases nodes
  {
    if nodes != [] {
      var n := nodes[0];
      var u := Update(nodes, nodeId, action);
      assert u[1..] == Update(nodes[1..], nodeId, action);
      if n.id != nodeId && n.children.Present? {
        UpdateFind(n.children.items, nodeId, action);
      }
      UpdateFind(nodes[1..], nodeId, action);
    }
  }

  /** The renamed node carries the trimmed draft as its name; its language
      follows the untrimmed draft's last `.` for a file, and is kept
      otherwise; its id, kind, `isOpen` and children are kept. */
  lemma RenameFind(nodes: seq<Node>, nodeId: string, draft: string)
    requires nodeId in Ids(nodes)
    ensures Find(Update(nodes, nodeId, RenameAction(draft)), nodeId).Some?
    ensures var old_ := Find(nodes, nodeId).value;
            var new_ := Find(Update(nodes, nodeId, RenameAction(draft)), nodeId).value;
            && new_.name == Trim(draft)
            && new_.id == old_.id && new_.kind == old_.kind && new_.isOpen == old_.isOpen
            && new_.children == old_.children
            && (old_.kind == File && '.' in draft ==> new_.language == Some(LastSegment(draft)))
            && (old_.kind == Folder || '.' !in draft ==> new_.language == old_.language)
  {
    UpdateFind(nodes, nodeId, RenameAction(draft));
  }

  lemma RenameKeepsIds(nodes: seq<Node>, nodeId: string, draft: string)
    ensures Ids(Update(nodes, nodeId, RenameAction(draft))) == Ids(nodes)
  {
    UpdateKeepsIds(nodes, nodeId, RenameAction(draft));
  }

  // ---- remove ----

  lemma {:induction false} RemoveAppend(a: seq<Node>, b: seq<Node>, nodeId: string)
    ensures Remove(a + b, nodeId) == Remove(a, nodeId) + Remove(b, nodeId)
    decreases |a|
  {
    if a != [] {
      assert (a + b)[0] == a[0] && (a + b)[1..] == a[1..] + b;
      RemoveAppend(a[1..], b, nodeId);
    } else {
      assert a + b == b;
    }
  }

  /** Removal only deletes entries from the outline: the nodes that remain
      keep their fields, their depth and their relative order. */
  lemma {:induction false} RemoveOutline(nodes: seq<Node>, nodeId: string, depth: nat)
    ensures Subseq(Outline(Remove(nodes, nodeId), depth), Outline(nodes, depth))
    decreases nodes
  {
    if nodes == [] {
      SubseqRefl(Outline(nodes, depth));
    } else {
      var n, rest := nodes[0], nodes[1..];
      var c := if n.children.Present? then Outline(Kids(n), depth + 1) else [];
      assert Outline(nodes, depth) == [EntryOf(n, depth)] + c + Outline(rest, depth);
      RemoveOutline(rest, nodeId, depth);
      if n.id == nodeId {
        SubseqPrefixed(Outline(Remove(rest, nodeId), depth), Outline(rest, depth), [EntryOf(n, depth)] + c);
      } else {
        var r := Remove(nodes, nodeId);
        assert r[1..] == Remove(rest, nodeId);
        var c' := if n.children.Present? then Outline(Remove(Kids(n), nodeId), depth + 1) else [];
        if n.children.Present? {
          RemoveOutline(Kids(n), nodeId, depth + 1);
        } else {
          SubseqRefl(c);
        }
        assert Outline(r, depth) == [EntryOf(n, depth)] + c' + Outline(Remove(rest, nodeId), depth);
        SubseqRefl([EntryOf(n, depth)]);
        SubseqAppend([EntryOf(n, depth)], [EntryOf(n, depth)], c', c);
        SubseqAppend([EntryOf(n, depth)] + c', [EntryOf(n, depth)] + c,
                     Outline(Remove(rest, nodeId), depth), Outline(rest, depth));
      }
    }
  }

  /** The ids of the subtree rooted at the first node with id `nodeId`
      (none if there is no such node). */
  function SubtreeIds(nodes: seq<Node>, nodeId: string): multiset<string> {
    if Find(nodes, nodeId).Some? then multiset(Ids([Find(nodes, nodeId).value])) else multiset{}
  }

  lemma NodeIds(n: Node)
    ensures multiset(Ids([n])) == multiset{n.id} + multiset(Ids(Kids(n)))
  {
    IdsCons([n]);
    assert [n][1..] == [];
  }

  /** With unique ids, removal takes away exactly the ids of the subtree
      rooted at the node with that id. */
  lemma {:induction false} RemoveIds(nodes: seq<Node>, nodeId: string)
    requires UniqueIds(nodes)
    ensures multiset(Ids(Remove(nodes, nodeId))) + SubtreeIds(nodes, nodeId) == multiset(Ids(nodes))
    decreases nodes, 1
  {
    if nodes != [] {
      if nodes[0].id == nodeId {
        RemoveIdsHere(nodes, nodeId);
      } else if nodeId in Ids(Kids(nodes[0])) {
        RemoveIdsBelow(nodes, nodeId);
      } else {
        RemoveIdsAfter(nodes, nodeId);
      }
    }
  }

  lemma RemoveIdsHere(nodes: seq<Node>, nodeId: string)
    requires UniqueIds(nodes) && nodes != [] && nodes[0].id == nodeId
    ensures multiset(Ids(Remove(nodes, nodeId))) + SubtreeIds(nodes, nodeId) == multiset(Ids(nodes))
  {
    var n, rest := nodes[0], nodes[1..];
    UniqueSplit(nodes);
    IdsCons(nodes);
    RemoveAbsent(rest, nodeId);
    NodeIds(n);
  }

  lemma {:induction false} RemoveIdsBelow(nodes: seq<Node>, nodeId: string)
    requires UniqueIds(nodes) && nodes != [] && nodes[0].id != nodeId && nodeId in Ids(Kids(nodes[0]))
    ensures multiset(Ids(Remove(nodes, nodeId))) + SubtreeIds(nodes, nodeId) == multiset(Ids(nodes))
    decreases nodes, 0
  {
    var n, rest := nodes[0], nodes[1..];
    assert n.children.Present?;
    var items := n.children.items;
    assert UniqueIds(items) && nodeId !in Ids(rest) by { UniqueSplit(nodes); }
    var r := Remove(nodes, nodeId);
    RemoveBelowShape(nodes, nodeId);
    RemoveIds(items, nodeId);
    assert SubtreeIds(nodes, nodeId) == SubtreeIds(items, nodeId);
    IdsCons(r);
    IdsCons(nodes);
    MultisetShuffle(multiset{n.id}, multiset(Ids(Remove(items, nodeId))), multiset(Ids(rest)),
                    SubtreeIds(items, nodeId));
  }

  /** A removal below the first node rebuilds only that node's children. */
  lemma RemoveBelowShape(nodes: seq<Node>, nodeId: string)
    requires nodes != [] && nodes[0].id != nodeId && nodes[0].children.Present?
    requires nodeId !in Ids(nodes[1..])
    ensures var r := Remove(nodes, nodeId);
            r != [] && r[0] == nodes[0].(children := Present(Remove(nodes[0].children.items, nodeId)))
            && r[1..] == nodes[1..]
  {
    RemoveAbsent(nodes[1..], nodeId);
  }

  lemma {:induction false} RemoveIdsAfter(nodes: seq<Node>, nodeId: string)
    requires UniqueIds(nodes) && nodes != [] && nodes[0].id != nodeId && nodeId !in Ids(Kids(nodes[0]))
    ensures multiset(Ids(Remove(nodes, nodeId))) + SubtreeIds(nodes, nodeId) == multiset(Ids(nodes))
    decreases nodes, 0
  {
    var n, rest := nodes[0], nodes[1..];
    UniqueSplit(nodes);
    IdsCons(nodes);
    if n.children.Present? {
      RemoveAbsent(n.children.items, nodeId);
    }
    var r := Remove(nodes, nodeId);
    assert r == [n] + Remove(rest, nodeId);
    IdsCons(r);
    RemoveIds(rest, nodeId);
    assert Find(nodes, nodeId) == Find(rest, nodeId);
  }

  /** With unique ids, no id of the removed subtree is left anywhere. */
  lemma RemoveSubtree(nodes: seq<Node>, nodeId: string, x: string)
    requires UniqueIds(nodes) && x in SubtreeIds(nodes, nodeId)
    ensures x !in Ids(Remove(nodes, nodeId))
  {
    RemoveIds(nodes, nodeId);
    var m := multiset(Ids(Remove(nodes, nodeId)));
    assert m[x] + SubtreeIds(nodes, nodeId)[x] == multiset(Ids(nodes))[x];
  }

  lemma RemoveKeepsUnique(nodes: seq<Node>, nodeId: string)
    requires UniqueIds(nodes)
    ensures UniqueIds(Remove(nodes, nodeId))
  {
    RemoveIds(nodes, nodeId);
    var m := multiset(Ids(Remove(nodes, nodeId)));
    forall x ensures m[x] <= 1 {
      assert m[x] <= multiset(Ids(nodes))[x];
    }
  }

  // ---- add ----

  /** After an add, the first node with the parent id is that node with the
      new node appended as its last child, its earlier children unchanged,
      and `isOpen` set. */
  lemma {:induction false} AddFind(nodes: seq<Node>, parentId: string, newNode: Node)
    ensures Find(Add(nodes, parentId, newNode), parentId)
         == if Find(nodes, parentId).Some? then Some(Appended(Find(nodes, parentId).value, newNode)) else None
    decreases nodes
  {
    if nodes != [] {
      var n := nodes[0];
      var a := Add(nodes, parentId, newNode);
      assert a[1..] == Add(nodes[1..], parentId, newNode);
      if n.id != parentId && n.children.Present? {
        AddFind(n.children.items, parentId, newNode);
      }
      AddFind(nodes[1..], parentId, newNode);
    }
  }

  /** Searching past a prefix that lacks the id. */
  lemma {:induction false} FindAfter(a: seq<Node>, b: seq<Node>, id: string)
    requires id !in Ids(a)
    ensures Find(a + b, id) == Find(b, id)
    decreases |a|
  {
    if a != [] {
      assert (a + b)[0] == a[0] && (a + b)[1..] == a[1..] + b;
      assert Ids(a) == [a[0].id] + Ids(Kids(a[0])) + Ids(a[1..]);
      FindAfter(a[1..], b, id);
    } else {
      assert a + b == b;
    }
  }

  /** After an add under an existing parent, searching for the new node's
      fresh id finds the new node itself. */
  lemma {:induction false} AddFindNew(nodes: seq<Node>, parentId: string, newNode: Node)
    requires parentId in Ids(nodes) && newNode.id !in Ids(nodes)
    ensures Find(Add(nodes, parentId, newNode), newNode.id) == Some(newNode)
    decreases nodes
  {
    var n, rest := nodes[0], nodes[1..];
    var a := Add(nodes, parentId, newNode);
    assert a[1..] == Add(rest, parentId, newNode);
    assert Ids(nodes) == [n.id] + Ids(Kids(n)) + Ids(rest);
    if n.id == parentId {
      FindAfter(Kids(n), [newNode], newNode.id);
      assert Find([newNode], newNode.id) == Some(newNode);
    } else if parentId in Ids(Kids(n)) {
      AddFindNew(n.children.items, parentId, newNode);
    } else {
      if n.children.Present? {
        AddAbsent(n.children.items, parentId, newNode);
      }
      AddFindNew(rest, parentId, newNode);
    }
  }

  /** With unique ids and an existing parent, an add contributes exactly the
      ids of the new node's subtree. */
  lemma {:induction false} AddIds(nodes: seq<Node>, parentId: string, newNode: Node)
    requires UniqueIds(nodes) && parentId in Ids(nodes)
    ensures multiset(Ids(Add(nodes, parentId, newNode))) == multiset(Ids(nodes)) + multiset(Ids([newNode]))
    decreases nodes, 1
  {
    if nodes[0].id == parentId {
      AddIdsHere(nodes, parentId, newNode);
    } else if parentId in Ids(Kids(nodes[0])) {
      AddIdsBelow(nodes, parentId, newNode);
    } else {
      AddIdsAfter(nodes, parentId, newNode);
    }
  }

  lemma AddIdsHere(nodes: seq<Node>, parentId: string, newNode: Node)
    requires UniqueIds(nodes) && nodes != [] && nodes[0].id == parentId
    ensures multiset(Ids(Add(nodes, parentId, newNode))) == multiset(Ids(nodes)) + multiset(Ids([newNode]))
  {
    var n, rest := nodes[0], nodes[1..];
    UniqueSplit(nodes);
    IdsCons(nodes);
    AddAbsent(rest, parentId, newNode);
    var a := Add(nodes, parentId, newNode);
    assert a == [Appended(n, newNode)] + rest;
    IdsCons(a);
    IdsAppend(Kids(n), [newNode]);
  }

  lemma {:induction false} AddIdsBelow(nodes: seq<Node>, parentId: string, newNode: Node)
    requires UniqueIds(nodes) && nodes != [] && nodes[0].id != parentId && parentId in Ids(Kids(nodes[0]))
    ensures multiset(Ids(Add(nodes, parentId, newNode))) == multiset(Ids(nodes)) + multiset(Ids([newNode]))
    decreases nodes, 0
  {
    var n, rest := nodes[0], nodes[1..];
    assert n.children.Present?;
    var items := n.children.items;
    assert UniqueIds(items) && parentId !in Ids(rest) by { UniqueSplit(nodes); }
    var a, ak := Add(nodes, parentId, newNode), Add(items, parentId, newNode);
    AddBelowShape(nodes, parentId, newNode);
    AddIds(items, parentId, newNode);
    IdsCons(a);
    IdsCons(nodes);
    MultisetShuffle(multiset{n.id}, multiset(Ids(items)), multiset(Ids(rest)), multiset(Ids([newNode])));
  }

  /** An add below the first node rebuilds only that node's children. */
  lemma AddBelowShape(nodes: seq<Node>, parentId: string, newNode: Node)
    requires nodes != [] && nodes[0].id != parentId && nodes[0].children.Present?
    requires parentId !in Ids(nodes[1..])
    ensures var a := Add(nodes, parentId, newNode);
            a[0] == nodes[0].(children := Present(Add(nodes[0].children.items, parentId, newNode)))
            && a[1..] == nodes[1..]
  {
    AddAbsent(nodes[1..], parentId, newNode);
  }

  lemma MultisetShuffle<T>(x: multiset<T>, k: multiset<T>, r: multiset<T>, m: multiset<T>)
    ensures x + (k + m) + r == x + k + r + m
  {
  }

  lemma {:induction false} AddIdsAfter(nodes: seq<Node>, parentId: string, newNode: Node)
    requires UniqueIds(nodes) && nodes != [] && parentId in Ids(nodes)
    requires nodes[0].id != parentId && parentId !in Ids(Kids(nodes[0]))
    ensures multiset(Ids(Add(nodes, parentId, newNode))) == multiset(Ids(nodes)) + multiset(Ids([newNode]))
    decreases nodes, 0
  {
    var n, rest := nodes[0], nodes[1..];
    assert UniqueIds(rest) by { UniqueSplit(nodes); }
    assert parentId in Ids(rest) by {
      assert Ids(nodes) == [n.id] + Ids(Kids(n)) + Ids(rest);
    }
    AddIds(rest, parentId, newNode);
    var a, ar := Add(nodes, parentId, newNode), Add(rest, parentId, newNode);
    assert a == [n] + ar by {
      if n.children.Present? {
        AddAbsent(n.children.items, parentId, newNode);
      }
    }
    assert a[0] == n && a[1..] == ar;
    IdsCons(a);
    IdsCons(nodes);
    var mk, mr, mn := multiset(Ids(Kids(n))), multiset(Ids(rest)), multiset(Ids([newNode]));
    assert multiset(Ids(a)) == multiset{n.id} + mk + (mr + mn);
  }

  /** Adding a single node under an existing parent grows the node count by
      one. */
  lemma AddCount(nodes: seq<Node>, parentId: string, newNode: Node)
    requires UniqueIds(nodes) && parentId in Ids(nodes)
    requires newNode.children == Absent || newNode.children == Present([])
    ensures |Ids(Add(nodes, parentId, newNode))| == |Ids(nodes)| + 1
  {
    LeafIds(newNode);
    AddIds(nodes, parentId, newNode);
    var before, after := Ids(nodes), Ids(Add(nodes, parentId, newNode));
    assert multiset(after) == multiset(before) + multiset{newNode.id};
    assert |multiset(after)| == |after| && |multiset(before)| == |before|;
  }

  /** A node without children contributes just its own id. */
  lemma LeafIds(leaf: Node)
    requires leaf.children == Absent || leaf.children == Present([])
    ensures Ids([leaf]) == [leaf.id]
  {
    assert [leaf][1..] == [];
    assert Kids(leaf) == [];
  }

  /** Adding a node whose ids are all fresh keeps the ids unique. */
  lemma AddKeepsUnique(nodes: seq<Node>, parentId: string, newNode: Node)
    requires UniqueIds(nodes) && UniqueIds([newNode])
    requires forall x :: x in Ids([newNode]) ==> x !in Ids(nodes)
    ensures UniqueIds(Add(nodes, parentId, newNode))
  {
    if parentId in Ids(nodes) {
      AddIds(nodes, parentId, newNode);
      var m, mn := multiset(Ids(nodes)), multiset(Ids([newNode]));
      forall x ensures (m + mn)[x] <= 1 {
        assert m[x] <= 1 && mn[x] <= 1;
        assert mn[x] > 0 ==> x in Ids([newNode]);
        assert m[x] > 0 ==> x in Ids(nodes);
      }
    } else {
      AddAbsent(nodes, parentId, newNode);
    }
  }

  /** Removing a freshly added node undoes the add, except that the parent
      stays open with a `children` array: the add touches nothing else. */
  lemma {:induction false} AddThenRemove(nodes: seq<Node>, parentId: string, newNode: Node)
    requires newNode.id !in Ids(nodes)
    ensures Remove(Add(nodes, parentId, newNode), newNode.id) == Update(nodes, parentId, OpenParent)
    decreases nodes
  {
    if nodes != [] {
      var n, rest := nodes[0], nodes[1..];
      var a := Add(nodes, parentId, newNode);
      assert a == [a[0]] + Add(rest, parentId, newNode);
      AddThenRemove(rest, parentId, newNode);
      assert Ids(nodes) == [n.id] + Ids(Kids(n)) + Ids(rest);
      if n.id == parentId {
        RemoveAppend(Kids(n), [newNode], newNode.id);
        RemoveAbsent(Kids(n), newNode.id);
        assert Remove([newNode], newNode.id) == [];
        var p := Appended(n, newNode);
        assert a[0] == p && p.id != newNode.id;
        assert Remove(p.children.items, newNode.id) == Kids(n);
        assert p.(children := Present(Kids(n))) == OpenParent(n);
      } else if n.children.Present? {
        AddThenRemove(n.children.items, parentId, newNode);
      }
    }
  }

  // ---- a session, start to finish ----

  /** A name whose trim is itself, with a `.` before a non-empty last
      extension. */
  predicate PlainName(stem: string, extension: string) {
    && stem != [] && !IsWhitespace(stem[0])
    && extension != [] && '.' !in extension && !IsWhitespace(extension[|extension| - 1])
  }

  /** A file added to an empty folder, renamed, and the folder then deleted
      (for instance `a.js` in `src`, renamed to `b.txt`): the folder opens
      and holds just the file, whose language is its extension; the rename
      gives it the new name and extension; the delete empties the tree. */
  lemma CreateRenameDelete(folder: Node, fileId: string, stem: string, extension: string,
                           stem': string, extension': string)
    requires folder.children == Present([]) && folder.id != fileId
    requires PlainName(stem, extension) && PlainName(stem', extension')
    ensures var t1 := Add([folder], folder.id, NewFileNode(fileId, stem + "." + extension));
            var t2 := Update(t1, fileId, RenameAction(stem' + "." + extension'));
            && t1 == [folder.(isOpen := true, children := Present([
                        Node(fileId, stem + "." + extension, File, false, Some(extension), Absent)]))]
            && t2 == [folder.(isOpen := true, children := Present([
                        Node(fileId, stem' + "." + extension', File, false, Some(extension'), Absent)]))]
            && Remove(t2, folder.id) == []
  {
    var a := Node(fileId, stem + "." + extension, File, false, Some(extension), Absent);
    var b := Node(fileId, stem' + "." + extension', File, false, Some(extension'), Absent);
    NamedWithExtension(fileId, stem, extension);
    RenamedWithExtension(a, stem', extension');
    AddToEmpty(folder, a);
    RenameOnlyChild(folder.(isOpen := true, children := Present([a])), a, b, stem' + "." + extension');
    RemoveOnly(folder.(isOpen := true, children := Present([b])));
  }

  lemma AddToEmpty(folder: Node, a: Node)
    requires folder.children == Present([])
    ensures Add([folder], folder.id, a) == [folder.(isOpen := true, children := Present([a]))]
  {
    assert Kids(folder) + [a] == [a];
    assert Appended(folder, a) == folder.(isOpen := true, children := Present([a]));
    assert [folder][1..] == [];
  }

  lemma RenameOnlyChild(folder: Node, a: Node, b: Node, draft: string)
    requires Renamed(a, draft) == b && folder.id != a.id && folder.children == Present([a])
    ensures Update([folder], a.id, RenameAction(draft)) == [folder.(children := Present([b]))]
  {
    assert Update([a], a.id, RenameAction(draft)) == [b];
  }

  lemma RemoveOnly(folder: Node)
    ensures Remove([folder], folder.id) == []
  {
  }

  /** Renaming a file to its own name plus a trailing blank passes the
      rename guard, which compares the untrimmed draft: the name stays as it
      was, but the language becomes the extension with the blank kept. */
  lemma RenameTrailingBlank(n: Node, stem: string, extension: string)
    requires n.kind == File && PlainName(stem, extension) && n.name == stem + "." + extension
    ensures n.name + " " != n.name && Trim(n.name + " ") != ""
    ensures Renamed(n, n.name + " ") == n.(language := Some(extension + " "))
  {
    PaddedName(stem, extension);
  }

  /** A new file named `stem.extension` gets that extension as language. */
  lemma NamedWithExtension(id: string, stem: string, extension: string)
    requires PlainName(stem, extension)
    ensures NewFileNode(id, stem + "." + extension)
         == Node(id, stem + "." + extension, File, false, Some(extension), Absent)
  {
    var name := stem + "." + extension;
    assert name[0] == stem[0] && name[|name| - 1] == extension[|extension| - 1];
    assert name[|stem|] == '.';
    TrimUnpadded(name);
    LastSegmentAfterDot(stem, extension);
  }

  /** A new-file draft `stem.extension` followed by a blank gives a file
      named `stem.extension`, since the name is trimmed, but whose language
      keeps the blank, since it is taken from the untrimmed draft. */
  lemma NewFileTrailingBlank(id: string, stem: string, extension: string)
    requires PlainName(stem, extension)
    ensures NewFileNode(id, stem + "." + extension + " ")
         == Node(id, stem + "." + extension, File, false, Some(extension + " "), Absent)
  {
    PaddedName(stem, extension);
  }

  /** What trimming and extension-taking make of `stem.extension `. */
  lemma PaddedName(stem: string, extension: string)
    requires PlainName(stem, extension)
    ensures var draft := stem + "." + extension + " ";
            && Trim(draft) == stem + "." + extension && Trim(draft) != draft
            && '.' in draft && LastSegment(draft) == extension + " "
  {
    var name := stem + "." + extension;
    var draft := name + " ";
    assert Trim(draft) == name by {
      assert name[0] == stem[0] && name[|name| - 1] == extension[|extension| - 1];
      TrimTrailingBlank(name);
    }
    assert |draft| != |name|;
    assert '.' in draft by {
      assert draft[|stem|] == '.';
    }
    assert LastSegment(draft) == extension + " " by {
      assert draft == stem + "." + (extension + " ");
      LastSegmentAfterDot(stem, extension + " ");
    }
  }

  /** Renaming a file to `stem.extension` gives it that name and language. */
  lemma RenamedWithExtension(n: Node, stem: string, extension: string)
    requires n.kind == File
    requires PlainName(stem, extension)
    ensures Renamed(n, stem + "." + extension)
         == n.(name := stem + "." + extension, language := Some(extension))
  {
    var name := stem + "." + extension;
    assert name[0] == stem[0] && name[|name| - 1] == extension[|extension| - 1];
    assert name[|stem|] == '.';
    TrimUnpadded(name);
    LastSegmentAfterDot(stem, extension);
  }
}
