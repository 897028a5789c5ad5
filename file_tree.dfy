/** The explorer's file tree: an ordered sequence of nodes, where a node may
    own an ordered sequence of children. This module holds the data model and
    the views the editing operations are specified against: the preorder list
    of ids, the first node carrying an id, and the outline (the preorder list
    of every node's own attributes with its depth). */
module FileTree {
  import opened Wrappers

  /** The `type` field: `'file'` or `'folder'`. */
  datatype Kind = File | Folder

  /** The `children` field. `Absent` is the missing property; `Present([])`
      is an empty array, which JavaScript treats as true. */
  datatype Children = Absent | Present(items: seq<Node>)

  /** One tree node. A missing `isOpen` reads as `false`; a missing
      `language` is `None`. */
  datatype Node = Node(
    id: string,
    name: string,
    kind: Kind,
    isOpen: bool,
    language: Option<string>,
    children: Children)

  /** `n.children || []` */
  function Kids(n: Node): seq<Node> {
    if n.children.Present? then n.children.items else []
  }

  /** The ids of all nodes, parents before their children, siblings in order. */
  function Ids(nodes: seq<Node>): seq<string>
    decreases nodes
  {
    if nodes == [] then []
    else
      var n := nodes[0];
      [n.id] + (if n.children.Present? then Ids(Kids(n)) else []) + Ids(nodes[1..])
  }

  /** No id occurs twice anywhere in the tree. */
  ghost predicate UniqueIds(nodes: seq<Node>) {
    forall x :: multiset(Ids(nodes))[x] <= 1
  }

  /** The first node, in preorder, whose id is `id`. */
  function Find(nodes: seq<Node>, id: string): (r: Option<Node>)
    ensures r.Some? <==> id in Ids(nodes)
    ensures r.Some? ==> r.value.id == id
    decreases nodes
  {
    if nodes == [] then None
    else if nodes[0].id == id then Some(nodes[0])
    else
      var inside := if nodes[0].children.Present? then Find(Kids(nodes[0]), id) else None;
      if inside.Some? then inside else Find(nodes[1..], id)
  }

  /** A node's own attributes, without its children, at a given depth. */
  datatype Entry = Entry(
    depth: nat,
    id: string,
    name: string,
    kind: Kind,
    isOpen: bool,
    language: Option<string>,
    hasChildren: bool)

  function EntryOf(n: Node, depth: nat): Entry {
    Entry(depth, n.id, n.name, n.kind, n.isOpen, n.language, n.children.Present?)
  }

  /** The tree written out in preorder, one entry per node. Two trees with the
      same outline are equal (OutlineDetermines), so a statement about the
      outline is a statement about every node, its fields and its place. */
  function Outline(nodes: seq<Node>, depth: nat): seq<Entry>
    decreases nodes
  {
    if nodes == [] then []
    else
      var n := nodes[0];
      [EntryOf(n, depth)] + (if n.children.Present? then Outline(Kids(n), depth + 1) else [])
        + Outline(nodes[1..], depth)
  }

  function EntryIds(es: seq<Entry>): seq<string> {
    if es == [] then [] else [es[0].id] + EntryIds(es[1..])
  }

  /** `es` with `g` applied to every entry whose id is `id`. */
  function MapMatching(es: seq<Entry>, id: string, g: Entry -> Entry): seq<Entry> {
    if es == [] then []
    else (if es[0].id == id then [g(es[0])] else [es[0]]) + MapMatching(es[1..], id, g)
  }

  /** `a` is `b` with some entries deleted. */
  ghost predicate Subseq<T>(a: seq<T>, b: seq<T>)
    decreases |b|
  {
    a == [] || (b != [] && ((a[0] == b[0] && Subseq(a[1..], b[1..])) || Subseq(a, b[1..])))
  }

  // ---- Facts about the views ----

  lemma {:induction false} OutlineIds(nodes: seq<Node>, depth: nat)
    ensures EntryIds(Outline(nodes, depth)) == Ids(nodes)
    decreases nodes
  {
    if nodes != [] {
      var n := nodes[0];
      if n.children.Present? {
        OutlineIds(Kids(n), depth + 1);
      }
      OutlineIds(nodes[1..], depth);
      EntryIdsAppend([EntryOf(n, depth)] + Outline(Kids(n), depth + 1), Outline(nodes[1..], depth));
      EntryIdsAppend([EntryOf(n, depth)], Outline(Kids(n), depth + 1));
    }
  }

  lemma {:induction false} EntryIdsAppend(a: seq<Entry>, b: seq<Entry>)
    ensures EntryIds(a + b) == EntryIds(a) + EntryIds(b)
    decreases |a|
  {
    if a != [] {
      assert (a + b)[0] == a[0] && (a + b)[1..] == a[1..] + b;
      EntryIdsAppend(a[1..], b);
    } else {
      assert a + b == b;
    }
  }

  lemma {:induction false} MapMatchingAppend(a: seq<Entry>, b: seq<Entry>, id: string, g: Entry -> Entry)
    ensures MapMatching(a + b, id, g) == MapMatching(a, id, g) + MapMatching(b, id, g)
    decreases |a|
  {
    if a != [] {
      assert (a + b)[0] == a[0] && (a + b)[1..] == a[1..] + b;
      MapMatchingAppend(a[1..], b, id, g);
    } else {
      assert a + b == b;
    }
  }

  /** Entries whose id is not `id` are left alone. */
  lemma {:induction false} MapMatchingAbsent(es: seq<Entry>, id: string, g: Entry -> Entry)
    requires id !in EntryIds(es)
    ensures MapMatching(es, id, g) == es
    decreases |es|
  {
    if es != [] {
      MapMatchingAbsent(es[1..], id, g);
    }
  }

  /** Every entry below the top level of an outline is deeper than it. */
  lemma {:induction false} OutlineDepth(nodes: seq<Node>, depth: nat)
    ensures forall e :: e in Outline(nodes, depth) ==> e.depth >= depth
    ensures Outline(nodes, depth) != [] ==> Outline(nodes, depth)[0].depth == depth
    decreases nodes
  {
    if nodes != [] {
      if nodes[0].children.Present? {
        OutlineDepth(Kids(nodes[0]), depth + 1);
      }
      OutlineDepth(nodes[1..], depth);
    }
  }

  /** Splitting `x1 + y1 == x2 + y2` where the x parts are all deeper than
      `depth` and the y parts start at `depth`. */
  lemma SplitAtDepth(x1: seq<Entry>, y1: seq<Entry>, x2: seq<Entry>, y2: seq<Entry>, depth: nat)
    requires x1 + y1 == x2 + y2
    requires forall e :: e in x1 ==> e.depth > depth
    requires forall e :: e in x2 ==> e.depth > depth
    requires y1 != [] ==> y1[0].depth == depth
    requires y2 != [] ==> y2[0].depth == depth
    ensures x1 == x2 && y1 == y2
  {
    assert x1 == (x1 + y1)[..|x1|];
    assert x2 == (x2 + y2)[..|x2|];
    assert y1 == (x1 + y1)[|x1|..];
    assert y2 == (x2 + y2)[|x2|..];
  }

  /** The outline determines the tree: equal outlines mean equal trees. */
  lemma {:induction false} OutlineDetermines(a: seq<Node>, b: seq<Node>, depth: nat)
    requires Outline(a, depth) == Outline(b, depth)
    ensures a == b
    decreases a
  {
    if a != [] && b != [] {
      var n, m := a[0], b[0];
      var ca, ra := ChildOutline(n, depth), Outline(a[1..], depth);
      var cb, rb := ChildOutline(m, depth), Outline(b[1..], depth);
      OutlineCons(a, depth);
      OutlineCons(b, depth);
      ConsInjective(EntryOf(n, depth), ca + ra, EntryOf(m, depth), cb + rb);
      OutlineDepth(Kids(n), depth + 1);
      OutlineDepth(Kids(m), depth + 1);
      OutlineDepth(a[1..], depth);
      OutlineDepth(b[1..], depth);
      SplitAtDepth(ca, ra, cb, rb, depth);
      if n.children.Present? {
        OutlineDetermines(Kids(n), Kids(m), depth + 1);
      }
      OutlineDetermines(a[1..], b[1..], depth);
      SameNode(n, m, depth);
      assert a == [n] + a[1..];
      assert b == [m] + b[1..];
    }
  }

  /** The outline of a node's children, or nothing without a `children` array. */
  function ChildOutline(n: Node, depth: nat): seq<Entry> {
    if n.children.Present? then Outline(n.children.items, depth + 1) else []
  }

  lemma OutlineCons(nodes: seq<Node>, depth: nat)
    requires nodes != []
    ensures Outline(nodes, depth) == [EntryOf(nodes[0], depth)] + (ChildOutline(nodes[0], depth) + Outline(nodes[1..], depth))
  {
  }

  lemma ConsInjective<T>(x: T, s: seq<T>, y: T, t: seq<T>)
    requires [x] + s == [y] + t
    ensures x == y && s == t
  {
    assert ([x] + s)[0] == x && ([y] + t)[0] == y;
    assert ([x] + s)[1..] == s && ([y] + t)[1..] == t;
  }

  /** A node is fixed by its own entry and its children. */
  lemma SameNode(n: Node, m: Node, depth: nat)
    requires EntryOf(n, depth) == EntryOf(m, depth)
    requires n.children.Present? ==> Kids(n) == Kids(m)
    ensures n == m
  {
  }

  /** The ids of a non-empty tree: the first node's, then those of its
      subtree, then those of its siblings. */
  lemma IdsCons(nodes: seq<Node>)
    requires nodes != []
    ensures multiset(Ids(nodes))
         == multiset{nodes[0].id} + multiset(Ids(Kids(nodes[0]))) + multiset(Ids(nodes[1..]))
  {
    var n := nodes[0];
    assert Ids(nodes) == [n.id] + Ids(Kids(n)) + Ids(nodes[1..]);
  }

  /** How uniqueness of the whole tree splits into its first node, that node's
      subtree and the remaining siblings. */
  lemma UniqueSplit(nodes: seq<Node>)
    requires nodes != [] && UniqueIds(nodes)
    ensures UniqueIds(Kids(nodes[0])) && UniqueIds(nodes[1..])
    ensures nodes[0].id !in Ids(Kids(nodes[0])) && nodes[0].id !in Ids(nodes[1..])
    ensures forall x :: x in Ids(Kids(nodes[0])) ==> x !in Ids(nodes[1..])
  {
    var n := nodes[0];
    var m := multiset(Ids(nodes));
    var mk, mr := multiset(Ids(Kids(n))), multiset(Ids(nodes[1..]));
    IdsCons(nodes);
    forall x ensures mk[x] <= 1 && mr[x] <= 1 {
      assert m[x] == multiset{n.id}[x] + mk[x] + mr[x];
      assert m[x] <= 1;
    }
    forall x | x in Ids(Kids(n)) ensures x !in Ids(nodes[1..]) {
      assert m[x] == multiset{n.id}[x] + mk[x] + mr[x];
      assert m[x] <= 1 && mk[x] > 0;
    }
    assert m[n.id] == 1 + mk[n.id] + mr[n.id];
    assert m[n.id] <= 1;
  }

  /** A sequence without repeated elements holds each value at most once. */
  lemma {:induction false} DistinctCounts(s: seq<string>)
    requires forall i, j :: 0 <= i < j < |s| ==> s[i] != s[j]
    ensures forall x :: multiset(s)[x] <= 1
    decreases |s|
  {
    if s != [] {
      DistinctCounts(s[1..]);
      assert s == [s[0]] + s[1..];
      assert s[0] !in s[1..];
      forall x ensures multiset(s)[x] <= 1 {
        assert multiset(s)[x] == multiset{s[0]}[x] + multiset(s[1..])[x];
      }
    }
  }

  /** Ids listed without repetition are unique. */
  lemma DistinctUnique(nodes: seq<Node>)
    requires forall i, j :: 0 <= i < j < |Ids(nodes)| ==> Ids(nodes)[i] != Ids(nodes)[j]
    ensures UniqueIds(nodes)
  {
    DistinctCounts(Ids(nodes));
  }

  lemma {:induction false} IdsAppend(a: seq<Node>, b: seq<Node>)
    ensures Ids(a + b) == Ids(a) + Ids(b)
    decreases |a|
  {
    if a != [] {
      assert (a + b)[0] == a[0] && (a + b)[1..] == a[1..] + b;
      IdsAppend(a[1..], b);
    } else {
      assert a + b == b;
    }
  }

  lemma {:induction false} SubseqRefl<T>(a: seq<T>)
    ensures Subseq(a, a)
    decreases |a|
  {
    if a != [] {
      SubseqRefl(a[1..]);
    }
  }

  /** Deleting more entries in front keeps a subsequence a subsequence. */
  lemma {:induction false} SubseqPrefixed<T>(a: seq<T>, b: seq<T>, x: seq<T>)
    requires Subseq(a, b)
    ensures Subseq(a, x + b)
    decreases |x|
  {
    if x != [] {
      SubseqPrefixed(a, b, x[1..]);
      assert (x + b)[1..] == x[1..] + b;
    } else {
      assert x + b == b;
    }
  }

  lemma {:induction false} SubseqAppend<T>(a: seq<T>, b: seq<T>, c: seq<T>, d: seq<T>)
    requires Subseq(a, b) && Subseq(c, d)
    ensures Subseq(a + c, b + d)
    decreases |b|
  {
    if a == [] {
      SubseqPrefixed(c, d, b);
      assert a + c == c;
    } else if a[0] == b[0] && Subseq(a[1..], b[1..]) {
      SubseqAppend(a[1..], b[1..], c, d);
      assert (a + c)[0] == (b + d)[0];
      assert (a + c)[1..] == a[1..] + c && (b + d)[1..] == b[1..] + d;
    } else {
      SubseqAppend(a, b[1..], c, d);
      assert (b + d)[1..] == b[1..] + d;
    }
  }
}
