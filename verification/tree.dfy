/** The file browser's tree (src/lib/utils/tree.ts): building the top level
    of the tree from the diffed files, ordering nodes directories first and
    then by name, propagating a summary status up to directories, and the
    CSS class and icon shown for a status.

    The name ordering is `localeCompare`, whose result depends on the
    locale; it is a parameter `lt` here (`lt(a, b)` when `a.localeCompare(b)`
    is negative), and the sorting lemmas require of it only what
    `Array.prototype.sort` needs of a consistent comparator. */
module Tree {
  import opened Types
  import opened Strings

  // ---------------------------------------------------------------------
  // Status class and icon
  // ---------------------------------------------------------------------

  /** The text colour of a status; no status has none. */
  function GetStatusClass(status: Option<DiffStatus>): (r: string)
    ensures r == "" <==> status.None?
  {
    match status
    case Some(Added) => "text-green-500"
    case Some(Deleted) => "text-red-500"
    case Some(Modified) => "text-yellow-500"
    case None => ""
  }

  /** The one-character icon of a status; no status has none. */
  function GetStatusIcon(status: Option<DiffStatus>): (r: string)
    ensures r == "" <==> status.None?
    ensures status.Some? ==> |r| == 1
  {
    match status
    case Some(Added) => "+"
    case Some(Deleted) => "-"
    case Some(Modified) => "~"
    case None => ""
  }

  /** Different statuses look different: the class and the icon each tell
      the status back. */
  lemma StatusShownDistinctly(a: Option<DiffStatus>, b: Option<DiffStatus>)
    ensures GetStatusClass(a) == GetStatusClass(b) <==> a == b
    ensures GetStatusIcon(a) == GetStatusIcon(b) <==> a == b
  {
    if a != b {
      assert GetStatusClass(a) != GetStatusClass(b) by {
        if a.Some? && b.Some? {
          assert GetStatusClass(a)[5] != GetStatusClass(b)[5];
        }
      }
      assert GetStatusIcon(a) != GetStatusIcon(b) by {
        if a.Some? && b.Some? {
          assert GetStatusIcon(a)[0] != GetStatusIcon(b)[0];
        }
      }
    }
  }

  // ---------------------------------------------------------------------
  // Sorting
  // ---------------------------------------------------------------------

  /** What a comparator must satisfy for a sort to be well defined: `lt`
      is asymmetric and its complement is transitive (a strict weak
      order). */
  ghost predicate StrictWeakOrder(lt: (string, string) -> bool)
  {
    (forall a, b :: lt(a, b) ==> !lt(b, a)) &&
    (forall a, b, c :: !lt(a, b) && !lt(b, c) ==> !lt(a, c))
  }

  /** The comparator of `sortTreeNodes`: directories before files, then by
      name. `Before(a, b)` when the comparator returns a negative number. */
  predicate Before(a: TreeNode, b: TreeNode, lt: (string, string) -> bool)
  {
    (a.isDirectory && !b.isDirectory) ||
    (a.isDirectory == b.isDirectory && lt(a.name, b.name))
  }

  /** No node comes after one it should precede. */
  ghost predicate Ordered(nodes: seq<TreeNode>, lt: (string, string) -> bool)
  {
    forall i, j :: 0 <= i < j < |nodes| ==> !Before(nodes[j], nodes[i], lt)
  }

  /** The node comparator inherits a strict weak order from the names. */
  lemma BeforeStrictWeak(lt: (string, string) -> bool, a: TreeNode, b: TreeNode, c: TreeNode)
    requires StrictWeakOrder(lt)
    ensures Before(a, b, lt) ==> !Before(b, a, lt)
    ensures !Before(a, b, lt) && !Before(b, c, lt) ==> !Before(a, c, lt)
  {
    assert lt(a.name, b.name) ==> !lt(b.name, a.name);
    assert !lt(a.name, b.name) && !lt(b.name, c.name) ==> !lt(a.name, c.name);
  }

  /** Places `x` in front of the first node it does not follow; it goes
      ahead of nodes it ties with. */
  function InsertNode(x: TreeNode, s: seq<TreeNode>, lt: (string, string) -> bool): (r: seq<TreeNode>)
    ensures multiset(r) == multiset(s) + multiset{x}
    ensures |r| == |s| + 1
  {
    if s == [] || !Before(s[0], x, lt) then [x] + s
    else
      assert s == [s[0]] + s[1..];
      [s[0]] + InsertNode(x, s[1..], lt)
  }

  /** `nodes.sort(cmp)`, written as insertion sort. Proved: the result is a
      permutation, ordered when the comparator is consistent, and input
      already in order comes back unchanged. */
  function SortNodes(nodes: seq<TreeNode>, lt: (string, string) -> bool): (r: seq<TreeNode>)
    ensures multiset(r) == multiset(nodes)
    ensures |r| == |nodes|
  {
    if nodes == [] then []
    else
      assert nodes == [nodes[0]] + nodes[1..];
      InsertNode(nodes[0], SortNodes(nodes[1..], lt), lt)
  }

  lemma {:induction false} InsertNodeOrdered(x: TreeNode, s: seq<TreeNode>, lt: (string, string) -> bool)
    requires StrictWeakOrder(lt) && Ordered(s, lt)
    ensures Ordered(InsertNode(x, s, lt), lt)
  {
    var r := InsertNode(x, s, lt);
    if s == [] || !Before(s[0], x, lt) {
      forall j | 0 < j < |r| ensures !Before(r[j], x, lt) {
        if j > 1 {
          BeforeStrictWeak(lt, s[j - 1], s[0], x);
        }
      }
    } else {
      var t := InsertNode(x, s[1..], lt);
      InsertNodeOrdered(x, s[1..], lt);
      forall j | 0 <= j < |t| ensures !Before(t[j], s[0], lt) {
        assert t[j] in multiset(t);
        if t[j] == x {
          BeforeStrictWeak(lt, s[0], x, x);
        } else {
          assert t[j] in s[1..];
        }
      }
    }
  }

  /** With a consistent comparator the sort puts the nodes in order. */
  lemma {:induction false} SortNodesOrdered(nodes: seq<TreeNode>, lt: (string, string) -> bool)
    requires StrictWeakOrder(lt)
    ensures Ordered(SortNodes(nodes, lt), lt)
  {
    if nodes != [] {
      SortNodesOrdered(nodes[1..], lt);
      InsertNodeOrdered(nodes[0], SortNodes(nodes[1..], lt), lt);
    }
  }

  /** Nodes already in order are left as they are. */
  lemma {:induction false} SortNodesKeepsOrder(nodes: seq<TreeNode>, lt: (string, string) -> bool)
    requires Ordered(nodes, lt)
    ensures SortNodes(nodes, lt) == nodes
  {
    if nodes != [] {
      SortNodesKeepsOrder(nodes[1..], lt);
      assert nodes[1..] == [] || !Before(nodes[1..][0], nodes[0], lt);
      assert [nodes[0]] + nodes[1..] == nodes;
    }
  }

  /** Every node of `nodes` with its children array, if any, sorted. */
  function SortChildren(nodes: seq<TreeNode>, lt: (string, string) -> bool): (r: seq<TreeNode>)
    ensures |r| == |nodes|
    ensures forall i :: 0 <= i < |r| ==>
      r[i].(children := nodes[i].children) == nodes[i] &&
      (r[i].children.ChildNodes? <==> nodes[i].children.ChildNodes?)
    decreases nodes, 0
  {
    seq(|nodes|, i requires 0 <= i < |nodes| =>
      var node := nodes[i];
      match node.children
      case NoChildren => node
      case ChildNodes(kids) => node.(children := ChildNodes(SortTreeNodes(kids, lt))))
  }

  /** `sortTreeNodes`: new nodes whose children are sorted recursively,
      the whole list in comparator order. */
  function SortTreeNodes(nodes: seq<TreeNode>, lt: (string, string) -> bool): (r: seq<TreeNode>)
    ensures |r| == |nodes|
    decreases nodes, 1
  {
    SortNodes(SortChildren(nodes, lt), lt)
  }

  /** Ordered at every level of the tree. */
  ghost predicate DeepOrdered(nodes: seq<TreeNode>, lt: (string, string) -> bool)
    decreases nodes
  {
    Ordered(nodes, lt) &&
    forall i :: 0 <= i < |nodes| && nodes[i].children.ChildNodes? ==>
      DeepOrdered(nodes[i].children.nodes, lt)
  }

  /** `sortTreeNodes` orders every level of the tree, directories ahead of
      files and names in comparator order, and keeps the nodes it is given:
      the same nodes, each with its children sorted. */
  lemma {:induction false} SortTreeNodesSorts(nodes: seq<TreeNode>, lt: (string, string) -> bool)
    requires StrictWeakOrder(lt)
    ensures DeepOrdered(SortTreeNodes(nodes, lt), lt)
    ensures multiset(SortTreeNodes(nodes, lt)) == multiset(SortChildren(nodes, lt))
    decreases nodes
  {
    var c := SortChildren(nodes, lt);
    var r := SortTreeNodes(nodes, lt);
    SortNodesOrdered(c, lt);
    forall k | 0 <= k < |r| && r[k].children.ChildNodes?
      ensures DeepOrdered(r[k].children.nodes, lt)
    {
      assert r[k] in multiset(c);
      var i :| 0 <= i < |c| && c[i] == r[k];
      SortTreeNodesSorts(nodes[i].children.nodes, lt);
    }
  }

  /** A directory listing sorts its directories ahead of its files. */
  lemma DirectoriesFirst(nodes: seq<TreeNode>, lt: (string, string) -> bool, i: int, j: int)
    requires Ordered(nodes, lt) && 0 <= i < j < |nodes|
    requires nodes[j].isDirectory
    ensures nodes[i].isDirectory
  {
    assert !Before(nodes[j], nodes[i], lt);
  }

  // ---------------------------------------------------------------------
  // Status propagation
  // ---------------------------------------------------------------------

  /** The statuses the nodes carry. */
  function StatusSet(nodes: seq<TreeNode>): set<DiffStatus>
  {
    set i | 0 <= i < |nodes| && nodes[i].status.Some? :: nodes[i].status.value
  }

  /** The status a directory takes from the set of its children's statuses:
      the one status they share, "modified" when they differ, none when no
      child has one. */
  function Summary(statuses: set<DiffStatus>): Option<DiffStatus>
  {
    if |statuses| == 1 then
      Some(if Added in statuses then Added else if Deleted in statuses then Deleted else Modified)
    else if |statuses| > 1 then Some(Modified)
    else None
  }

  /** A node whose status is recomputed: a directory with a children array. */
  predicate IsParent(node: TreeNode)
  {
    node.isDirectory && node.children.ChildNodes?
  }

  /** `propagateStatus`: every directory with a children array gets its
      children propagated and its status summarised from theirs; other nodes
      stay as they are. */
  function PropagateStatus(nodes: seq<TreeNode>): (r: seq<TreeNode>)
    ensures |r| == |nodes|
    ensures forall i :: 0 <= i < |nodes| && !IsParent(nodes[i]) ==> r[i] == nodes[i]
    ensures forall i :: 0 <= i < |nodes| ==>
      r[i].(children := nodes[i].children, status := nodes[i].status) == nodes[i] &&
      (r[i].children.ChildNodes? <==> nodes[i].children.ChildNodes?)
    decreases nodes
  {
    seq(|nodes|, i requires 0 <= i < |nodes| =>
      var node := nodes[i];
      if IsParent(node) then
        var updated := PropagateStatus(node.children.nodes);
        node.(children := ChildNodes(updated), status := Summary(StatusSet(updated)))
      else node)
  }

  lemma SummaryOfOne(statuses: set<DiffStatus>, s: DiffStatus)
    requires s in statuses
    requires forall t :: t in statuses ==> t == s
    ensures Summary(statuses) == Some(s)
  {
    assert statuses == {s};
  }

  lemma SummaryOfTwo(statuses: set<DiffStatus>, s: DiffStatus, t: DiffStatus)
    requires s in statuses && t in statuses && s != t
    ensures Summary(statuses) == Some(Modified)
  {
    assert {s, t} <= statuses;
    assert |{s, t}| == 2;
    assert |statuses| >= |{s, t}| by {
      SubsetSize({s, t}, statuses);
    }
  }

  lemma {:induction false} SubsetSize(a: set<DiffStatus>, b: set<DiffStatus>)
    requires a <= b
    ensures |a| <= |b|
  {
    if a != {} {
      var x :| x in a;
      SubsetSize(a - {x}, b - {x});
    }
  }

  /** No status among the children: the summary is none, and only then. */
  lemma SummaryNone(kids: seq<TreeNode>)
    ensures (forall k :: 0 <= k < |kids| ==> kids[k].status.None?) <==> Summary(StatusSet(kids)).None?
  {
    if exists k :: 0 <= k < |kids| && kids[k].status.Some? {
      var k :| 0 <= k < |kids| && kids[k].status.Some?;
      assert kids[k].status.value in StatusSet(kids);
    } else {
      assert StatusSet(kids) == {};
    }
  }

  /** Children sharing one status pass it on. */
  lemma SummaryShared(kids: seq<TreeNode>, k: int, s: DiffStatus)
    requires 0 <= k < |kids| && kids[k].status == Some(s)
    requires forall m :: 0 <= m < |kids| && kids[m].status.Some? ==> kids[m].status == Some(s)
    ensures Summary(StatusSet(kids)) == Some(s)
  {
    assert s in StatusSet(kids);
    SummaryOfOne(StatusSet(kids), s);
  }

  /** Two children with different statuses make the summary "modified". */
  lemma SummaryMixed(kids: seq<TreeNode>, k: int, m: int)
    requires 0 <= k < |kids| && 0 <= m < |kids|
    requires kids[k].status.Some? && kids[m].status.Some? && kids[k].status != kids[m].status
    ensures Summary(StatusSet(kids)) == Some(Modified)
  {
    var ss := StatusSet(kids);
    assert kids[k].status.value in ss && kids[m].status.value in ss;
    SummaryOfTwo(ss, kids[k].status.value, kids[m].status.value);
  }

  /** The summary of a list of children: none when no child has a status,
      their common status when they share one, "modified" when two of them
      differ. */
  lemma SummaryMeaning(kids: seq<TreeNode>, s: DiffStatus)
    ensures ((forall k :: 0 <= k < |kids| ==> kids[k].status.None?) <==> Summary(StatusSet(kids)).None?) &&
      (((exists k :: 0 <= k < |kids| && kids[k].status == Some(s)) &&
        (forall k :: 0 <= k < |kids| && kids[k].status.Some? ==> kids[k].status == Some(s)))
         ==> Summary(StatusSet(kids)) == Some(s)) &&
      ((exists k, m :: 0 <= k < |kids| && 0 <= m < |kids| &&
          kids[k].status.Some? && kids[m].status.Some? && kids[k].status != kids[m].status)
         ==> Summary(StatusSet(kids)) == Some(Modified))
  {
    SummaryNone(kids);
    if (exists k :: 0 <= k < |kids| && kids[k].status == Some(s)) &&
       (forall k :: 0 <= k < |kids| && kids[k].status.Some? ==> kids[k].status == Some(s)) {
      var k :| 0 <= k < |kids| && kids[k].status == Some(s);
      SummaryShared(kids, k, s);
    }
    if exists k, m :: 0 <= k < |kids| && 0 <= m < |kids| &&
          kids[k].status.Some? && kids[m].status.Some? && kids[k].status != kids[m].status {
      var k, m :| 0 <= k < |kids| && 0 <= m < |kids| &&
          kids[k].status.Some? && kids[m].status.Some? && kids[k].status != kids[m].status;
      SummaryMixed(kids, k, m);
    }
  }

  /** A propagated directory's status: none when no child has one, the
      children's common status when they share one, "modified" when two
      children differ. */
  lemma DirectoryStatus(nodes: seq<TreeNode>, i: int, s: DiffStatus)
    requires 0 <= i < |nodes| && IsParent(nodes[i])
    ensures var d := PropagateStatus(nodes)[i];
      var kids := d.children.nodes;
      ((forall k :: 0 <= k < |kids| ==> kids[k].status.None?) <==> d.status.None?) &&
      (((exists k :: 0 <= k < |kids| && kids[k].status == Some(s)) &&
        (forall k :: 0 <= k < |kids| && kids[k].status.Some? ==> kids[k].status == Some(s)))
         ==> d.status == Some(s)) &&
      ((exists k, m :: 0 <= k < |kids| && 0 <= m < |kids| &&
          kids[k].status.Some? && kids[m].status.Some? && kids[k].status != kids[m].status)
         ==> d.status == Some(Modified))
  {
    var d := PropagateStatus(nodes)[i];
    assert d.status == Summary(StatusSet(d.children.nodes));
    SummaryMeaning(d.children.nodes, s);
  }

  /** Propagating a second time changes nothing. */
  lemma {:induction false} PropagateIdempotent(nodes: seq<TreeNode>)
    ensures PropagateStatus(PropagateStatus(nodes)) == PropagateStatus(nodes)
    decreases nodes
  {
    var r := PropagateStatus(nodes);
    forall i | 0 <= i < |nodes| ensures PropagateStatus(r)[i] == r[i] {
      if IsParent(nodes[i]) {
        PropagateIdempotent(nodes[i].children.nodes);
      }
    }
  }

  // ---------------------------------------------------------------------
  // Building the tree
  // ---------------------------------------------------------------------

  /** A JavaScript `Map` from names to nodes: a key is added once, keeps
      its place when its value is replaced, and values come out in the
      order their keys were added. */
  class NodeMap {
    var keys: seq<string>
    var nodes: map<string, TreeNode>

    ghost predicate Valid()
      reads this
    {
      (forall k :: k in nodes <==> k in keys) &&
      (forall i, j :: 0 <= i < j < |keys| ==> keys[i] != keys[j])
    }

    constructor ()
      ensures Valid() && keys == [] && nodes == map[]
    {
      keys := [];
      nodes := map[];
    }

    /** `map.set(name, node)`. */
    method Set(name: string, node: TreeNode)
      requires Valid()
      modifies this
      ensures Valid()
      ensures nodes == old(nodes)[name := node]
      ensures keys == if name in old(nodes) then old(keys) else old(keys) + [name]
    {
      if name !in nodes {
        keys := keys + [name];
      }
      nodes := nodes[name := node];
    }

    /** `Array.from(map.values())`. */
    function Values(): (r: seq<TreeNode>)
      reads this
      requires Valid()
      ensures |r| == |keys|
    {
      ValuesOf(keys, nodes)
    }
  }

  function ValuesOf(keys: seq<string>, nodes: map<string, TreeNode>): (r: seq<TreeNode>)
    requires forall k :: k in keys ==> k in nodes
    ensures |r| == |keys|
    ensures forall i :: 0 <= i < |keys| ==> r[i] == nodes[keys[i]]
  {
    seq(|keys|, i requires 0 <= i < |keys| => nodes[keys[i]])
  }

  /** The map a list of nodes gives when each is set under its name. */
  function NameMap(kids: seq<TreeNode>): map<string, TreeNode>
  {
    if kids == [] then map[]
    else
      var last := kids[|kids| - 1];
      NameMap(kids[..|kids| - 1])[last.name := last]
  }

  /** The order in which those names were first set. */
  function NameOrder(kids: seq<TreeNode>): seq<string>
  {
    if kids == [] then []
    else
      var order := NameOrder(kids[..|kids| - 1]);
      var name := kids[|kids| - 1].name;
      if name in order then order else order + [name]
  }

  /** A fresh map filled from a children array, one `set` per child. */
  method CopyChildren(kids: seq<TreeNode>) returns (m: NodeMap)
    ensures fresh(m) && m.Valid()
    ensures m.nodes == NameMap(kids) && m.keys == NameOrder(kids)
  {
    m := new NodeMap();
    for j := 0 to |kids|
      invariant m.Valid()
      invariant m.nodes == NameMap(kids[..j]) && m.keys == NameOrder(kids[..j])
    {
      m.Set(kids[j].name, kids[j]);
      assert kids[..j + 1][..j] == kids[..j];
    }
    assert kids[..|kids|] == kids;
  }

  /** The first '/'-segment of a path: the name of its top-level node. */
  function TopName(path: string): string
  {
    Split(path, '/')[0]
  }

  /** The node created for segment `part` of a file's path: the file's
      own node at the last segment, a directory with an empty children
      array before it. */
  function NewNode(part: string, path: string, isLast: bool, file: DiffFile): TreeNode
  {
    TreeNode(part, path, !isLast,
      if isLast then Some(file.status) else None,
      if isLast then NoChildren else ChildNodes([]),
      if isLast then Some(file) else None)
  }

  /** The top level after one more file: an existing node is kept, and
      gets an empty children array when the file passes through it. */
  function AddTop(top: map<string, TreeNode>, file: DiffFile): map<string, TreeNode>
  {
    var parts := Split(file.path, '/');
    var node := if parts[0] in top then top[parts[0]] else NewNode(parts[0], parts[0], |parts| == 1, file);
    top[parts[0] := if |parts| > 1 then node.(children := ChildNodes([])) else node]
  }

  /** The top level of the tree after the files, in order. */
  function TopLevel(files: seq<DiffFile>): map<string, TreeNode>
  {
    if files == [] then map[]
    else AddTop(TopLevel(files[..|files| - 1]), files[|files| - 1])
  }

  /** The first segments of the files' paths in order of first appearance:
      the keys of the top level, each once. */
  function TopOrder(files: seq<DiffFile>): (r: seq<string>)
    ensures forall k :: k in r <==> k in TopLevel(files)
    ensures forall i, j :: 0 <= i < j < |r| ==> r[i] != r[j]
  {
    if files == [] then []
    else
      var order := TopOrder(files[..|files| - 1]);
      var name := TopName(files[|files| - 1].path);
      if name in order then order else order + [name]
  }

  /** Every children array is empty. */
  ghost predicate EmptyChildren(top: map<string, TreeNode>)
  {
    forall k :: k in top ==> top[k].children in {NoChildren, ChildNodes([])}
  }

  /** One pass of the inner loop of `buildFileTree` at segment `part`:
      creates the node if `level` lacks it; unless the segment is the last,
      gives the node a children array, replaces that array by a snapshot of
      a fresh map filled from it, and moves on to that map. */
  method VisitSegment(level: NodeMap, part: string, path: string, isLast: bool, file: DiffFile)
    returns (next: NodeMap)
    requires level.Valid() && EmptyChildren(level.nodes)
    modifies level
    ensures level.Valid() && EmptyChildren(level.nodes)
    ensures var node := if part in old(level.nodes) then old(level.nodes)[part]
                        else NewNode(part, path, isLast, file);
      level.nodes == old(level.nodes)[part := if isLast then node else node.(children := ChildNodes([]))]
    ensures level.keys == if part in old(level.nodes) then old(level.keys) else old(level.keys) + [part]
    ensures next.Valid() && EmptyChildren(next.nodes)
    ensures isLast ==> next == level
    ensures !isLast ==> next.nodes == map[]
    ensures !isLast ==> fresh(next)
  {
    if part !in level.nodes {
      level.Set(part, NewNode(part, path, isLast, file));
    }
    next := level;
    if !isLast {
      next := Descend(level, part);
    }
  }

  /** The steps of `buildFileTree` past an existing node that is not the
      last segment: the node gets a children array if it has none, the
      array is copied into a fresh map, the node's array is replaced by that
      map's values, and the fresh map is returned. */
  method Descend(level: NodeMap, part: string) returns (next: NodeMap)
    requires level.Valid() && EmptyChildren(level.nodes) && part in level.nodes
    modifies level
    ensures level.Valid() && EmptyChildren(level.nodes)
    ensures level.nodes == old(level.nodes)[part := old(level.nodes)[part].(children := ChildNodes([]))]
    ensures level.keys == old(level.keys)
    ensures fresh(next) && next.Valid() && next.nodes == map[]
  {
    var node := level.nodes[part];
    if node.children == NoChildren {
      node := node.(children := ChildNodes([]));
      level.Set(part, node);
    }
    assert node.children == ChildNodes([]);
    next := CopyChildren(node.children.nodes);
    level.Set(part, node.(children := ChildNodes(next.Values())));
  }

  /** One pass of the outer loop of `buildFileTree`: walks the file's
      segments. Only the first segment lands in `root`: each later one goes
      into a map built afresh from a snapshot of its parent's children,
      which is never stored anywhere. */
  method AddFile(root: NodeMap, file: DiffFile)
    requires root.Valid() && EmptyChildren(root.nodes)
    modifies root
    ensures root.Valid() && EmptyChildren(root.nodes)
    ensures root.nodes == AddTop(old(root.nodes), file)
    ensures root.keys == if TopName(file.path) in old(root.nodes) then old(root.keys)
                         else old(root.keys) + [TopName(file.path)]
  {
    var parts := Split(file.path, '/');
    var currentLevel := root;
    var currentPath := "";
    for i := 0 to |parts|
      invariant root.Valid() && currentLevel.Valid() && EmptyChildren(currentLevel.nodes)
      invariant i == 0 ==> (currentLevel == root && currentPath == "" &&
        root.nodes == old(root.nodes) && root.keys == old(root.keys))
      invariant 0 < i < |parts| ==> fresh(currentLevel)
      invariant i > 0 ==> (root.nodes == AddTop(old(root.nodes), file) &&
        root.keys == if TopName(file.path) in old(root.nodes) then old(root.keys)
                     else old(root.keys) + [TopName(file.path)])
    {
      var part := parts[i];
      currentPath := if currentPath != "" then currentPath + "/" + part else part;
      currentLevel := VisitSegment(currentLevel, part, currentPath, i == |parts| - 1, file);
    }
  }

  /** `buildFileTree`: the sorted values of the top-level map. It holds
      exactly one node per distinct first segment, the node of the first
      file that reached it, keyed and named by that segment; with a
      consistent comparator the nodes are in order. */
  method BuildFileTree(files: seq<DiffFile>, lt: (string, string) -> bool) returns (r: seq<TreeNode>)
    ensures r == SortTreeNodes(ValuesOf(TopOrder(files), TopLevel(files)), lt)
    ensures forall k :: 0 <= k < |r| ==> r[k].name in TopLevel(files) && r[k] == TopLevel(files)[r[k].name]
    ensures forall n :: n in TopLevel(files) ==> exists k :: 0 <= k < |r| && r[k].name == n
    ensures forall k, m :: 0 <= k < m < |r| ==> r[k].name != r[m].name
    ensures StrictWeakOrder(lt) ==> Ordered(r, lt)
  {
    var root := new NodeMap();
    for f := 0 to |files|
      invariant fresh(root) && root.Valid() && EmptyChildren(root.nodes)
      invariant root.nodes == TopLevel(files[..f]) && root.keys == TopOrder(files[..f])
    {
      AddFile(root, files[f]);
      assert files[..f + 1][..f] == files[..f];
    }
    assert files[..|files|] == files;
    r := SortTreeNodes(root.Values(), lt);
    TopLevelSorted(files, lt, r);
  }

  /** Every top-level node is named by its key. */
  lemma {:induction false} TopLevelNamed(files: seq<DiffFile>)
    ensures forall n :: n in TopLevel(files) ==> TopLevel(files)[n].name == n
    ensures EmptyChildren(TopLevel(files))
  {
    if files != [] {
      TopLevelNamed(files[..|files| - 1]);
    }
  }

  /** The top level has a node for exactly the first segments of the
      files' paths. */
  lemma {:induction false} TopLevelNames(files: seq<DiffFile>, n: string)
    ensures n in TopLevel(files) <==> exists i :: 0 <= i < |files| && TopName(files[i].path) == n
  {
    if files != [] {
      var init := files[..|files| - 1];
      TopLevelNames(init, n);
      if exists i :: 0 <= i < |init| && TopName(init[i].path) == n {
        var i :| 0 <= i < |init| && TopName(init[i].path) == n;
        assert files[i] == init[i];
      }
      if exists i :: 0 <= i < |files| && TopName(files[i].path) == n {
        var i :| 0 <= i < |files| && TopName(files[i].path) == n;
        if i < |init| {
          assert init[i] == files[i];
        }
      }
    }
  }

  /** A top-level node is the one the first file reaching it created, and
      later files never replace it: its name and path are the segment; it
      is that file's own node, with its status, when the file's path is the
      segment alone, and a directory without status otherwise. */
  lemma {:induction false} TopLevelFirstFile(files: seq<DiffFile>, i: int)
    requires 0 <= i < |files|
    requires forall j :: 0 <= j < i ==> TopName(files[j].path) != TopName(files[i].path)
    ensures var n := TopName(files[i].path);
      var single := |Split(files[i].path, '/')| == 1;
      n in TopLevel(files) &&
      TopLevel(files)[n].name == n && TopLevel(files)[n].path == n &&
      TopLevel(files)[n].isDirectory == !single &&
      TopLevel(files)[n].status == (if single then Some(files[i].status) else None) &&
      TopLevel(files)[n].file == (if single then Some(files[i]) else None)
  {
    var init := files[..|files| - 1];
    var n := TopName(files[i].path);
    if i == |files| - 1 {
      forall j | 0 <= j < |init| ensures TopName(init[j].path) != n {
        assert init[j] == files[j];
      }
      TopLevelNames(init, n);
    } else {
      forall j | 0 <= j < i ensures TopName(init[j].path) != TopName(init[i].path) {
        assert init[j] == files[j];
      }
      TopLevelFirstFile(init, i);
      assert init[i] == files[i];
    }
  }

  /** The file's path goes through a directory named `n` at the top. */
  predicate PassesThrough(file: DiffFile, n: string)
  {
    TopName(file.path) == n && |Split(file.path, '/')| > 1
  }

  /** Some file's path goes through a directory named `n` at the top. */
  ghost predicate SomePassesThrough(files: seq<DiffFile>, n: string)
  {
    exists i :: 0 <= i < |files| && PassesThrough(files[i], n)
  }

  lemma SomePassesThroughSnoc(files: seq<DiffFile>, n: string)
    requires files != []
    ensures SomePassesThrough(files, n) <==>
      SomePassesThrough(files[..|files| - 1], n) || PassesThrough(files[|files| - 1], n)
  {
    var init := files[..|files| - 1];
    if exists i :: 0 <= i < |init| && PassesThrough(init[i], n) {
      var i :| 0 <= i < |init| && PassesThrough(init[i], n);
      assert files[i] == init[i];
    }
    if exists i :: 0 <= i < |files| && PassesThrough(files[i], n) {
      var i :| 0 <= i < |files| && PassesThrough(files[i], n);
      if i < |init| {
        assert init[i] == files[i];
      }
    }
  }

  /** A top-level node has an empty children array when some file's path
      goes through it, and none otherwise: nothing below the top level is
      ever stored in it. */
  lemma {:induction false} TopLevelChildren(files: seq<DiffFile>, n: string)
    requires n in TopLevel(files)
    ensures TopLevel(files)[n].children == if SomePassesThrough(files, n) then ChildNodes([]) else NoChildren
  {
    var init := files[..|files| - 1];
    var f := files[|files| - 1];
    SomePassesThroughSnoc(files, n);
    if n in TopLevel(init) {
      TopLevelChildren(init, n);
    } else if !PassesThrough(f, n) {
      TopLevelNames(init, n);
      forall i | 0 <= i < |init| ensures !PassesThrough(init[i], n) {
      }
    }
  }

  /** The children arrays of the top level are empty, so sorting leaves
      each node as it is. */
  lemma {:induction false} SortChildrenOfEmpty(nodes: seq<TreeNode>, lt: (string, string) -> bool)
    requires forall i :: 0 <= i < |nodes| ==> nodes[i].children in {NoChildren, ChildNodes([])}
    ensures SortChildren(nodes, lt) == nodes
  {
    var c := SortChildren(nodes, lt);
    forall i | 0 <= i < |nodes| ensures c[i] == nodes[i] {
      if nodes[i].children == ChildNodes([]) {
        assert SortTreeNodes([], lt) == [];
      }
    }
  }

  /** Two equal entries at different places count twice. */
  lemma {:induction false} TwiceCounted(s: seq<TreeNode>, k: int, m: int)
    requires 0 <= k < m < |s| && s[k] == s[m]
    ensures multiset(s)[s[k]] >= 2
  {
    assert s == s[..k] + [s[k]] + s[k + 1..m] + [s[m]] + s[m + 1..];
  }

  /** No entry counts twice in a sequence without repeats. */
  lemma {:induction false} CountedOnce(s: seq<TreeNode>, x: TreeNode)
    requires forall k, m :: 0 <= k < m < |s| ==> s[k] != s[m]
    ensures multiset(s)[x] <= 1
  {
    if s != [] {
      var t := s[..|s| - 1];
      CountedOnce(t, x);
      assert s == t + [s[|s| - 1]];
      if s[|s| - 1] == x {
        assert x !in t;
      }
    }
  }

  /** A map's values in the order of its keys, permuted: every node
      is the map's entry under its name, every key is there, and no name
      repeats. */
  lemma {:induction false} PermutedValues(top: map<string, TreeNode>, order: seq<string>, r: seq<TreeNode>)
    requires forall k :: k in order <==> k in top
    requires forall i, j :: 0 <= i < j < |order| ==> order[i] != order[j]
    requires forall n :: n in top ==> top[n].name == n
    requires multiset(r) == multiset(ValuesOf(order, top))
    ensures forall k :: 0 <= k < |r| ==> r[k].name in top && r[k] == top[r[k].name]
    ensures forall n :: n in top ==> exists k :: 0 <= k < |r| && r[k].name == n
    ensures forall k, m :: 0 <= k < m < |r| ==> r[k].name != r[m].name
  {
    var v := ValuesOf(order, top);
    forall k | 0 <= k < |r| ensures r[k].name in top && r[k] == top[r[k].name] {
      assert r[k] in multiset(v);
    }
    forall n | n in top ensures exists k :: 0 <= k < |r| && r[k].name == n {
      var i :| 0 <= i < |order| && order[i] == n;
      assert v[i] in multiset(r);
    }
    forall k, m | 0 <= k < m < |r| ensures r[k].name != r[m].name {
      if r[k].name == r[m].name {
        TwiceCounted(r, k, m);
        CountedOnce(v, r[k]);
      }
    }
  }

  /** Sorting the top level only reorders it: no children array has
      anything in it to sort. */
  lemma {:induction false} TopLevelOnlyReordered(files: seq<DiffFile>, lt: (string, string) -> bool)
    ensures var v := ValuesOf(TopOrder(files), TopLevel(files));
      SortTreeNodes(v, lt) == SortNodes(v, lt)
  {
    TopLevelNamed(files);
    SortChildrenOfEmpty(ValuesOf(TopOrder(files), TopLevel(files)), lt);
  }

  /** What `buildFileTree` returns: the top-level nodes, each once, sorted. */
  lemma {:induction false} TopLevelSorted(files: seq<DiffFile>, lt: (string, string) -> bool, r: seq<TreeNode>)
    requires r == SortTreeNodes(ValuesOf(TopOrder(files), TopLevel(files)), lt)
    ensures forall k :: 0 <= k < |r| ==> r[k].name in TopLevel(files) && r[k] == TopLevel(files)[r[k].name]
    ensures forall n :: n in TopLevel(files) ==> exists k :: 0 <= k < |r| && r[k].name == n
    ensures forall k, m :: 0 <= k < m < |r| ==> r[k].name != r[m].name
    ensures StrictWeakOrder(lt) ==> Ordered(r, lt)
  {
    var v := ValuesOf(TopOrder(files), TopLevel(files));
    TopLevelOnlyReordered(files, lt);
    TopLevelNamed(files);
    PermutedValues(TopLevel(files), TopOrder(files), r);
    if StrictWeakOrder(lt) {
      SortNodesOrdered(v, lt);
    }
  }

  // ---------------------------------------------------------------------
  // The nesting the builder evidently aims at
  // ---------------------------------------------------------------------

  /** The position of the first node called `name`, or `|nodes|`. */
  function FindNode(nodes: seq<TreeNode>, name: string): (k: nat)
    ensures k <= |nodes|
    ensures k < |nodes| ==> nodes[k].name == name
    ensures forall j :: 0 <= j < k ==> nodes[j].name != name
  {
    if nodes == [] then 0
    else if nodes[0].name == name then 0
    else 1 + FindNode(nodes[1..], name)
  }

  /** A node's children array, or nothing. */
  function Kids(node: TreeNode): seq<TreeNode>
  {
    if node.children.ChildNodes? then node.children.nodes else []
  }

  /** The node reached by following the segments `parts` down from the
      listing `nodes`, if there is one. */
  function Lookup(nodes: seq<TreeNode>, parts: seq<string>): Option<TreeNode>
    requires parts != []
    decreases |parts|
  {
    var k := FindNode(nodes, parts[0]);
    if k == |nodes| then None
    else if |parts| == 1 then Some(nodes[k])
    else Lookup(Kids(nodes[k]), parts[1..])
  }

  /** One file's remaining segments `parts` inserted below the listing
      `nodes` at directory `path`, as the inner loop of `buildFileTree`
      evidently intends: an existing node is reused, a missing one is
      created, and the next segment goes into the node's own children. */
  function InsertPath(nodes: seq<TreeNode>, parts: seq<string>, path: string, file: DiffFile): (r: seq<TreeNode>)
    requires parts != []
    ensures |r| >= |nodes|
    ensures forall j :: 0 <= j < |nodes| ==> r[j].name == nodes[j].name
    ensures forall j :: |nodes| <= j < |r| ==> r[j].name == parts[0]
    decreases |parts|
  {
    var part := parts[0];
    var here := if path != "" then path + "/" + part else part;
    var k := FindNode(nodes, part);
    var node := if k < |nodes| then nodes[k] else NewNode(part, here, |parts| == 1, file);
    var node' := if |parts| == 1 then node
                 else node.(children := ChildNodes(InsertPath(Kids(node), parts[1..], here, file)));
    if k < |nodes| then nodes[k := node'] else nodes + [node']
  }

  /** The intended tree: every file inserted along its '/'-segments. */
  function BuildNested(files: seq<DiffFile>): seq<TreeNode>
  {
    if files == [] then []
    else InsertPath(BuildNested(files[..|files| - 1]), Split(files[|files| - 1].path, '/'), "",
                    files[|files| - 1])
  }

  /** Inserting keeps every name where it was and adds a new one at most
      at the end, so the first node of each name stays put. */
  lemma {:induction false} FindNodeAfterInsert(nodes: seq<TreeNode>, parts: seq<string>, path: string,
                                               file: DiffFile, name: string)
    requires parts != []
    requires FindNode(nodes, name) < |nodes|
    ensures FindNode(InsertPath(nodes, parts, path, file), name) == FindNode(nodes, name)
  {
    var r := InsertPath(nodes, parts, path, file);
    FindNodeAt(r, name, FindNode(nodes, name));
  }

  /** A node of the given name with no such name before it is the one
      `FindNode` returns. */
  lemma {:induction false} FindNodeAt(nodes: seq<TreeNode>, name: string, k: nat)
    requires k < |nodes| && nodes[k].name == name
    requires forall j :: 0 <= j < k ==> nodes[j].name != name
    ensures FindNode(nodes, name) == k
    decreases k
  {
    if k > 0 {
      FindNodeAt(nodes[1..], name, k - 1);
    }
  }

  /** After the insertion the inserted path leads to a node. */
  lemma {:induction false} InsertPathFinds(nodes: seq<TreeNode>, parts: seq<string>, path: string, file: DiffFile)
    requires parts != []
    ensures Lookup(InsertPath(nodes, parts, path, file), parts).Some?
    decreases |parts|
  {
    var r := InsertPath(nodes, parts, path, file);
    var part := parts[0];
    var here := if path != "" then path + "/" + part else part;
    var k := FindNode(nodes, part);
    FindNodeAt(r, part, k);
    if |parts| > 1 {
      var node := if k < |nodes| then nodes[k] else NewNode(part, here, false, file);
      InsertPathFinds(Kids(node), parts[1..], here, file);
      assert Kids(r[k]) == InsertPath(Kids(node), parts[1..], here, file);
    }
  }

  /** Inserting one path loses no path found before it. */
  lemma {:induction false} InsertPathKeeps(nodes: seq<TreeNode>, parts: seq<string>, path: string,
                                           file: DiffFile, other: seq<string>)
    requires parts != [] && other != []
    requires Lookup(nodes, other).Some?
    ensures Lookup(InsertPath(nodes, parts, path, file), other).Some?
    decreases |other|
  {
    var r := InsertPath(nodes, parts, path, file);
    var k := FindNode(nodes, other[0]);
    FindNodeAfterInsert(nodes, parts, path, file, other[0]);
    if |other| > 1 && other[0] == parts[0] && |parts| > 1 {
      var here := if path != "" then path + "/" + parts[0] else parts[0];
      InsertPathKeeps(Kids(nodes[k]), parts[1..], here, file, other[1..]);
      assert Kids(r[k]) == InsertPath(Kids(nodes[k]), parts[1..], here, file);
    }
  }

  /** In the intended tree every file's path leads to a node. */
  lemma {:induction false} BuildNestedFindsAll(files: seq<DiffFile>, i: int)
    requires 0 <= i < |files|
    ensures Lookup(BuildNested(files), Split(files[i].path, '/')).Some?
  {
    var init := files[..|files| - 1];
    var f := files[|files| - 1];
    if i == |files| - 1 {
      InsertPathFinds(BuildNested(init), Split(f.path, '/'), "", f);
    } else {
      assert init[i] == files[i];
      BuildNestedFindsAll(init, i);
      InsertPathKeeps(BuildNested(init), Split(f.path, '/'), "", f, Split(files[i].path, '/'));
    }
  }

  /** As written, a single file `a/b` leaves nothing under `a`: its path
      leads nowhere in the tree `buildFileTree` returns. */
  lemma {:induction false} AsWrittenLosesNesting(f: DiffFile, lt: (string, string) -> bool)
    requires f.path == "a/b"
    ensures Lookup(SortTreeNodes(ValuesOf(TopOrder([f]), TopLevel([f])), lt), Split(f.path, '/')) == None
    ensures Lookup(BuildNested([f]), Split(f.path, '/')).Some?
  {
    SplitSegments();
    var v := ValuesOf(TopOrder([f]), TopLevel([f]));
    assert [f][..0] == [];
    assert TopName(f.path) == "a";
    assert TopOrder([f]) == ["a"];
    var node := NewNode("a", "a", false, f).(children := ChildNodes([]));
    assert TopLevel([f]) == map["a" := node];
    assert v == [node];
    TopLevelOnlyReordered([f], lt);
    assert SortNodes(v, lt) == v;
    assert FindNode(v, "a") == 0;
    BuildNestedFindsAll([f], 0);
  }

  lemma SplitSegments()
    ensures Split("a/b", '/') == ["a", "b"]
  {
    assert "a/b" == "a" + ['/'] + "b";
    SplitAround("a", "b", '/');
    SplitNoSeparator("a", '/');
    SplitNoSeparator("b", '/');
  }
}
