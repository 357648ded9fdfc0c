/** The read side of the folder controller: the flat list of folders with their
    counts, the nested folder tree, and one folder with its bookmarks. */
module FolderViews {
  import opened Common
  import opened Schema
  import opened Hierarchy
  import opened Text
  import opened Sorting
  import opened Rows

  /** `LEFT JOIN bookmarks b ON f.id = b.folder_id`: the bookmarks filed in `f`. */
  function BookmarksIn(db: Db, f: int): (r: set<int>)
    ensures forall b :: b in r <==> b in db.bookmarks && db.bookmarks[b].folder == Some(f)
  {
    set b | b in db.bookmarks && db.bookmarks[b].folder == Some(f)
  }

  /** `SELECT COUNT(*) FROM folders WHERE parent_id = f.id`: the direct subfolders. */
  function SubfoldersOf(folders: map<int, Folder>, f: int): (r: set<int>)
    ensures forall g :: g in r <==> g in folders && folders[g].parent == Some(f)
  {
    set g | g in folders && folders[g].parent == Some(f)
  }

  /** A row of GET /api/folders. */
  datatype FolderRow = FolderRow(id: int, folder: Folder, bookmarkCount: nat, subfolderCount: nat)

  function RowOf(db: Db, f: int): (row: FolderRow)
    requires f in db.folders
    ensures row.id == f && row.folder == db.folders[f]
    ensures row.bookmarkCount == |BookmarksIn(db, f)| && row.subfolderCount == |SubfoldersOf(db.folders, f)|
  {
    FolderRow(f, db.folders[f], |BookmarksIn(db, f)|, |SubfoldersOf(db.folders, f)|)
  }

  /** ORDER BY f.name */
  predicate ByName(x: FolderRow, y: FolderRow)
  {
    LexLe(x.folder.name, y.folder.name)
  }

  lemma ByNameTotal()
    ensures TotalPreorder(ByName)
  {
    forall x: FolderRow, y: FolderRow ensures ByName(x, y) || ByName(y, x) {
      LexTotal(x.folder.name, y.folder.name);
    }
    forall x: FolderRow, y: FolderRow, z: FolderRow | ByName(x, y) && ByName(y, z) ensures ByName(x, z) {
      LexTrans(x.folder.name, y.folder.name, z.folder.name);
    }
  }

  /** The rows of the folders `ids`, in the same order. */
  function FolderRows(db: Db, ids: seq<int>): (rows: seq<FolderRow>)
    requires Increasing(ids) && forall i :: 0 <= i < |ids| ==> ids[i] in db.folders
    ensures |rows| == |ids| && forall i :: 0 <= i < |ids| ==> rows[i] == RowOf(db, ids[i])
    ensures Distinct(rows)
  {
    var rows := seq(|ids|, i requires 0 <= i < |ids| => RowOf(db, ids[i]));
    assert forall i, j :: 0 <= i < j < |rows| ==> rows[i].id < rows[j].id;
    rows
  }

  /** GET /api/folders: one row per folder, with the number of bookmarks filed in
      it and the number of its direct subfolders, sorted by name. */
  function ListFolders(db: Db): (r: seq<FolderRow>)
    ensures Sorted(r, ByName)
    ensures forall row :: row in r <==>
      row.id in db.folders && 0 < row.id < db.nextFolder && row == RowOf(db, row.id)
    ensures Distinct(r)
    ensures |r| == |Scan(db.folders, db.nextFolder)|
  {
    var ids := Scan(db.folders, db.nextFolder);
    var rows := FolderRows(db, ids);
    forall row ensures row in rows <==> row.id in db.folders && 0 < row.id < db.nextFolder && row == RowOf(db, row.id) {
      ScannedRow(db, row);
    }
    ByNameTotal();
    var r := SortBy(rows, ByName);
    SameElements(r, rows);
    PermutationDistinct(r, rows);
    r
  }

  /** The scanned rows are exactly the rows of the folders below the counter. */
  lemma ScannedRow(db: Db, row: FolderRow)
    ensures row in FolderRows(db, Scan(db.folders, db.nextFolder)) <==>
      row.id in db.folders && 0 < row.id < db.nextFolder && row == RowOf(db, row.id)
  {
    var ids := Scan(db.folders, db.nextFolder);
    var rows := FolderRows(db, ids);
    if row in rows {
      var i :| 0 <= i < |rows| && rows[i] == row;
      assert ids[i] in ids;
    }
    if row.id in db.folders && 0 < row.id < db.nextFolder && row == RowOf(db, row.id) {
      var i :| 0 <= i < |ids| && ids[i] == row.id;
      assert rows[i] == row;
    }
  }

  /** Under the integrity rules every folder is listed, each once. */
  lemma ListFoldersAll(db: Db)
    requires Integrity(db)
    ensures forall f :: f in db.folders ==> RowOf(db, f) in ListFolders(db)
    ensures |ListFolders(db)| == |db.folders|
  {
    ScanSize(db.folders, db.nextFolder);
  }

  // ---------------------------------------------------------------------------
  // GET /api/folders/tree

  /** A folder of the tree, with the number of its bookmarks and its subfolders. */
  datatype TreeNode = TreeNode(id: int, folder: Folder, bookmarkCount: nat, children: seq<TreeNode>)

  function NameOf(folders: map<int, Folder>, f: int): string
  {
    if f in folders then folders[f].name else ""
  }

  predicate FolderByName(folders: map<int, Folder>, a: int, b: int)
  {
    LexLe(NameOf(folders, a), NameOf(folders, b))
  }

  lemma FolderByNameTotal(folders: map<int, Folder>)
    ensures TotalPreorder((a, b) => FolderByName(folders, a, b))
  {
    forall a: int, b: int ensures FolderByName(folders, a, b) || FolderByName(folders, b, a) {
      LexTotal(NameOf(folders, a), NameOf(folders, b));
    }
    forall a: int, b: int, c: int | FolderByName(folders, a, b) && FolderByName(folders, b, c)
      ensures FolderByName(folders, a, c)
    {
      LexTrans(NameOf(folders, a), NameOf(folders, b), NameOf(folders, c));
    }
  }

  /** `WHERE f.parent_id IS ? ORDER BY f.name`: the folders directly under `parent`
      (the top level when `parent` is null), sorted by name. */
  function ChildIds(db: Db, parent: Option<int>): (r: seq<int>)
    ensures forall g :: g in r <==> g in db.folders && 0 < g < db.nextFolder && db.folders[g].parent == parent
    ensures Distinct(r)
    ensures Sorted(r, (a, b) => FolderByName(db.folders, a, b))
  {
    var ids := Keep(Scan(db.folders, db.nextFolder), g => g in db.folders && db.folders[g].parent == parent);
    FolderByNameTotal(db.folders);
    var r := SortBy(ids, (a, b) => FolderByName(db.folders, a, b));
    SameElements(r, ids);
    IncreasingDistinct(ids);
    PermutationDistinct(r, ids);
    r
  }

  /** Adding a row of the table to the set of folders on the current path leaves
      fewer rows off it. */
  lemma FewerOffPath(keys: set<int>, path: set<int>, g: int)
    requires g in keys && g !in path
    ensures |keys - (path + {g})| < |keys - path|
  {
    assert keys - path == (keys - (path + {g})) + {g};
  }

  /** `buildTree(folder.id)` for the folder `g`. `path` holds the folders from the
      top of the tree down to `g`; a subfolder already on it is skipped, which
      never happens (`ForestWellFormed`) but makes the recursion visibly finite. */
  function Node(db: Db, g: int, path: set<int>): (n: TreeNode)
    requires g in db.folders && g in path
    ensures n.id == g && n.folder == db.folders[g]
    decreases |db.folders.Keys - path|, 1
  {
    TreeNode(g, db.folders[g], |BookmarksIn(db, g)|, Forest(db, ChildIds(db, Some(g)), path))
  }

  /** `folders.map(folder => ({ ...folder, children: buildTree(folder.id) }))` */
  function Forest(db: Db, kids: seq<int>, path: set<int>): (r: seq<TreeNode>)
    requires forall i :: 0 <= i < |kids| ==> kids[i] in db.folders
    decreases |db.folders.Keys - path|, 0, |kids|
  {
    if kids == [] then []
    else if kids[0] in path || !(path <= db.folders.Keys) then Forest(db, kids[1..], path)
    else
      FewerOffPath(db.folders.Keys, path, kids[0]);
      [Node(db, kids[0], path + {kids[0]})] + Forest(db, kids[1..], path)
  }

  /** Each node of a forest is one of the folders it was built from, showing that
      folder's row. */
  lemma {:induction false} ForestRoots(db: Db, kids: seq<int>, path: set<int>)
    requires forall i :: 0 <= i < |kids| ==> kids[i] in db.folders
    ensures forall i :: 0 <= i < |Forest(db, kids, path)| ==>
      Forest(db, kids, path)[i].id in kids && Forest(db, kids, path)[i].folder == db.folders[Forest(db, kids, path)[i].id]
    decreases |kids|
  {
    if kids != [] {
      var rest := Forest(db, kids[1..], path);
      ForestRoots(db, kids[1..], path);
      var r := Forest(db, kids, path);
      assert forall i :: 0 <= i < |rest| ==> rest[i].id in kids[1..];
      if kids[0] !in path && path <= db.folders.Keys {
        assert r == [Node(db, kids[0], path + {kids[0]})] + rest;
      }
    }
  }

  /** GET /api/folders/tree: `buildTree(null)`. Its roots are top-level folders. */
  function Tree(db: Db): (r: seq<TreeNode>)
    ensures forall i :: 0 <= i < |r| ==> r[i].id in db.folders && r[i].folder.parent.None?
  {
    ForestRoots(db, ChildIds(db, None), {});
    Forest(db, ChildIds(db, None), {})
  }

  function Ids(ns: seq<TreeNode>): (r: seq<int>)
    ensures |r| == |ns| && forall i :: 0 <= i < |ns| ==> r[i] == ns[i].id
  {
    seq(|ns|, i requires 0 <= i < |ns| => ns[i].id)
  }

  /** The folders anywhere in a forest. */
  function AllIds(ns: seq<TreeNode>): set<int>
    decreases ns
  {
    if ns == [] then {}
    else {ns[0].id} + AllIds(ns[0].children) + AllIds(ns[1..])
  }

  /** Every node of the forest shows its row and bookmark count, and has as
      children exactly the folders directly under it, sorted by name. */
  ghost predicate WellFormed(db: Db, ns: seq<TreeNode>)
    decreases ns
  {
    ns != [] ==>
      && ns[0].id in db.folders
      && ns[0].folder == db.folders[ns[0].id]
      && ns[0].bookmarkCount == |BookmarksIn(db, ns[0].id)|
      && Ids(ns[0].children) == ChildIds(db, Some(ns[0].id))
      && WellFormed(db, ns[0].children)
      && WellFormed(db, ns[1..])
  }

  /** What the recursion keeps: `path` is a set of rows that all lie on the chain
      above `g`, and that chain reaches the top of the tree. */
  ghost predicate OnPath(folders: map<int, Folder>, path: set<int>, g: int)
  {
    && g in folders && g in path && path <= folders.Keys
    && (forall x :: x in path ==> AncestorOrSelf(folders, x, g))
    && ChainEnds(folders, Some(g))
  }

  /** A folder directly under `g` is never on the path to `g`, and the path extended
      by it is again a path. */
  lemma ChildOffPath(folders: map<int, Folder>, path: set<int>, g: int, c: int)
    requires OnPath(folders, path, g)
    requires c in folders && folders[c].parent == Some(g)
    ensures c !in path
    ensures OnPath(folders, path + {c}, c)
  {
    assert forall x :: x in path ==> AncestorOrSelf(folders, x, g);
    assert ChainEnds(folders, Some(g));
    var top: nat :| Climb(folders, Some(g), top) == None;
    if c in path {
      var k: nat :| Climb(folders, Some(g), k) == Some(c);
      ClimbAdd(folders, Some(g), k, 1);
      assert Climb(folders, folders[g].parent, k) == Some(g);
      if folders[g].parent.None? {
        ClimbNone(folders, k);
      } else {
        CycleGoesOn(folders, g, k, top);
      }
    }
    forall x | x in path + {c} ensures AncestorOrSelf(folders, x, c) {
      if x == c {
        assert Climb(folders, Some(c), 0) == Some(x);
      } else {
        var k: nat :| Climb(folders, Some(g), k) == Some(x);
        assert Climb(folders, Some(c), k + 1) == Some(x);
      }
    }
    assert Climb(folders, Some(c), top + 1) == None;
  }

  /** The rows that `Node` builds: a well-formed tree of folders whose chains all
      reach the top. */
  lemma {:induction false} NodeWellFormed(db: Db, g: int, path: set<int>)
    requires OnPath(db.folders, path, g)
    ensures WellFormed(db, [Node(db, g, path)])
    ensures forall x :: x in AllIds([Node(db, g, path)]) ==> x in db.folders && ChainEnds(db.folders, Some(x))
    decreases |db.folders.Keys - path|, 1
  {
    var kids := ChildIds(db, Some(g));
    forall i | 0 <= i < |kids| ensures kids[i] !in path && OnPath(db.folders, path + {kids[i]}, kids[i]) {
      assert kids[i] in kids;
      ChildOffPath(db.folders, path, g, kids[i]);
    }
    ForestWellFormed(db, kids, path);
    var n := Node(db, g, path);
    ConsIds(db, n, []);
    assert [n] + [] == [n];
  }

  lemma {:induction false} ForestWellFormed(db: Db, kids: seq<int>, path: set<int>)
    requires path <= db.folders.Keys
    requires forall i :: 0 <= i < |kids| ==> kids[i] in db.folders
    requires forall i :: 0 <= i < |kids| ==> kids[i] !in path && OnPath(db.folders, path + {kids[i]}, kids[i])
    ensures Ids(Forest(db, kids, path)) == kids
    ensures WellFormed(db, Forest(db, kids, path))
    ensures forall x :: x in AllIds(Forest(db, kids, path)) ==> x in db.folders && ChainEnds(db.folders, Some(x))
    decreases |db.folders.Keys - path|, 0, |kids|
  {
    if kids != [] {
      var c := kids[0];
      assert c !in path && OnPath(db.folders, path + {c}, c);
      forall i | 0 <= i < |kids[1..]|
        ensures kids[1..][i] in db.folders && kids[1..][i] !in path && OnPath(db.folders, path + {kids[1..][i]}, kids[1..][i])
      {
        assert kids[1..][i] == kids[i + 1];
      }
      FewerOffPath(db.folders.Keys, path, c);
      NodeWellFormed(db, c, path + {c});
      ForestWellFormed(db, kids[1..], path);
      var n := Node(db, c, path + {c});
      var rest := Forest(db, kids[1..], path);
      assert Forest(db, kids, path) == [n] + rest;
      ConsIds(db, n, rest);
      assert kids == [c] + kids[1..];
    }
  }

  lemma ConsIds(db: Db, n: TreeNode, rest: seq<TreeNode>)
    ensures Ids([n] + rest) == [n.id] + Ids(rest)
    ensures AllIds([n] + rest) == {n.id} + AllIds(n.children) + AllIds(rest)
    ensures AllIds([n]) == {n.id} + AllIds(n.children)
    ensures WellFormed(db, [n] + rest) <==> WellFormed(db, [n]) && WellFormed(db, rest)
  {
    assert ([n] + rest)[1..] == rest;
    assert [n][1..] == [];
  }

  /** The whole tree is well formed and shows only folders whose chains reach the
      top: a folder on a cycle of parent references, or under one, is missing. */
  lemma TreeWellFormed(db: Db)
    ensures Ids(Tree(db)) == ChildIds(db, None)
    ensures WellFormed(db, Tree(db))
    ensures forall x :: x in AllIds(Tree(db)) ==> x in db.folders && ChainEnds(db.folders, Some(x))
  {
    var roots := ChildIds(db, None);
    forall i | 0 <= i < |roots| ensures roots[i] !in {} && OnPath(db.folders, {} + {roots[i]}, roots[i]) {
      var c := roots[i];
      assert c in roots;
      assert Climb(db.folders, Some(c), 1) == None;
      assert Climb(db.folders, Some(c), 0) == Some(c);
      assert forall x :: x in {} + {c} ==> AncestorOrSelf(db.folders, x, c);
    }
    ForestWellFormed(db, roots, {});
  }

  /** In a well-formed forest, the folders directly under a shown folder are shown. */
  lemma {:induction false} ChildrenShown(db: Db, ns: seq<TreeNode>, p: int, c: int)
    requires WellFormed(db, ns) && p in AllIds(ns)
    requires c in db.folders && 0 < c < db.nextFolder && db.folders[c].parent == Some(p)
    ensures c in AllIds(ns)
    decreases ns
  {
    var n := ns[0];
    if p == n.id {
      assert c in ChildIds(db, Some(p));
      var i :| 0 <= i < |n.children| && Ids(n.children)[i] == c;
      IdsShown(n.children, i);
    } else if p in AllIds(n.children) {
      ChildrenShown(db, n.children, p, c);
    } else {
      ChildrenShown(db, ns[1..], p, c);
    }
  }

  lemma {:induction false} IdsShown(ns: seq<TreeNode>, i: int)
    requires 0 <= i < |ns|
    ensures ns[i].id in AllIds(ns)
    decreases i
  {
    if i > 0 {
      IdsShown(ns[1..], i - 1);
    }
  }

  /** A folder whose chain reaches the top after `k` steps is shown in the tree. */
  lemma ShownWhenChainEnds(db: Db, g: int, k: nat)
    requires Integrity(db) && g in db.folders
    requires Climb(db.folders, Some(g), k) == None
    ensures g in AllIds(Tree(db))
  {
    TreeWellFormed(db);
    ForestClosed(db, Tree(db));
    ShownInClosed(db, AllIds(Tree(db)), g, k);
  }

  /** `s` holds the top-level folders and, with any folder, the folders directly
      under it. */
  ghost predicate Closed(db: Db, s: set<int>)
  {
    && (forall r :: r in db.folders && 0 < r < db.nextFolder && db.folders[r].parent.None? ==> r in s)
    && (forall p, c :: p in s && c in db.folders && 0 < c < db.nextFolder && db.folders[c].parent == Some(p) ==> c in s)
  }

  /** A well-formed forest that starts at the top-level folders shows a closed set. */
  lemma ForestClosed(db: Db, ns: seq<TreeNode>)
    requires WellFormed(db, ns) && Ids(ns) == ChildIds(db, None)
    ensures Closed(db, AllIds(ns))
  {
    forall r | r in db.folders && 0 < r < db.nextFolder && db.folders[r].parent.None? ensures r in AllIds(ns) {
      assert r in ChildIds(db, None);
      var i :| 0 <= i < |ns| && Ids(ns)[i] == r;
      IdsShown(ns, i);
    }
    forall p, c | p in AllIds(ns) && c in db.folders && 0 < c < db.nextFolder && db.folders[c].parent == Some(p)
      ensures c in AllIds(ns)
    {
      ChildrenShown(db, ns, p, c);
    }
  }

  /** A closed set holds every folder whose chain reaches the top. */
  lemma {:induction false} ShownInClosed(db: Db, s: set<int>, g: int, k: nat)
    requires IdsBelow(db.folders, db.nextFolder) && ParentsExist(db.folders) && g in db.folders
    requires Closed(db, s)
    requires Climb(db.folders, Some(g), k) == None
    ensures g in s
    decreases k
  {
    var parent := db.folders[g].parent;
    assert 0 < g < db.nextFolder;
    if parent.Some? {
      assert k > 0 && parent.value in db.folders;
      assert Climb(db.folders, Some(parent.value), k - 1) == None;
      ShownInClosed(db, s, parent.value, k - 1);
    }
  }

  /** With no cycles of parent references, the tree shows every folder. */
  lemma TreeShowsAll(db: Db)
    requires Integrity(db) && Acyclic(db.folders)
    ensures forall g :: g in AllIds(Tree(db)) <==> g in db.folders
  {
    TreeWellFormed(db);
    forall g | g in db.folders ensures g in AllIds(Tree(db)) {
      assert ChainEnds(db.folders, Some(g));
      var k: nat :| Climb(db.folders, Some(g), k) == None;
      ShownWhenChainEnds(db, g, k);
    }
  }

  // ---------------------------------------------------------------------------
  // GET /api/folders/:id

  datatype FolderDetail = FolderDetail(id: int, folder: Folder, bookmarkCount: nat, bookmarks: seq<BookmarkView>)

  /** GET /api/folders/:id: the folder with its bookmark count and its bookmarks,
      each with all of its tags, newest first; 404 when there is no such folder. */
  function GetFolder(db: Db, id: int): (r: Reply<FolderDetail>)
    ensures r.Ok? || r.NotFound?
    ensures r.NotFound? <==> id !in db.folders
    ensures r.NotFound? ==> r.message == "Folder not found"
    ensures r.Ok? ==> r.value.id == id && r.value.folder == db.folders[id]
    ensures r.Ok? ==> r.value.bookmarkCount == |BookmarksIn(db, id)|
    ensures r.Ok? ==> Sorted(r.value.bookmarks, NewerFirst)
    ensures r.Ok? ==> forall v :: v in r.value.bookmarks <==>
      v.id in BookmarksIn(db, id) && 0 < v.id < db.nextBookmark && v == FullView(db, v.id)
    ensures r.Ok? ==> forall i, j :: 0 <= i < j < |r.value.bookmarks| ==> r.value.bookmarks[i].id != r.value.bookmarks[j].id
  {
    if id !in db.folders then NotFound("Folder not found")
    else
      var p := b => b in db.bookmarks && db.bookmarks[b].folder == Some(id);
      var ids := Keep(Scan(db.bookmarks, db.nextBookmark), p);
      var views := FullViews(db, ids);
      DistinctIds(NewestFirst(views), views, ids);
      forall v ensures v in views <==> v.id in BookmarksIn(db, id) && 0 < v.id < db.nextBookmark && v == FullView(db, v.id) {
        FullViewsOfKept(db, p, v);
      }
      Ok(FolderDetail(id, db.folders[id], |BookmarksIn(db, id)|, NewestFirst(views)))
  }
}
