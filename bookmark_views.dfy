/** The read side of the bookmark controller: the filtered bookmark list and one
    bookmark with its tags. */
module BookmarkViews {
  import opened Common
  import opened Schema
  import opened Text
  import opened Sorting
  import opened Rows

  /** The query string of GET /api/bookmarks. `folder` is a non-empty `folder_id`
      read as the number it spells; the other three are the raw strings, which
      take effect when they are truthy (present and not empty). */
  datatype Filter = Filter(folder: Option<int>, favorite: Option<string>, search: Option<string>, tags: Option<string>)

  /** `tags.split(',')` */
  function TagList(f: Filter): seq<string>
    requires TruthyText(f.tags)
  {
    Split(f.tags.value, ',')
  }

  /** The conditions of the WHERE clause that look at the bookmark alone:
      `b.folder_id = ?`, `b.is_favorite = 1`, and the three LIKE tests, of which
      the one on a null description fails. */
  predicate BookmarkPasses(b: Bookmark, f: Filter)
  {
    && (f.folder.Some? ==> b.folder == f.folder)
    && (TruthyText(f.favorite) ==> b.isFavorite)
    && (TruthyText(f.search) ==>
          || Like(b.title, f.search.value)
          || (b.description.Some? && Like(b.description.value, f.search.value))
          || Like(b.url, f.search.value))
  }

  /** `t.name IN (...)` on one joined row; the row of a bookmark without tags has
      a null name and fails it. Without a tags filter every row passes. */
  predicate RowPasses(db: Db, f: Filter, t: Option<int>)
  {
    TruthyText(f.tags) ==> t.Some? && t.value in db.tags && db.tags[t.value].name in TagList(f)
  }

  /** `LEFT JOIN bookmark_tags ... LEFT JOIN tags`: one row per linked tag, or a
      single row with null tag columns when there is none. */
  function JoinRows(db: Db, b: int): (rows: seq<Option<int>>)
    ensures rows != []
  {
    var ids := TagIdsOf(db, b);
    if ids == [] then [None] else Somes(ids)
  }

  function Somes(ids: seq<int>): (rows: seq<Option<int>>)
    ensures |rows| == |ids| && forall i :: 0 <= i < |ids| ==> rows[i] == Some(ids[i])
  {
    seq(|ids|, i requires 0 <= i < |ids| => Some(ids[i]))
  }

  /** The joined rows that the tag condition keeps. */
  function Surviving(db: Db, f: Filter, rows: seq<Option<int>>): (r: seq<Option<int>>)
    ensures forall x :: x in r ==> x in rows && RowPasses(db, f, x)
  {
    if rows == [] then []
    else if RowPasses(db, f, rows[0]) then [rows[0]] + Surviving(db, f, rows[1..])
    else Surviving(db, f, rows[1..])
  }

  /** The non-null tag ids of a group, which GROUP_CONCAT collects. */
  function Collected(rows: seq<Option<int>>): (r: seq<int>)
    ensures forall t :: t in r ==> Some(t) in rows
  {
    if rows == [] then []
    else if rows[0].Some? then [rows[0].value] + Collected(rows[1..])
    else Collected(rows[1..])
  }

  // ---------------------------------------------------------------------------
  // What the query means

  /** Bookmark `b` is listed: it passes the conditions on the bookmark, and, when
      there is a tags filter, at least one of its tags is named in the list. */
  ghost predicate Matches(db: Db, f: Filter, b: int)
    ensures f == Filter(None, None, None, None) ==> (Matches(db, f, b) <==> b in db.bookmarks)
  {
    && b in db.bookmarks
    && BookmarkPasses(db.bookmarks[b], f)
    && (TruthyText(f.tags) ==> exists t :: t in TagIdsOf(db, b) && db.tags[t].name in TagList(f))
  }

  /** The tags a listed bookmark shows: all of its tags, or with a tags filter only
      those named in the list. */
  function ShownTags(db: Db, f: Filter, b: int): (r: seq<int>)
    ensures forall t :: t in r <==> t in TagIdsOf(db, b) && RowPasses(db, f, Some(t))
    ensures forall i :: 0 <= i < |r| ==> r[i] in db.tags
  {
    Keep(TagIdsOf(db, b), t => RowPasses(db, f, Some(t)))
  }

  lemma {:induction false} GroupOfTags(db: Db, f: Filter, ids: seq<int>)
    requires Increasing(ids)
    ensures Collected(Surviving(db, f, Somes(ids))) == Keep(ids, t => RowPasses(db, f, Some(t)))
  {
    if ids != [] {
      assert Somes(ids)[1..] == Somes(ids[1..]);
      assert Increasing(ids[1..]);
      GroupOfTags(db, f, ids[1..]);
    }
  }

  /** Grouping the joined rows of `b` gives a group exactly when the tag condition
      leaves a row, and the group collects exactly the shown tags. */
  lemma GroupMeaning(db: Db, f: Filter, b: int)
    ensures Surviving(db, f, JoinRows(db, b)) != [] <==>
      (TruthyText(f.tags) ==> exists t :: t in TagIdsOf(db, b) && db.tags[t].name in TagList(f))
    ensures Collected(Surviving(db, f, JoinRows(db, b))) == ShownTags(db, f, b)
  {
    var ids := TagIdsOf(db, b);
    var rows := JoinRows(db, b);
    if ids == [] {
      assert Keep(ids, t => RowPasses(db, f, Some(t))) == [];
      assert rows == [None];
      assert Surviving(db, f, [None][1..]) == [];
    } else {
      GroupOfTags(db, f, ids);
      var kept := Keep(ids, t => RowPasses(db, f, Some(t)));
      if TruthyText(f.tags) {
        if exists t :: t in ids && db.tags[t].name in TagList(f) {
          var t :| t in ids && db.tags[t].name in TagList(f);
          assert t in kept;
        }
        if Surviving(db, f, rows) != [] {
          var x := Surviving(db, f, rows)[0];
          assert x in Surviving(db, f, rows);
          assert x.value in ids;
        }
      } else {
        assert ids[0] in kept;
      }
    }
  }

  /** The bookmarks of the scan that the query groups, in the order of the scan. */
  function Listed(db: Db, f: Filter, ids: seq<int>): (r: seq<int>)
    requires Increasing(ids)
    ensures forall b :: b in r <==>
      (b in ids && b in db.bookmarks && BookmarkPasses(db.bookmarks[b], f) && Surviving(db, f, JoinRows(db, b)) != [])
    ensures Increasing(r)
  {
    Keep(ids, b => b in db.bookmarks && BookmarkPasses(db.bookmarks[b], f) && Surviving(db, f, JoinRows(db, b)) != [])
  }

  /** The group of `b` formatted as a row. */
  function GroupView(db: Db, f: Filter, b: int): (v: BookmarkView)
    requires b in db.bookmarks
    ensures v.id == b
  {
    var collected := Collected(Surviving(db, f, JoinRows(db, b)));
    GroupMeaning(db, f, b);
    View(db, b, collected)
  }

  function GroupViews(db: Db, f: Filter, ids: seq<int>): (views: seq<BookmarkView>)
    requires forall i :: 0 <= i < |ids| ==> ids[i] in db.bookmarks
    ensures |views| == |ids| && forall i :: 0 <= i < |ids| ==> views[i] == GroupView(db, f, ids[i])
  {
    seq(|ids|, i requires 0 <= i < |ids| => GroupView(db, f, ids[i]))
  }

  /** GET /api/bookmarks: every bookmark that matches the filter, once, newest
      first, each showing the tags the filter lets through. */
  function ListBookmarks(db: Db, f: Filter): (r: seq<BookmarkView>)
    ensures Sorted(r, NewerFirst)
    ensures forall v :: v in r <==>
      0 < v.id < db.nextBookmark && Matches(db, f, v.id) && v == View(db, v.id, ShownTags(db, f, v.id))
    ensures forall i, j :: 0 <= i < j < |r| ==> r[i].id != r[j].id
  {
    var ids := Listed(db, f, Scan(db.bookmarks, db.nextBookmark));
    var views := GroupViews(db, f, ids);
    forall v ensures v in views <==>
      0 < v.id < db.nextBookmark && Matches(db, f, v.id) && v == View(db, v.id, ShownTags(db, f, v.id))
    {
      GroupedRow(db, f, v);
    }
    var r := NewestFirst(views);
    DistinctIds(r, views, ids);
    r
  }

  /** The grouped rows, before sorting, are exactly the matching bookmarks with
      the tags the filter lets through. */
  lemma GroupedRow(db: Db, f: Filter, v: BookmarkView)
    ensures v in GroupViews(db, f, Listed(db, f, Scan(db.bookmarks, db.nextBookmark))) <==>
      0 < v.id < db.nextBookmark && Matches(db, f, v.id) && v == View(db, v.id, ShownTags(db, f, v.id))
  {
    var ids := Listed(db, f, Scan(db.bookmarks, db.nextBookmark));
    var views := GroupViews(db, f, ids);
    if v in views {
      var i :| 0 <= i < |views| && views[i] == v;
      assert ids[i] in ids;
      GroupMeaning(db, f, ids[i]);
    }
    if 0 < v.id < db.nextBookmark && Matches(db, f, v.id) && v == View(db, v.id, ShownTags(db, f, v.id)) {
      GroupMeaning(db, f, v.id);
      assert v.id in ids;
      var i :| 0 <= i < |ids| && ids[i] == v.id;
      assert views[i] == v;
    }
  }

  /** With no filter at all, the list holds every bookmark with all of its tags. */
  lemma ListAllBookmarks(db: Db)
    requires Integrity(db)
    ensures forall b :: b in db.bookmarks ==> FullView(db, b) in ListBookmarks(db, Filter(None, None, None, None))
  {
    forall b | b in db.bookmarks ensures FullView(db, b) in ListBookmarks(db, Filter(None, None, None, None)) {
      ListedWithoutFilter(db, b);
    }
  }

  lemma ListedWithoutFilter(db: Db, b: int)
    requires Integrity(db) && b in db.bookmarks
    ensures FullView(db, b) in ListBookmarks(db, Filter(None, None, None, None))
  {
    var f := Filter(None, None, None, None);
    assert 0 < b < db.nextBookmark;
    KeepAll(TagIdsOf(db, b), t => RowPasses(db, f, Some(t)));
    assert ShownTags(db, f, b) == TagIdsOf(db, b);
    assert Matches(db, f, b);
    assert FullView(db, b) == View(db, b, ShownTags(db, f, b));
  }

  /** GET /api/bookmarks/:id: the bookmark with all of its tags; 404 when there is
      no such bookmark. */
  function GetBookmark(db: Db, id: int): (r: Reply<BookmarkView>)
    ensures r.Ok? || r.NotFound?
    ensures r.NotFound? <==> id !in db.bookmarks
    ensures r.NotFound? ==> r.message == "Bookmark not found"
    ensures r.Ok? ==> r.value == FullView(db, id) && r.value.id == id && r.value.bookmark == db.bookmarks[id]
  {
    if id !in db.bookmarks then NotFound("Bookmark not found") else Ok(FullView(db, id))
  }
}
