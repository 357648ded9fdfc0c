/** The bookmark row as the list queries return it: the bookmark's columns, the
    names and colours of its tags collected with GROUP_CONCAT and split again on
    commas, and `is_favorite` as a boolean. */
module Rows {
  import opened Common
  import opened Schema
  import opened Text
  import opened Sorting

  datatype BookmarkView = BookmarkView(id: int, bookmark: Bookmark, tags: seq<string>, tagColors: seq<string>)

  /** The tags linked to bookmark `b`, in tag id order. */
  function TagIdsOf(db: Db, b: int): (r: seq<int>)
    ensures forall t :: t in r <==> t in db.tags && 0 < t < db.nextTag && Link(b, t) in db.links
    ensures Increasing(r)
  {
    Keep(Scan(db.tags, db.nextTag), t => Link(b, t) in db.links)
  }

  /** Under the foreign keys, the scan bound drops nothing: these are all the tags
      of `b`. */
  lemma TagIdsOfAll(db: Db, b: int)
    requires Integrity(db)
    ensures forall t :: t in TagIdsOf(db, b) <==> Link(b, t) in db.links
  {
  }

  function Names(tags: map<int, Tag>, ids: seq<int>): (r: seq<string>)
    requires forall i :: 0 <= i < |ids| ==> ids[i] in tags
    ensures |r| == |ids| && forall i :: 0 <= i < |ids| ==> r[i] == tags[ids[i]].name
  {
    seq(|ids|, i requires 0 <= i < |ids| => tags[ids[i]].name)
  }

  function Colors(tags: map<int, Tag>, ids: seq<int>): (r: seq<string>)
    requires forall i :: 0 <= i < |ids| ==> ids[i] in tags
    ensures |r| == |ids| && forall i :: 0 <= i < |ids| ==> r[i] == tags[ids[i]].color
  {
    seq(|ids|, i requires 0 <= i < |ids| => tags[ids[i]].color)
  }

  /** Bookmark `b` together with the tags `ids` that its group collected. */
  function View(db: Db, b: int, ids: seq<int>): (v: BookmarkView)
    requires b in db.bookmarks
    requires forall i :: 0 <= i < |ids| ==> ids[i] in db.tags
    ensures v.id == b && v.bookmark == db.bookmarks[b]
    ensures forall i :: 0 <= i < |v.tags| ==> v.tags[i] != "" && ',' !in v.tags[i]
    ensures ids == [] ==> v.tags == [] && v.tagColors == []
  {
    BookmarkView(b, db.bookmarks[b], FormatList(Names(db.tags, ids)), FormatList(Colors(db.tags, ids)))
  }

  /** When no collected tag name is empty or holds a comma, the names in the view
      are exactly the names of the collected tags, in order. */
  lemma ViewCleanNames(db: Db, b: int, ids: seq<int>)
    requires b in db.bookmarks
    requires forall i :: 0 <= i < |ids| ==> ids[i] in db.tags
    requires forall i :: 0 <= i < |ids| ==> Clean(db.tags[ids[i]].name)
    ensures View(db, b, ids).tags == Names(db.tags, ids)
  {
    FormatListClean(Names(db.tags, ids));
  }

  /** The same for the colours, which `createTag` and `updateTag` store as sent. */
  lemma ViewCleanColors(db: Db, b: int, ids: seq<int>)
    requires b in db.bookmarks
    requires forall i :: 0 <= i < |ids| ==> ids[i] in db.tags
    requires forall i :: 0 <= i < |ids| ==> Clean(db.tags[ids[i]].color)
    ensures View(db, b, ids).tagColors == Colors(db.tags, ids)
  {
    FormatListClean(Colors(db.tags, ids));
  }

  /** Bookmark `b` with all of its tags. */
  function FullView(db: Db, b: int): (v: BookmarkView)
    requires b in db.bookmarks
    ensures v.id == b && v.bookmark == db.bookmarks[b]
  {
    View(db, b, TagIdsOf(db, b))
  }

  /** The full views of the bookmarks `ids`, in the same order. */
  function FullViews(db: Db, ids: seq<int>): (views: seq<BookmarkView>)
    requires forall i :: 0 <= i < |ids| ==> ids[i] in db.bookmarks
    ensures |views| == |ids| && forall i :: 0 <= i < |ids| ==> views[i] == FullView(db, ids[i])
  {
    seq(|ids|, i requires 0 <= i < |ids| => FullView(db, ids[i]))
  }

  /** The full views of the scanned bookmarks that pass `p` are exactly the full
      views of the bookmarks below the counter that pass it. */
  lemma FullViewsOfKept(db: Db, p: int -> bool, v: BookmarkView)
    requires forall b :: p(b) ==> b in db.bookmarks
    ensures v in FullViews(db, Keep(Scan(db.bookmarks, db.nextBookmark), p)) <==>
      0 < v.id < db.nextBookmark && p(v.id) && v == FullView(db, v.id)
  {
    var ids := Keep(Scan(db.bookmarks, db.nextBookmark), p);
    var views := FullViews(db, ids);
    if v in views {
      var i :| 0 <= i < |views| && views[i] == v;
      assert ids[i] in ids;
    }
    if 0 < v.id < db.nextBookmark && p(v.id) && v == FullView(db, v.id) {
      assert v.id in ids;
      var i :| 0 <= i < |ids| && ids[i] == v.id;
      assert views[i] == v;
    }
  }

  /** When the bookmark's own tag names are clean, a full view lists exactly the
      names of the bookmark's tags, each once. */
  lemma FullViewTags(db: Db, b: int)
    requires Integrity(db) && b in db.bookmarks
    requires forall t :: Link(b, t) in db.links ==> Clean(db.tags[t].name)
    ensures forall n :: n in FullView(db, b).tags <==> exists t :: Link(b, t) in db.links && db.tags[t].name == n
    ensures Distinct(FullView(db, b).tags)
  {
    var ids := TagIdsOf(db, b);
    TagIdsOfAll(db, b);
    ViewCleanNames(db, b, ids);
    var names := Names(db.tags, ids);
    forall n ensures n in names <==> exists t :: Link(b, t) in db.links && db.tags[t].name == n {
      if n in names {
        var t := NameFromNames(db.tags, ids, n);
        assert Link(b, t) in db.links;
      }
      if exists t :: Link(b, t) in db.links && db.tags[t].name == n {
        var t :| Link(b, t) in db.links && db.tags[t].name == n;
        NameInNames(db.tags, ids, t);
      }
    }
    IncreasingDistinct(ids);
    NamesDistinct(db.tags, ids);
  }

  lemma NameInNames(tags: map<int, Tag>, ids: seq<int>, t: int)
    requires forall i :: 0 <= i < |ids| ==> ids[i] in tags
    requires t in ids
    ensures tags[t].name in Names(tags, ids)
  {
    var i :| 0 <= i < |ids| && ids[i] == t;
    assert Names(tags, ids)[i] == tags[t].name;
  }

  lemma NameFromNames(tags: map<int, Tag>, ids: seq<int>, n: string) returns (t: int)
    requires forall i :: 0 <= i < |ids| ==> ids[i] in tags
    requires n in Names(tags, ids)
    ensures t in ids && t in tags && tags[t].name == n
  {
    var names := Names(tags, ids);
    var i :| 0 <= i < |names| && names[i] == n;
    t := ids[i];
  }

  /** Distinct tags with unique names have distinct names. */
  lemma NamesDistinct(tags: map<int, Tag>, ids: seq<int>)
    requires forall i :: 0 <= i < |ids| ==> ids[i] in tags
    requires TagNamesUnique(tags) && Distinct(ids)
    ensures Distinct(Names(tags, ids))
  {
  }

  /** ORDER BY b.created_at DESC */
  predicate NewerFirst(x: BookmarkView, y: BookmarkView)
  {
    x.bookmark.createdAt >= y.bookmark.createdAt
  }

  lemma NewerFirstTotal()
    ensures TotalPreorder(NewerFirst)
  {
  }

  /** The rows put newest first: the same rows, each as often as before. */
  function NewestFirst(views: seq<BookmarkView>): (r: seq<BookmarkView>)
    ensures Sorted(r, NewerFirst)
    ensures multiset(r) == multiset(views)
    ensures |r| == |views| && forall v :: v in r <==> v in views
  {
    NewerFirstTotal();
    var r := SortBy(views, NewerFirst);
    SameElements(r, views);
    r
  }

  /** Sorting keeps ids apart. */
  lemma DistinctIds(r: seq<BookmarkView>, views: seq<BookmarkView>, ids: seq<int>)
    requires multiset(r) == multiset(views)
    requires Increasing(ids) && |views| == |ids| && forall i :: 0 <= i < |ids| ==> views[i].id == ids[i]
    ensures forall i, j :: 0 <= i < j < |r| ==> r[i].id != r[j].id
  {
    assert Distinct(views);
    PermutationDistinct(r, views);
    forall i, j | 0 <= i < j < |r| ensures r[i].id != r[j].id {
      assert r[i] in multiset(views) && r[j] in multiset(views);
      var a :| 0 <= a < |views| && views[a] == r[i];
      var c :| 0 <= c < |views| && views[c] == r[j];
    }
  }
}
