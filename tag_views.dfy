/** The read side of the tag controller: all tags with their use counts, one tag
    with its bookmarks, and the most used tags. */
module TagViews {
  import opened Common
  import opened Schema
  import opened Text
  import opened Sorting
  import opened Rows

  /** `COUNT(bt.bookmark_id)` over the links of tag `t`: the bookmarks it is on. */
  function TaggedWith(db: Db, t: int): (r: set<int>)
    ensures forall b :: b in r <==> Link(b, t) in db.links
  {
    set l | l in db.links && l.tag == t :: l.bookmark
  }

  /** A row of GET /api/tags and GET /api/tags/popular. */
  datatype TagRow = TagRow(id: int, tag: Tag, bookmarkCount: nat)

  function TagRowOf(db: Db, t: int): (row: TagRow)
    requires t in db.tags
    ensures row.id == t && row.tag == db.tags[t] && row.bookmarkCount == |TaggedWith(db, t)|
  {
    TagRow(t, db.tags[t], |TaggedWith(db, t)|)
  }

  function TagRows(db: Db, ids: seq<int>): (rows: seq<TagRow>)
    requires Increasing(ids) && forall i :: 0 <= i < |ids| ==> ids[i] in db.tags
    ensures |rows| == |ids| && forall i :: 0 <= i < |ids| ==> rows[i] == TagRowOf(db, ids[i])
    ensures Distinct(rows)
  {
    var rows := seq(|ids|, i requires 0 <= i < |ids| => TagRowOf(db, ids[i]));
    assert forall i, j :: 0 <= i < j < |rows| ==> rows[i].id < rows[j].id;
    rows
  }

  /** ORDER BY t.name */
  predicate TagByName(x: TagRow, y: TagRow)
  {
    LexLe(x.tag.name, y.tag.name)
  }

  lemma TagByNameTotal()
    ensures TotalPreorder(TagByName)
  {
    forall x: TagRow, y: TagRow ensures TagByName(x, y) || TagByName(y, x) {
      LexTotal(x.tag.name, y.tag.name);
    }
    forall x: TagRow, y: TagRow, z: TagRow | TagByName(x, y) && TagByName(y, z) ensures TagByName(x, z) {
      LexTrans(x.tag.name, y.tag.name, z.tag.name);
    }
  }

  /** GET /api/tags: one row per tag with the number of bookmarks it is on, sorted
      by name. */
  function ListTags(db: Db): (r: seq<TagRow>)
    ensures Sorted(r, TagByName)
    ensures forall row :: row in r <==> row.id in db.tags && 0 < row.id < db.nextTag && row == TagRowOf(db, row.id)
    ensures Distinct(r)
    ensures |r| == |Scan(db.tags, db.nextTag)|
  {
    var ids := Scan(db.tags, db.nextTag);
    var rows := TagRows(db, ids);
    forall row ensures row in rows <==> row.id in db.tags && 0 < row.id < db.nextTag && row == TagRowOf(db, row.id) {
      if row in rows {
        var i :| 0 <= i < |rows| && rows[i] == row;
        assert ids[i] in ids;
      }
      if row.id in db.tags && 0 < row.id < db.nextTag && row == TagRowOf(db, row.id) {
        var i :| 0 <= i < |ids| && ids[i] == row.id;
        assert rows[i] == row;
      }
    }
    TagByNameTotal();
    var r := SortBy(rows, TagByName);
    SameElements(r, rows);
    PermutationDistinct(r, rows);
    r
  }

  /** Under the integrity rules every tag is listed, each once. */
  lemma ListTagsAll(db: Db)
    requires Integrity(db)
    ensures forall t :: t in db.tags ==> TagRowOf(db, t) in ListTags(db)
    ensures |ListTags(db)| == |db.tags|
  {
    ScanSize(db.tags, db.nextTag);
  }

  /** Under the foreign keys, the count of a tag is the number of bookmarks that
      carry it, and no tag is counted on more bookmarks than exist. */
  lemma TagCountBound(db: Db, t: int)
    requires Integrity(db)
    ensures TaggedWith(db, t) <= db.bookmarks.Keys
    ensures |TaggedWith(db, t)| <= |db.bookmarks|
  {
    SubsetSize(TaggedWith(db, t), db.bookmarks.Keys);
  }

  /** A subset is no larger than the set. */
  lemma SubsetSize(a: set<int>, b: set<int>)
    requires a <= b
    ensures |a| <= |b|
  {
    assert b == a + (b - a);
    assert a * (b - a) == {};
  }

  // ---------------------------------------------------------------------------
  // GET /api/tags/:id

  datatype TagDetail = TagDetail(id: int, tag: Tag, bookmarkCount: nat, bookmarks: seq<BookmarkView>)

  /** GET /api/tags/:id: the tag with its count and the bookmarks that carry it,
      each with all of its tags (not only this one), newest first; 404 when there
      is no such tag. */
  function GetTag(db: Db, id: int): (r: Reply<TagDetail>)
    ensures r.Ok? || r.NotFound?
    ensures r.NotFound? <==> id !in db.tags
    ensures r.NotFound? ==> r.message == "Tag not found"
    ensures r.Ok? ==> r.value.id == id && r.value.tag == db.tags[id]
    ensures r.Ok? ==> r.value.bookmarkCount == |TaggedWith(db, id)|
    ensures r.Ok? ==> Sorted(r.value.bookmarks, NewerFirst)
    ensures r.Ok? ==> forall v :: v in r.value.bookmarks <==>
      v.id in db.bookmarks && 0 < v.id < db.nextBookmark && Link(v.id, id) in db.links && v == FullView(db, v.id)
    ensures r.Ok? ==> forall i, j :: 0 <= i < j < |r.value.bookmarks| ==> r.value.bookmarks[i].id != r.value.bookmarks[j].id
  {
    if id !in db.tags then NotFound("Tag not found")
    else
      var p := b => b in db.bookmarks && Link(b, id) in db.links;
      var ids := Keep(Scan(db.bookmarks, db.nextBookmark), p);
      var views := FullViews(db, ids);
      DistinctIds(NewestFirst(views), views, ids);
      forall v ensures v in views <==>
        v.id in db.bookmarks && 0 < v.id < db.nextBookmark && Link(v.id, id) in db.links && v == FullView(db, v.id)
      {
        FullViewsOfKept(db, p, v);
      }
      Ok(TagDetail(id, db.tags[id], |TaggedWith(db, id)|, NewestFirst(views)))
  }

  // ---------------------------------------------------------------------------
  // GET /api/tags/popular

  /** `parseInt(req.query.limit) || 10`: a missing, unreadable or zero limit reads
      as 10. */
  function ParseLimit(q: Option<string>): (limit: int)
    ensures limit != 0
  {
    if q.None? then 10
    else
      var n := ParseInt(q.value);
      if n.Some? && n.value != 0 then n.value else 10
  }

  /** A missing or zero limit reads as 10. */
  lemma ParseLimitDefault()
    ensures ParseLimit(None) == 10
    ensures ParseLimit(Some("0")) == 10
  {
    ParseIntDecimal(0);
    assert Decimal(0) == "0";
  }

  /** The numeral of a positive number reads as that number. */
  lemma ParseLimitNumeral(n: nat)
    requires n > 0
    ensures ParseLimit(Some(Decimal(n))) == n
  {
    ParseIntDecimal(n);
  }

  /** A minus sign before the numeral gives the negative number, which the query
      reads as no limit. */
  lemma ParseLimitNegative(n: nat)
    requires n > 0
    ensures ParseLimit(Some("-" + Decimal(n))) == -(n as int)
  {
    ParseIntDecimal(n);
  }

  /** ORDER BY bookmark_count DESC */
  predicate MoreUsed(x: TagRow, y: TagRow)
  {
    x.bookmarkCount >= y.bookmarkCount
  }

  lemma MoreUsedTotal()
    ensures TotalPreorder(MoreUsed)
  {
  }

  /** `LIMIT ?`: SQLite reads a negative limit as no limit. */
  function Limit<T>(s: seq<T>, limit: int): (r: seq<T>)
    ensures limit < 0 ==> r == s
    ensures limit >= 0 ==> |r| == if limit < |s| then limit else |s|
    ensures r == s[..|r|]
  {
    if limit < 0 || limit >= |s| then s else s[..limit]
  }

  /** All tags on at least one bookmark (the INNER JOIN), most used first. */
  function UsedTags(db: Db): (r: seq<TagRow>)
    ensures Sorted(r, MoreUsed)
    ensures forall row :: row in r <==>
      row.id in db.tags && 0 < row.id < db.nextTag && row == TagRowOf(db, row.id) && row.bookmarkCount >= 1
    ensures Distinct(r)
  {
    var ids := Keep(Scan(db.tags, db.nextTag), t => t in db.tags && |TaggedWith(db, t)| >= 1);
    var rows := TagRows(db, ids);
    forall row ensures row in rows <==>
      row.id in db.tags && 0 < row.id < db.nextTag && row == TagRowOf(db, row.id) && row.bookmarkCount >= 1
    {
      if row in rows {
        var i :| 0 <= i < |rows| && rows[i] == row;
        assert ids[i] in ids;
      }
      if row.id in db.tags && 0 < row.id < db.nextTag && row == TagRowOf(db, row.id) && row.bookmarkCount >= 1 {
        assert row.id in ids;
        var i :| 0 <= i < |ids| && ids[i] == row.id;
        assert rows[i] == row;
      }
    }
    MoreUsedTotal();
    var r := SortBy(rows, MoreUsed);
    SameElements(r, rows);
    PermutationDistinct(r, rows);
    r
  }

  /** GET /api/tags/popular: the first `limit` of the used tags, most used first. */
  function PopularTags(db: Db, limit: int): (r: seq<TagRow>)
    ensures Sorted(r, MoreUsed)
    ensures forall row :: row in r ==> row in UsedTags(db)
    ensures limit < 0 ==> r == UsedTags(db)
    ensures limit >= 0 ==> |r| == if limit < |UsedTags(db)| then limit else |UsedTags(db)|
  {
    var r := Limit(UsedTags(db), limit);
    assert forall i :: 0 <= i < |r| ==> r[i] == UsedTags(db)[i];
    r
  }

  /** GET /api/tags/popular with the query's `limit`: used tags only, most used
      first; ten of them (or all, when fewer are used) when no limit is given, at
      most `limit` for a positive one, and all of them for a negative one. */
  function GetPopularTags(db: Db, q: Option<string>): (r: seq<TagRow>)
    ensures Sorted(r, MoreUsed)
    ensures forall row :: row in r ==> row in UsedTags(db) && row.bookmarkCount >= 1
    ensures q.None? ==> |r| == if 10 < |UsedTags(db)| then 10 else |UsedTags(db)|
    ensures ParseLimit(q) > 0 ==> |r| <= ParseLimit(q)
    ensures ParseLimit(q) < 0 ==> r == UsedTags(db)
  {
    PopularTags(db, ParseLimit(q))
  }

  /** `?limit=n` for a positive n returns the n most used tags, or every used tag
      when fewer are used. */
  lemma GetPopularTagsNumeral(db: Db, n: nat)
    requires n > 0
    ensures |GetPopularTags(db, Some(Decimal(n)))| == if n < |UsedTags(db)| then n else |UsedTags(db)|
  {
    ParseLimitNumeral(n);
  }

  /** The popular tags are the top ones: no used tag left out was used more than
      one that is shown. */
  lemma PopularIsTop(db: Db, limit: int, shown: TagRow, left: TagRow)
    requires shown in PopularTags(db, limit)
    requires left in UsedTags(db) && left !in PopularTags(db, limit)
    ensures left.bookmarkCount <= shown.bookmarkCount
  {
    var all := UsedTags(db);
    var r := PopularTags(db, limit);
    assert r == all[..|r|];
    var i :| 0 <= i < |r| && r[i] == shown;
    var j :| 0 <= j < |all| && all[j] == left;
    if j < |r| {
      assert r[j] == left;
    }
    assert all[i] == shown;
  }
}
