/** The four tables of the store (folders, tags, bookmarks, bookmark_tags), their
    column defaults and the integrity rules that SQLite enforces with foreign keys
    switched on: every reference names an existing row, tag names are unique, and
    the junction table holds each (bookmark, tag) pair at most once. */
module Schema {
  import opened Common

  /** tags.color DEFAULT */
  const DefaultColor: string := "#3b82f6"

  /** folders: name NOT NULL, description and parent_id nullable. */
  datatype Folder = Folder(
    name: string,
    description: Option<string>,
    parent: Option<int>,
    createdAt: int,
    updatedAt: int)

  /** tags: name NOT NULL UNIQUE. Every write path gives color a value. */
  datatype Tag = Tag(name: string, color: string, createdAt: int)

  /** bookmarks: title and url NOT NULL, is_favorite DEFAULT 0, visit_count DEFAULT 0. */
  datatype Bookmark = Bookmark(
    title: string,
    url: string,
    description: Option<string>,
    folder: Option<int>,
    favicon: Option<string>,
    isFavorite: bool,
    visitCount: nat,
    lastVisited: Option<int>,
    createdAt: int,
    updatedAt: int)

  /** A row of bookmark_tags. The table is a set: its primary key is the pair. */
  datatype Link = Link(bookmark: int, tag: int)

  /** A snapshot of the whole store. The `next` counters are the AUTOINCREMENT
      sequences: a new row takes the counter, and ids are never reused. */
  datatype Db = Db(
    folders: map<int, Folder>,
    tags: map<int, Tag>,
    bookmarks: map<int, Bookmark>,
    links: set<Link>,
    nextFolder: int,
    nextTag: int,
    nextBookmark: int)

  // ---------------------------------------------------------------------------
  // Integrity rules

  ghost predicate IdsBelow<V>(m: map<int, V>, next: int)
  {
    next >= 1 && forall id :: id in m ==> 0 < id < next
  }

  /** folders.parent_id REFERENCES folders(id) */
  ghost predicate ParentsExist(folders: map<int, Folder>)
  {
    forall f :: f in folders && folders[f].parent.Some? ==> folders[f].parent.value in folders
  }

  /** bookmarks.folder_id REFERENCES folders(id) */
  ghost predicate BookmarkFoldersExist(bookmarks: map<int, Bookmark>, folders: map<int, Folder>)
  {
    forall b :: b in bookmarks && bookmarks[b].folder.Some? ==> bookmarks[b].folder.value in folders
  }

  /** bookmark_tags.bookmark_id REFERENCES bookmarks(id), tag_id REFERENCES tags(id) */
  ghost predicate LinksExist(links: set<Link>, bookmarks: map<int, Bookmark>, tags: map<int, Tag>)
  {
    forall l :: l in links ==> l.bookmark in bookmarks && l.tag in tags
  }

  /** tags.name UNIQUE */
  ghost predicate TagNamesUnique(tags: map<int, Tag>)
  {
    forall t, u :: t in tags && u in tags && tags[t].name == tags[u].name ==> t == u
  }

  ghost predicate Integrity(db: Db)
  {
    && IdsBelow(db.folders, db.nextFolder)
    && IdsBelow(db.tags, db.nextTag)
    && IdsBelow(db.bookmarks, db.nextBookmark)
    && ParentsExist(db.folders)
    && BookmarkFoldersExist(db.bookmarks, db.folders)
    && LinksExist(db.links, db.bookmarks, db.tags)
    && TagNamesUnique(db.tags)
  }

  /** The empty store that `initializeDatabase` creates. */
  function EmptyDb(): (db: Db)
    ensures Integrity(db)
    ensures db.folders == map[] && db.tags == map[] && db.bookmarks == map[] && db.links == {}
  {
    Db(map[], map[], map[], {}, 1, 1, 1)
  }

  // ---------------------------------------------------------------------------
  // Scans

  ghost predicate Increasing(s: seq<int>)
  {
    forall i, j :: 0 <= i < j < |s| ==> s[i] < s[j]
  }

  /** A full scan of a table in rowid order: every id below the counter that has
      a row, once each, smallest first. */
  function Scan<V>(m: map<int, V>, next: int): (r: seq<int>)
    ensures forall id :: id in r <==> id in m && 0 < id < next
    ensures Increasing(r)
    decreases next
  {
    if next <= 1 then []
    else
      var front := Scan(m, next - 1);
      assert forall i :: 0 <= i < |front| ==> front[i] in front;
      if next - 1 in m then front + [next - 1] else front
  }

  /** `WHERE p(id)` over a scan: the ids that pass, in the same order. */
  function Keep(s: seq<int>, p: int -> bool): (r: seq<int>)
    requires Increasing(s)
    ensures forall id :: id in r <==> id in s && p(id)
    ensures Increasing(r)
  {
    if s == [] then []
    else
      var rest := Keep(s[1..], p);
      assert forall id :: id in rest ==> id in s[1..];
      assert forall i :: 0 <= i < |s[1..]| ==> s[1..][i] == s[i + 1];
      assert forall i :: 0 <= i < |rest| ==> rest[i] in rest;
      if p(s[0]) then [s[0]] + rest else rest
  }

  /** A condition that every id meets keeps them all. */
  lemma {:induction false} KeepAll(s: seq<int>, p: int -> bool)
    requires Increasing(s) && forall i :: 0 <= i < |s| ==> p(s[i])
    ensures Keep(s, p) == s
  {
    if s != [] {
      assert forall i :: 0 <= i < |s[1..]| ==> s[1..][i] == s[i + 1];
      KeepAll(s[1..], p);
      assert s == [s[0]] + s[1..];
    }
  }

  /** Under the id bound, a scan visits every row of the table once. */
  lemma ScanSize<V>(m: map<int, V>, next: int)
    requires IdsBelow(m, next)
    ensures |Scan(m, next)| == |m|
  {
    var s := Scan(m, next);
    IncreasingDistinct(s);
    DistinctCardinality(s);
    assert (set x | x in s) == m.Keys;
  }

  lemma IncreasingDistinct(s: seq<int>)
    requires Increasing(s)
    ensures Distinct(s)
  {
  }

  /** The id of the tag called `name`, if there is one (`SELECT id FROM tags WHERE name = ?`). */
  function TagNamed(tags: map<int, Tag>, name: string): (r: Option<int>)
    requires TagNamesUnique(tags)
    ensures r.Some? ==> r.value in tags && tags[r.value].name == name
    ensures r.None? ==> forall t :: t in tags ==> tags[t].name != name
  {
    if exists t :: t in tags && tags[t].name == name then
      var t :| t in tags && tags[t].name == name; Some(t)
    else None
  }
}
