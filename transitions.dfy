/** The write side of the three controllers as functions from the store before a
    request to the reply and the store after it. Each handler runs its statements
    one by one without a transaction, so a statement that fails leaves the writes
    of the statements before it in place. */
module Transitions {
  import opened Common
  import opened Schema
  import opened Hierarchy

  /** A row as `SELECT * ... WHERE id = ?` returns it after a write. */
  datatype Saved<T> = Saved(id: int, row: T)

  /** The reply of a request and the store it leaves behind. */
  datatype Outcome<T> = Outcome(reply: Reply<T>, db: Db)

  const ForeignKeyFailed: string := "FOREIGN KEY constraint failed"
  const DuplicateLink: string := "UNIQUE constraint failed: bookmark_tags.bookmark_id, bookmark_tags.tag_id"

  /** A request body of POST and PUT /api/folders. */
  datatype FolderInput = FolderInput(name: Option<string>, description: Option<string>, parent: Option<int>)

  /** The `tags` field of a bookmark request body. */
  datatype TagsField = Absent | NotAList | List(names: seq<string>)

  /** A request body of POST and PUT /api/bookmarks. `favorite` is the truthiness of
      a supplied `is_favorite` (null counts as supplied and false). */
  datatype BookmarkInput = BookmarkInput(
    title: Option<string>,
    url: Option<string>,
    description: Option<string>,
    folder: Option<int>,
    favicon: Option<string>,
    favorite: Option<bool>,
    tags: TagsField)

  /** A request body of POST and PUT /api/tags. */
  datatype TagInput = TagInput(name: Option<string>, color: Option<string>)

  // ---------------------------------------------------------------------------
  // Folders

  /** POST /api/folders */
  function CreateFolder(db: Db, input: FolderInput, now: int): (o: Outcome<Saved<Folder>>)
    requires Integrity(db)
    ensures !TruthyText(input.name) ==> o == Outcome(BadRequest("Name is required"), db)
    ensures TruthyText(input.name) && TruthyId(input.parent) && input.parent.value !in db.folders ==>
      o == Outcome(Internal(ForeignKeyFailed), db)
    ensures o.reply.Created? ==>
      && o.reply.value.id == db.nextFolder
      && o.reply.value.row == Folder(input.name.value, TextOrNull(input.description), IdOrNull(input.parent), now, now)
      && o.db == db.(folders := db.folders[db.nextFolder := o.reply.value.row], nextFolder := db.nextFolder + 1)
    ensures o.reply.Created? || o.reply.BadRequest? || o.reply.Internal?
    ensures TruthyText(input.name) && (!TruthyId(input.parent) || input.parent.value in db.folders) ==> o.reply.Created?
    ensures o.reply.Created? ==>
      && db.nextFolder in o.db.folders
      && (o.db.folders[db.nextFolder].parent.None? <==> !TruthyId(input.parent))
      && (o.db.folders[db.nextFolder].description.None? <==> !TruthyText(input.description))
  {
    if !TruthyText(input.name) then Outcome(BadRequest("Name is required"), db)
    else
      var parent := IdOrNull(input.parent);
      if parent.Some? && parent.value !in db.folders then Outcome(Internal(ForeignKeyFailed), db)
      else
        var f := Folder(input.name.value, TextOrNull(input.description), parent, now, now);
        Outcome(Created(Saved(db.nextFolder, f)), db.(folders := db.folders[db.nextFolder := f], nextFolder := db.nextFolder + 1))
  }

  /** A new folder keeps the integrity rules and the tree free of cycles. */
  lemma CreateFolderKeepsIntegrity(db: Db, input: FolderInput, now: int)
    requires Integrity(db) && Acyclic(db.folders)
    ensures Integrity(CreateFolder(db, input, now).db)
    ensures Acyclic(CreateFolder(db, input, now).db.folders)
  {
    var o := CreateFolder(db, input, now);
    if o.reply.Created? {
      var id := db.nextFolder;
      assert id !in db.folders;
      var f := o.reply.value.row;
      if f.parent.Some? {
        FreshIsNoAncestor(db.folders, id, f.parent.value);
      }
      ReparentKeepsAcyclic(db.folders, id, f);
    }
  }

  /** The guard of PUT /api/folders/:id as intended: the new parent is the folder
      itself or lies below it (see the findings; the code as written asks the
      opposite question). */
  ghost predicate MovesIntoOwnSubtree(db: Db, id: int, input: FolderInput)
  {
    TruthyId(input.parent) && AncestorOrSelf(db.folders, id, input.parent.value)
  }

  /** The UPDATE of PUT /api/folders/:id, once the guard has let the request
      through: `COALESCE` keeps a name or description that was not supplied, the
      parent is always overwritten (a body without a truthy `parent_id` moves the
      folder to the top level), and a parent that does not exist fails the
      foreign key. */
  function ApplyFolderUpdate(db: Db, id: int, input: FolderInput, now: int): (o: Outcome<Saved<Folder>>)
    requires id in db.folders
    ensures o.reply.Internal? <==> TruthyId(input.parent) && input.parent.value !in db.folders
    ensures o.reply.Ok? || o.reply == Internal(ForeignKeyFailed)
    ensures o.reply.Internal? ==> o.db == db
    ensures o.reply.Ok? ==>
      && o.reply.value.id == id
      && o.reply.value.row == Folder(
           Coalesce(input.name, db.folders[id].name),
           CoalesceOpt(input.description, db.folders[id].description),
           IdOrNull(input.parent),
           db.folders[id].createdAt,
           now)
      && o.db == db.(folders := db.folders[id := o.reply.value.row])
  {
    var parent := IdOrNull(input.parent);
    if parent.Some? && parent.value !in db.folders then Outcome(Internal(ForeignKeyFailed), db)
    else
      var old_ := db.folders[id];
      var f := Folder(Coalesce(input.name, old_.name), CoalesceOpt(input.description, old_.description), parent, old_.createdAt, now);
      Outcome(Ok(Saved(id, f)), db.(folders := db.folders[id := f]))
  }

  /** PUT /api/folders/:id, with the guard as intended (see `MovesIntoOwnSubtree`). */
  ghost function UpdateFolder(db: Db, id: int, input: FolderInput, now: int): (o: Outcome<Saved<Folder>>)
    requires Integrity(db)
    ensures id !in db.folders <==> o.reply == NotFound("Folder not found")
    ensures o.reply.NotFound? || o.reply.BadRequest? || o.reply.Internal? ==> o.db == db
    ensures o.reply.BadRequest? <==> id in db.folders && MovesIntoOwnSubtree(db, id, input)
    ensures o.reply.BadRequest? ==> o.reply == BadRequest("Cannot move folder into its own descendant")
    ensures o.reply.Internal? <==>
      id in db.folders && !MovesIntoOwnSubtree(db, id, input) && TruthyId(input.parent) && input.parent.value !in db.folders
    ensures id in db.folders && !MovesIntoOwnSubtree(db, id, input) && (!TruthyId(input.parent) || input.parent.value in db.folders) ==>
      o.reply.Ok?
    ensures o.reply.Ok? ==>
      && id in db.folders && o.reply.value.id == id
      && o.reply.value.row == Folder(
           Coalesce(input.name, db.folders[id].name),
           CoalesceOpt(input.description, db.folders[id].description),
           IdOrNull(input.parent),
           db.folders[id].createdAt,
           now)
      && o.db == db.(folders := db.folders[id := o.reply.value.row])
    ensures o.reply.Ok? ==>
      && (input.name.None? ==> o.db.folders[id].name == db.folders[id].name)
      && (input.description.None? ==> o.db.folders[id].description == db.folders[id].description)
      && (o.db.folders[id].parent.None? <==> !TruthyId(input.parent))
    ensures o.reply.Ok? || o.reply.NotFound? || o.reply.BadRequest? || o.reply.Internal?
  {
    if id !in db.folders then Outcome(NotFound("Folder not found"), db)
    else if MovesIntoOwnSubtree(db, id, input) then Outcome(BadRequest("Cannot move folder into its own descendant"), db)
    else ApplyFolderUpdate(db, id, input, now)
  }

  /** PUT /api/folders/:id as written: `isDescendant(id, parent_id)` climbs from
      the folder being moved and looks for the new parent. `None` stands for a
      request that never answers, because the loop goes round a cycle of parent
      references forever. */
  function UpdateFolderAsWritten(db: Db, id: int, input: FolderInput, now: int): (o: Option<Outcome<Saved<Folder>>>)
    requires Integrity(db)
    ensures id !in db.folders ==> o == Some(Outcome(NotFound("Folder not found"), db))
    ensures o.Some? && o.value.reply.BadRequest? ==> o.value == Outcome(BadRequest("Cannot move folder into its own descendant"), db)
    ensures id in db.folders && !TruthyId(input.parent) ==> o == Some(ApplyFolderUpdate(db, id, input, now))
  {
    if id !in db.folders then Some(Outcome(NotFound("Folder not found"), db))
    else if TruthyId(input.parent) && GuardWalk(db.folders, id, input.parent.value) == Found then
      Some(Outcome(BadRequest("Cannot move folder into its own descendant"), db))
    else if TruthyId(input.parent) && GuardWalk(db.folders, id, input.parent.value) == OutOfFuel then None
    else Some(ApplyFolderUpdate(db, id, input, now))
  }

  /** What the guard as written does: it refuses a truthy `parent_id` that is the
      folder itself or one of its current ancestors, with no change; it hangs
      exactly when the chain above the folder is a cycle that does not pass the
      new parent; in every other case the update goes ahead unguarded. */
  lemma UpdateFolderAsWrittenMeaning(db: Db, id: int, input: FolderInput, now: int)
    requires Integrity(db) && id in db.folders && TruthyId(input.parent)
    ensures AncestorOrSelf(db.folders, input.parent.value, id) ==>
      UpdateFolderAsWritten(db, id, input, now) == Some(Outcome(BadRequest("Cannot move folder into its own descendant"), db))
    ensures UpdateFolderAsWritten(db, id, input, now).None? <==>
      !ChainEnds(db.folders, Some(id)) && !AncestorOrSelf(db.folders, input.parent.value, id)
    ensures ChainEnds(db.folders, Some(id)) && !AncestorOrSelf(db.folders, input.parent.value, id) ==>
      UpdateFolderAsWritten(db, id, input, now) == Some(ApplyFolderUpdate(db, id, input, now))
  {
    var p := input.parent.value;
    GuardWalkMeaning(db.folders, id, p);
    if GuardWalk(db.folders, id, p) == OutOfFuel {
      assert forall k: nat :: Climb(db.folders, Some(id), k).Some? && Climb(db.folders, Some(id), k) != Some(p);
    }
  }

  /** With the tree free of cycles, the request as written always answers. */
  lemma UpdateFolderAsWrittenAnswers(db: Db, id: int, input: FolderInput, now: int)
    requires Integrity(db) && Acyclic(db.folders)
    ensures UpdateFolderAsWritten(db, id, input, now).Some?
  {
    if id in db.folders && TruthyId(input.parent) {
      GuardWalkHangsOnlyOnCycles(db.folders, id, input.parent.value);
    }
  }

  /** Folders 1 at the top, 2 under 1 and 3 under 2. Renaming folder 3 while
      sending its current parent again is refused by the guard as written, since 2
      is an ancestor of 3; the intended guard lets it through. */
  lemma ResentParentRefused()
    ensures var db := Db(map[1 := Folder("Work", None, None, 0, 0), 2 := Folder("Projects", None, Some(1), 0, 0),
                            3 := Folder("Drafts", None, Some(2), 0, 0)], map[], map[], {}, 4, 1, 1);
      var input := FolderInput(Some("x"), None, Some(2));
      && Integrity(db) && Acyclic(db.folders)
      && UpdateFolderAsWritten(db, 3, input, 5) == Some(Outcome(BadRequest("Cannot move folder into its own descendant"), db))
      && UpdateFolder(db, 3, input, 5).reply.Ok?
  {
    var folders := map[1 := Folder("Work", None, None, 0, 0), 2 := Folder("Projects", None, Some(1), 0, 0),
                       3 := Folder("Drafts", None, Some(2), 0, 0)];
    var db := Db(folders, map[], map[], {}, 4, 1, 1);
    var input := FolderInput(Some("x"), None, Some(2));
    assert folders.Keys == {1, 2, 3};
    assert Climb(folders, Some(1), 1) == None;
    assert Climb(folders, Some(2), 2) == None;
    assert Climb(folders, Some(3), 3) == None;
    assert Acyclic(folders);
    assert Climb(folders, Some(3), 1) == Some(2);
    assert AncestorOrSelf(folders, 2, 3);
    UpdateFolderAsWrittenMeaning(db, 3, input, 5);
    forall k: nat ensures Climb(folders, Some(2), k) != Some(3) {
      if k >= 2 {
        ClimbStays(folders, Some(2), 2, k);
      } else if k == 1 {
        assert Climb(folders, Some(2), 1) == Some(1);
      }
    }
    assert !MovesIntoOwnSubtree(db, 3, input);
  }

  /** An update that passes the guard keeps the integrity rules and the tree free
      of cycles. */
  lemma UpdateFolderKeepsIntegrity(db: Db, id: int, input: FolderInput, now: int)
    requires Integrity(db) && Acyclic(db.folders)
    ensures Integrity(UpdateFolder(db, id, input, now).db)
    ensures Acyclic(UpdateFolder(db, id, input, now).db.folders)
  {
    var o := UpdateFolder(db, id, input, now);
    if o.reply.Ok? {
      ReparentKeepsAcyclic(db.folders, id, o.reply.value.row);
    }
  }

  /** `UPDATE bookmarks SET folder_id = ? WHERE folder_id = ?` */
  function Rehome(bookmarks: map<int, Bookmark>, from: int, to: Option<int>): (r: map<int, Bookmark>)
    ensures r.Keys == bookmarks.Keys
    ensures forall b :: b in r ==> r[b] == if bookmarks[b].folder == Some(from) then bookmarks[b].(folder := to) else bookmarks[b]
  {
    map b | b in bookmarks :: if bookmarks[b].folder == Some(from) then bookmarks[b].(folder := to) else bookmarks[b]
  }

  /** `ON DELETE SET NULL` on bookmarks.folder_id for the deleted folders. */
  function Unfile(bookmarks: map<int, Bookmark>, gone: set<int>): (r: map<int, Bookmark>)
    ensures r.Keys == bookmarks.Keys
    ensures forall b :: b in r ==> r[b] == if bookmarks[b].folder.Some? && bookmarks[b].folder.value in gone then bookmarks[b].(folder := None) else bookmarks[b]
  {
    map b | b in bookmarks :: if bookmarks[b].folder.Some? && bookmarks[b].folder.value in gone then bookmarks[b].(folder := None) else bookmarks[b]
  }

  function Without(folders: map<int, Folder>, gone: set<int>): (r: map<int, Folder>)
    ensures forall g :: g in r <==> g in folders && g !in gone
    ensures forall g :: g in r ==> r[g] == folders[g]
  {
    map g | g in folders && g !in gone :: folders[g]
  }

  /** DELETE /api/folders/:id: the bookmarks filed directly in the folder move to
      its parent, then the folder goes and with it, by the cascade, every folder
      below it; bookmarks left in a deleted folder become unfiled. */
  function DeleteFolder(db: Db, id: int): (o: Outcome<string>)
    ensures id !in db.folders ==> o == Outcome(NotFound("Folder not found"), db)
    ensures id in db.folders ==>
      && o.reply == Ok("Folder deleted successfully")
      && o.db == db.(folders := Without(db.folders, Cascade(db.folders, id)),
                     bookmarks := Unfile(Rehome(db.bookmarks, id, db.folders[id].parent), Cascade(db.folders, id)))
  {
    if id !in db.folders then Outcome(NotFound("Folder not found"), db)
    else
      var gone := Cascade(db.folders, id);
      var moved := Rehome(db.bookmarks, id, db.folders[id].parent);
      Outcome(Ok("Folder deleted successfully"), db.(folders := Without(db.folders, gone), bookmarks := Unfile(moved, gone)))
  }

  /** In a tree free of cycles, the parent of a folder is not deleted with it. */
  lemma ParentSurvives(folders: map<int, Folder>, id: int)
    requires ParentsExist(folders) && Acyclic(folders) && id in folders && folders[id].parent.Some?
    ensures folders[id].parent.value !in Cascade(folders, id)
  {
    var p := folders[id].parent.value;
    if p in Cascade(folders, id) {
      CascadeIsSubtree(folders, id, p);
      var k: nat :| Climb(folders, Some(p), k) == Some(id);
      assert ChainEnds(folders, Some(id));
      var top: nat :| Climb(folders, Some(id), top) == None;
      CycleGoesOn(folders, id, k, top);
    }
  }

  /** Deleting a folder keeps the integrity rules. */
  lemma DeleteFolderKeepsIntegrity(db: Db, id: int)
    requires Integrity(db) && Acyclic(db.folders) && id in db.folders
    ensures Integrity(DeleteFolder(db, id).db)
  {
    var gone := Cascade(db.folders, id);
    assert Climb(db.folders, Some(id), 0) == Some(id);
    assert id in gone;
    CascadeKeepsParents(db.folders, id);
    if db.folders[id].parent.Some? {
      ParentSurvives(db.folders, id);
    }
  }

  /** Deleting a folder keeps the tree free of cycles. */
  lemma DeleteFolderKeepsAcyclic(db: Db, id: int)
    requires Integrity(db) && Acyclic(db.folders) && id in db.folders
    ensures Acyclic(DeleteFolder(db, id).db.folders)
  {
    var gone := Cascade(db.folders, id);
    CascadeKeepsAcyclic(db.folders, id);
    assert Without(db.folders, gone) == map h | h in db.folders && h !in gone :: db.folders[h];
  }

  /** Deleting a folder keeps every bookmark: those filed directly in it are now in
      its parent, those in a folder below it are unfiled, and the rest are
      untouched. */
  lemma DeleteFolderEffect(db: Db, id: int)
    requires Integrity(db) && Acyclic(db.folders) && id in db.folders
    ensures DeleteFolder(db, id).db.bookmarks.Keys == db.bookmarks.Keys
    ensures forall b :: b in db.bookmarks && db.bookmarks[b].folder == Some(id) ==>
      DeleteFolder(db, id).db.bookmarks[b] == db.bookmarks[b].(folder := db.folders[id].parent)
    ensures forall b :: (b in db.bookmarks && db.bookmarks[b].folder.Some? && db.bookmarks[b].folder != Some(id)
      && db.bookmarks[b].folder.value in Cascade(db.folders, id)) ==>
      DeleteFolder(db, id).db.bookmarks[b] == db.bookmarks[b].(folder := None)
    ensures forall b :: b in db.bookmarks && (db.bookmarks[b].folder.None? || db.bookmarks[b].folder.value !in Cascade(db.folders, id)) ==>
      DeleteFolder(db, id).db.bookmarks[b] == db.bookmarks[b]
  {
    var gone := Cascade(db.folders, id);
    assert Climb(db.folders, Some(id), 0) == Some(id);
    assert id in gone;
    if db.folders[id].parent.Some? {
      ParentSurvives(db.folders, id);
    }
  }

  // ---------------------------------------------------------------------------
  // Tags

  /** POST /api/tags */
  function CreateTag(db: Db, input: TagInput, now: int): (o: Outcome<Saved<Tag>>)
    requires Integrity(db)
    ensures !TruthyText(input.name) ==> o == Outcome(BadRequest("Name is required"), db)
    ensures TruthyText(input.name) && TagNamed(db.tags, input.name.value).Some? ==>
      o == Outcome(Conflict("Tag with this name already exists"), db)
    ensures o.reply.Created? ==>
      && TagNamed(db.tags, input.name.value).None?
      && o.reply.value == Saved(db.nextTag, Tag(input.name.value, Coalesce(input.color, DefaultColor), now))
      && o.db == db.(tags := db.tags[db.nextTag := o.reply.value.row], nextTag := db.nextTag + 1)
    ensures o.reply.Created? || o.reply.BadRequest? || o.reply.Conflict?
    ensures TruthyText(input.name) && TagNamed(db.tags, input.name.value).None? ==> o.reply.Created?
    ensures o.reply.Created? && input.color.None? ==> o.db.tags[db.nextTag].color == DefaultColor
  {
    if !TruthyText(input.name) then Outcome(BadRequest("Name is required"), db)
    else if TagNamed(db.tags, input.name.value).Some? then Outcome(Conflict("Tag with this name already exists"), db)
    else
      var t := Tag(input.name.value, Coalesce(input.color, DefaultColor), now);
      Outcome(Created(Saved(db.nextTag, t)), db.(tags := db.tags[db.nextTag := t], nextTag := db.nextTag + 1))
  }

  lemma CreateTagKeepsIntegrity(db: Db, input: TagInput, now: int)
    requires Integrity(db)
    ensures Integrity(CreateTag(db, input, now).db)
  {
  }

  /** The second of two requests that create the same tag name is refused. */
  lemma CreateTagTwice(db: Db, input: TagInput, now: int, later: int)
    requires Integrity(db) && TruthyText(input.name)
    ensures var first := CreateTag(db, input, now);
      CreateTag(first.db, input, later).reply == Conflict("Tag with this name already exists")
  {
    var first := CreateTag(db, input, now);
    CreateTagKeepsIntegrity(db, input, now);
    if first.reply.Created? {
      assert first.db.tags[db.nextTag].name == input.name.value;
    }
  }

  /** PUT /api/tags/:id */
  function UpdateTag(db: Db, id: int, input: TagInput): (o: Outcome<Saved<Tag>>)
    requires Integrity(db)
    ensures id !in db.tags <==> o.reply == NotFound("Tag not found")
    ensures !o.reply.Ok? ==> o.db == db
    ensures id in db.tags && (exists t :: t in db.tags && t != id && db.tags[t].name == Coalesce(input.name, db.tags[id].name)) ==>
      o.reply == Conflict("Tag with this name already exists")
    ensures o.reply.Ok? ==>
      && id in db.tags
      && o.reply.value == Saved(id, Tag(Coalesce(input.name, db.tags[id].name), Coalesce(input.color, db.tags[id].color), db.tags[id].createdAt))
      && o.db == db.(tags := db.tags[id := o.reply.value.row])
    ensures o.reply.Ok? || o.reply.NotFound? || o.reply.Conflict?
    ensures id in db.tags && (forall t :: t in db.tags && t != id ==> db.tags[t].name != Coalesce(input.name, db.tags[id].name)) ==>
      o.reply.Ok?
    ensures o.reply.Ok? ==>
      && (input.name.None? ==> o.db.tags[id].name == db.tags[id].name)
      && (input.color.None? ==> o.db.tags[id].color == db.tags[id].color)
      && o.db.links == db.links
  {
    if id !in db.tags then Outcome(NotFound("Tag not found"), db)
    else
      var name := Coalesce(input.name, db.tags[id].name);
      var clash := TagNamed(db.tags, name);
      if clash.Some? && clash.value != id then Outcome(Conflict("Tag with this name already exists"), db)
      else
        var t := Tag(name, Coalesce(input.color, db.tags[id].color), db.tags[id].createdAt);
        Outcome(Ok(Saved(id, t)), db.(tags := db.tags[id := t]))
  }

  lemma UpdateTagKeepsIntegrity(db: Db, id: int, input: TagInput)
    requires Integrity(db)
    ensures Integrity(UpdateTag(db, id, input).db)
  {
    var o := UpdateTag(db, id, input);
    if o.reply.Ok? {
      var tags := o.db.tags;
      forall t, u | t in tags && u in tags && tags[t].name == tags[u].name ensures t == u {
        if t != id && u != id {
          assert db.tags[t].name == db.tags[u].name;
        }
      }
    }
  }

  function WithoutLinksOfTag(links: set<Link>, t: int): (r: set<Link>)
    ensures forall l :: l in r <==> l in links && l.tag != t
  {
    set l | l in links && l.tag != t
  }

  /** DELETE /api/tags/:id: the tag goes, and its links with it. */
  function DeleteTag(db: Db, id: int): (o: Outcome<string>)
    ensures id !in db.tags ==> o == Outcome(NotFound("Tag not found"), db)
    ensures id in db.tags ==>
      && o.reply == Ok("Tag deleted successfully")
      && o.db == db.(tags := db.tags - {id}, links := WithoutLinksOfTag(db.links, id))
  {
    if id !in db.tags then Outcome(NotFound("Tag not found"), db)
    else Outcome(Ok("Tag deleted successfully"), db.(tags := db.tags - {id}, links := WithoutLinksOfTag(db.links, id)))
  }

  lemma DeleteTagKeepsIntegrity(db: Db, id: int)
    requires Integrity(db)
    ensures Integrity(DeleteTag(db, id).db)
  {
  }

  // ---------------------------------------------------------------------------
  // Linking a bookmark to tags by name

  /** The result of the `tags.forEach` loop: the store it leaves and whether a
      link insert failed. */
  datatype Linked = Linked(db: Db, failed: bool)

  /** The id that `SELECT id FROM tags WHERE name = ?` finds after
      `INSERT OR IGNORE INTO tags (name)`: the existing tag, or the new row. */
  function TagIdFor(db: Db, name: string): int
    requires TagNamesUnique(db.tags)
  {
    match TagNamed(db.tags, name)
    case Some(t) => t
    case None => db.nextTag
  }

  /** `INSERT OR IGNORE INTO tags (name) VALUES (?)`; the column default gives the colour. */
  function EnsureTag(db: Db, name: string, now: int): (r: Db)
    requires TagNamesUnique(db.tags) && IdsBelow(db.tags, db.nextTag)
    ensures TagNamesUnique(r.tags) && IdsBelow(r.tags, r.nextTag)
    ensures TagIdFor(db, name) in r.tags && r.tags[TagIdFor(db, name)].name == name
    ensures forall t :: t in db.tags ==> t in r.tags && r.tags[t] == db.tags[t]
    ensures forall t :: t in r.tags && t !in db.tags ==> t == TagIdFor(db, name) && r.tags[t] == Tag(name, DefaultColor, now)
    ensures r == db.(tags := r.tags, nextTag := r.nextTag)
  {
    if TagNamed(db.tags, name).Some? then db
    else
      var r := db.(tags := db.tags[db.nextTag := Tag(name, DefaultColor, now)], nextTag := db.nextTag + 1);
      assert forall t :: t in db.tags ==> db.tags[t].name != name;
      r
  }

  /** One round of the loop: make sure the tag exists, then link it. A link that
      is already there makes the insert fail. */
  function LinkOne(db: Db, b: int, name: string, now: int): (r: Linked)
    requires TagNamesUnique(db.tags) && IdsBelow(db.tags, db.nextTag)
    ensures TagNamesUnique(r.db.tags) && IdsBelow(r.db.tags, r.db.nextTag)
    ensures r.db == db.(tags := r.db.tags, nextTag := r.db.nextTag, links := r.db.links)
    ensures forall t :: t in db.tags ==> t in r.db.tags && r.db.tags[t] == db.tags[t]
    ensures forall t :: t in r.db.tags && t !in db.tags ==> r.db.tags[t] == Tag(name, DefaultColor, now)
    ensures forall l :: l in r.db.links <==> l in db.links || (!r.failed && l == Link(b, TagIdFor(db, name)))
  {
    var d := EnsureTag(db, name, now);
    var t := TagIdFor(db, name);
    if Link(b, t) in d.links then Linked(d, true)
    else Linked(d.(links := d.links + {Link(b, t)}), false)
  }

  /** `tags.forEach(...)` over `names`, stopping at the first failing insert. It
      changes only tags and links: every existing tag stays as it was, a new tag
      carries a name of the list and the column's default colour, and every link
      it adds is a link of `b`. */
  function LinkTags(db: Db, b: int, names: seq<string>, now: int): (r: Linked)
    requires TagNamesUnique(db.tags) && IdsBelow(db.tags, db.nextTag)
    ensures TagNamesUnique(r.db.tags) && IdsBelow(r.db.tags, r.db.nextTag)
    ensures r.db == db.(tags := r.db.tags, nextTag := r.db.nextTag, links := r.db.links)
    ensures forall t :: t in db.tags ==> t in r.db.tags && r.db.tags[t] == db.tags[t]
    ensures forall t :: t in r.db.tags && t !in db.tags ==>
      r.db.tags[t].name in names && r.db.tags[t].color == DefaultColor && r.db.tags[t].createdAt == now
    ensures forall l :: l in db.links ==> l in r.db.links
    ensures forall l :: l in r.db.links && l !in db.links ==> l.bookmark == b
    decreases |names|
  {
    if names == [] then Linked(db, false)
    else
      var prev := LinkTags(db, b, names[..|names| - 1], now);
      if prev.failed then prev else LinkOne(prev.db, b, names[|names| - 1], now)
  }

  /** One more round of the loop, after rounds that all succeeded. */
  lemma LinkTagsSnoc(db: Db, b: int, names: seq<string>, i: nat, now: int)
    requires TagNamesUnique(db.tags) && IdsBelow(db.tags, db.nextTag)
    requires i < |names| && !LinkTags(db, b, names[..i], now).failed
    ensures LinkTags(db, b, names[..i + 1], now) == LinkOne(LinkTags(db, b, names[..i], now).db, b, names[i], now)
  {
    assert names[..i + 1][..i] == names[..i];
  }

  /** Once an insert has failed, the later rounds do not run. */
  lemma {:induction false} LinkTagsStops(db: Db, b: int, names: seq<string>, i: nat, now: int)
    requires TagNamesUnique(db.tags) && IdsBelow(db.tags, db.nextTag)
    requires i <= |names| && LinkTags(db, b, names[..i], now).failed
    ensures LinkTags(db, b, names, now) == LinkTags(db, b, names[..i], now)
    decreases |names|
  {
    if i < |names| {
      var front := names[..|names| - 1];
      assert front[..i] == names[..i];
      LinkTagsStops(db, b, front, i, now);
    } else {
      assert names[..i] == names;
    }
  }

  /** The loop keeps the integrity rules when `b` is a bookmark, changes nothing but
      tags and links, keeps every tag, and only adds links of `b`. */
  lemma {:induction false} LinkTagsKeepsIntegrity(db: Db, b: int, names: seq<string>, now: int)
    requires Integrity(db) && b in db.bookmarks
    ensures Integrity(LinkTags(db, b, names, now).db)
    ensures LinkTags(db, b, names, now).db == db.(tags := LinkTags(db, b, names, now).db.tags,
      nextTag := LinkTags(db, b, names, now).db.nextTag, links := LinkTags(db, b, names, now).db.links)
    ensures forall t :: t in db.tags ==> t in LinkTags(db, b, names, now).db.tags && LinkTags(db, b, names, now).db.tags[t] == db.tags[t]
    ensures forall l :: l in LinkTags(db, b, names, now).db.links <==> l in db.links || (l.bookmark == b && l in LinkTags(db, b, names, now).db.links)
    decreases |names|
  {
    if names != [] {
      var front := names[..|names| - 1];
      LinkTagsKeepsIntegrity(db, b, front, now);
      var prev := LinkTags(db, b, front, now);
      if !prev.failed {
        var d := EnsureTag(prev.db, names[|names| - 1], now);
        assert LinksExist(d.links, d.bookmarks, d.tags);
      }
    }
  }

  /** The tags of bookmark `b` are exactly the tags named in `names`. */
  ghost predicate LinkedByName(db: Db, b: int, names: seq<string>)
  {
    forall t :: Link(b, t) in db.links <==> t in db.tags && db.tags[t].name in names
  }

  /** For a bookmark without links (a new one, or one whose links were just
      deleted), the loop fails exactly when some name occurs twice in the list;
      otherwise the bookmark ends up linked to exactly the tags the list names. */
  lemma {:induction false} LinkTagsRepeat(db: Db, b: int, names: seq<string>, now: int)
    requires Integrity(db) && b in db.bookmarks
    requires forall t :: Link(b, t) !in db.links
    ensures LinkTags(db, b, names, now).failed <==> !Distinct(names)
    ensures !LinkTags(db, b, names, now).failed ==> LinkedByName(LinkTags(db, b, names, now).db, b, names)
    ensures !LinkTags(db, b, names, now).failed ==>
      forall n :: n in names ==> TagNamed(LinkTags(db, b, names, now).db.tags, n).Some?
    decreases |names|
  {
    if names == [] {
    } else {
      var front := names[..|names| - 1];
      var last := names[|names| - 1];
      assert names == front + [last];
      LinkTagsRepeat(db, b, front, now);
      LinkTagsKeepsIntegrity(db, b, front, now);
      DistinctSnoc(front, last);
      var prev := LinkTags(db, b, front, now);
      if !prev.failed {
        var d := EnsureTag(prev.db, last, now);
        var t := TagIdFor(prev.db, last);
        if TagNamed(prev.db.tags, last).None? {
          assert last !in front;
          assert t !in prev.db.tags;
        }
        assert Link(b, t) in d.links <==> last in front;
        if last !in front {
          var after := d.(links := d.links + {Link(b, t)});
          forall u ensures Link(b, u) in after.links <==> u in after.tags && after.tags[u].name in names {
            if u in prev.db.tags {
              assert after.tags[u] == prev.db.tags[u];
            }
          }
          forall n | n in names ensures TagNamed(after.tags, n).Some? {
            if n in front {
              var u := TagNamed(prev.db.tags, n).value;
              assert after.tags[u].name == n;
            } else {
              assert after.tags[t].name == n;
            }
          }
        }
      }
    }
  }

  /** A list without repetitions grows by a new element into one without. */
  lemma DistinctSnoc(front: seq<string>, last: string)
    ensures Distinct(front + [last]) <==> Distinct(front) && last !in front
  {
    var s := front + [last];
    if Distinct(s) {
      forall i, j | 0 <= i < j < |front| ensures front[i] != front[j] {
        assert s[i] == front[i] && s[j] == front[j];
      }
      forall i | 0 <= i < |front| ensures front[i] != last {
        assert s[i] == front[i] && s[|front|] == last;
      }
    }
  }

  // ---------------------------------------------------------------------------
  // Bookmarks

  function WithoutLinksOf(links: set<Link>, b: int): (r: set<Link>)
    ensures forall l :: l in r <==> l in links && l.bookmark != b
  {
    set l | l in links && l.bookmark != b
  }

  /** The new row of POST /api/bookmarks. */
  function NewBookmark(input: BookmarkInput, now: int): (b: Bookmark)
    requires TruthyText(input.title) && TruthyText(input.url)
    ensures !b.isFavorite && b.visitCount == 0 && b.lastVisited.None?
  {
    Bookmark(input.title.value, input.url.value, input.description, IdOrNull(input.folder),
      TextOrNull(input.favicon), false, 0, None, now, now)
  }

  /** The names to link when the body's `tags` is a non-empty list. */
  function NamesToLink(tags: TagsField): (names: seq<string>)
    ensures tags.List? ==> names == tags.names
    ensures !tags.List? ==> names == []
  {
    if tags.List? then tags.names else []
  }

  /** POST /api/bookmarks. The bookmark row is written before the tags, so a list
      that names a tag twice leaves the bookmark (and the links made so far) in
      place and answers 500. */
  function CreateBookmark(db: Db, input: BookmarkInput, now: int): (o: Outcome<Saved<Bookmark>>)
    requires Integrity(db)
    ensures !TruthyText(input.title) || !TruthyText(input.url) ==>
      o == Outcome(BadRequest("Title and URL are required"), db)
    ensures TruthyText(input.title) && TruthyText(input.url) && TruthyId(input.folder) && input.folder.value !in db.folders ==>
      o == Outcome(Internal(ForeignKeyFailed), db)
    ensures o.reply.Created? ==> o.reply.value == Saved(db.nextBookmark, NewBookmark(input, now))
    ensures o.reply.Created? || o.reply.BadRequest? || o.reply.Internal?
    ensures CreateAccepted(db, input) ==>
      && (o.reply.Created? || o.reply == Internal(DuplicateLink))
      && o.db.bookmarks == db.bookmarks[db.nextBookmark := NewBookmark(input, now)]
      && o.db.nextBookmark == db.nextBookmark + 1
      && o.db.folders == db.folders && o.db.nextFolder == db.nextFolder
      && (forall l: Link :: l.bookmark != db.nextBookmark ==> (l in o.db.links <==> l in db.links))
      && (forall t :: t in db.tags ==> t in o.db.tags && o.db.tags[t] == db.tags[t])
      && (forall t :: t in o.db.tags && t !in db.tags ==>
            o.db.tags[t].name in NamesToLink(input.tags) && o.db.tags[t].color == DefaultColor)
  {
    if !TruthyText(input.title) || !TruthyText(input.url) then Outcome(BadRequest("Title and URL are required"), db)
    else
      var row := NewBookmark(input, now);
      if row.folder.Some? && row.folder.value !in db.folders then Outcome(Internal(ForeignKeyFailed), db)
      else InsertAndLink(db, row, NamesToLink(input.tags), now)
  }

  /** Title and URL are there and the folder, if any, exists: the INSERT goes
      through. */
  predicate CreateAccepted(db: Db, input: BookmarkInput)
  {
    TruthyText(input.title) && TruthyText(input.url) && (!TruthyId(input.folder) || input.folder.value in db.folders)
  }

  /** The INSERT of the row under the next id, then the links of its tag names.
      Whatever the reply, the row stays written, and the loop touches no other
      bookmark's links and no existing tag. */
  function InsertAndLink(db: Db, row: Bookmark, names: seq<string>, now: int): (o: Outcome<Saved<Bookmark>>)
    requires Integrity(db) && (row.folder.None? || row.folder.value in db.folders)
    ensures o.reply.Created? ==> o.reply.value == Saved(db.nextBookmark, row)
    ensures o.reply.Created? || o.reply == Internal(DuplicateLink)
    ensures o.db.bookmarks == db.bookmarks[db.nextBookmark := row] && o.db.nextBookmark == db.nextBookmark + 1
    ensures o.db.folders == db.folders && o.db.nextFolder == db.nextFolder
    ensures forall l: Link :: l.bookmark != db.nextBookmark ==> (l in o.db.links <==> l in db.links)
    ensures forall t :: t in db.tags ==> t in o.db.tags && o.db.tags[t] == db.tags[t]
    ensures forall t :: t in o.db.tags && t !in db.tags ==> o.db.tags[t].name in names && o.db.tags[t].color == DefaultColor
  {
    var id := db.nextBookmark;
    var inserted := db.(bookmarks := db.bookmarks[id := row], nextBookmark := id + 1);
    var linked := LinkTags(inserted, id, names, now);
    if linked.failed then Outcome(Internal(DuplicateLink), linked.db)
    else Outcome(Created(Saved(id, row)), linked.db)
  }

  /** The INSERT of a bookmark whose folder exists keeps the integrity rules, and
      the new row has no links yet. */
  lemma InsertKeepsIntegrity(db: Db, row: Bookmark)
    requires Integrity(db) && (row.folder.None? || row.folder.value in db.folders)
    ensures Integrity(db.(bookmarks := db.bookmarks[db.nextBookmark := row], nextBookmark := db.nextBookmark + 1))
    ensures forall t :: Link(db.nextBookmark, t) !in db.links
  {
  }

  /** Inserting a bookmark and linking its tags keeps the integrity rules and the
      folders. */
  lemma InsertAndLinkKeepsIntegrity(db: Db, row: Bookmark, names: seq<string>, now: int)
    requires Integrity(db) && (row.folder.None? || row.folder.value in db.folders)
    ensures Integrity(InsertAndLink(db, row, names, now).db)
    ensures InsertAndLink(db, row, names, now).db.folders == db.folders
  {
    var inserted := db.(bookmarks := db.bookmarks[db.nextBookmark := row], nextBookmark := db.nextBookmark + 1);
    InsertKeepsIntegrity(db, row);
    LinkTagsKeepsIntegrity(inserted, db.nextBookmark, names, now);
    assert InsertAndLink(db, row, names, now).db == LinkTags(inserted, db.nextBookmark, names, now).db;
  }

  /** After the insert, linking fails exactly when the list names a tag twice;
      when it succeeds the bookmark carries exactly the tags the list names. */
  lemma InsertAndLinkEffect(db: Db, row: Bookmark, names: seq<string>, now: int)
    requires Integrity(db) && (row.folder.None? || row.folder.value in db.folders)
    ensures db.nextBookmark in InsertAndLink(db, row, names, now).db.bookmarks
    ensures InsertAndLink(db, row, names, now).reply.Internal? <==> !Distinct(names)
    ensures InsertAndLink(db, row, names, now).reply.Created? ==>
      LinkedByName(InsertAndLink(db, row, names, now).db, db.nextBookmark, names)
  {
    var inserted := db.(bookmarks := db.bookmarks[db.nextBookmark := row], nextBookmark := db.nextBookmark + 1);
    InsertKeepsIntegrity(db, row);
    LinkTagsRepeat(inserted, db.nextBookmark, names, now);
    var linked := LinkTags(inserted, db.nextBookmark, names, now);
    var o := InsertAndLink(db, row, names, now);
    assert o.db == linked.db && (o.reply.Internal? <==> linked.failed);
  }

  /** Creating a bookmark keeps the integrity rules and the folders. */
  lemma CreateBookmarkKeepsIntegrity(db: Db, input: BookmarkInput, now: int)
    requires Integrity(db)
    ensures Integrity(CreateBookmark(db, input, now).db)
    ensures CreateBookmark(db, input, now).db.folders == db.folders
  {
    if TruthyText(input.title) && TruthyText(input.url) {
      var row := NewBookmark(input, now);
      if !(row.folder.Some? && row.folder.value !in db.folders) {
        InsertAndLinkKeepsIntegrity(db, row, NamesToLink(input.tags), now);
      }
    }
  }

  /** Once the bookmark is inserted, creating it fails exactly when the list names
      a tag twice; when it succeeds the bookmark carries exactly the tags its list
      names. */
  lemma CreateBookmarkEffect(db: Db, input: BookmarkInput, now: int)
    requires Integrity(db)
    ensures CreateAccepted(db, input) ==>
      && db.nextBookmark in CreateBookmark(db, input, now).db.bookmarks
      && (CreateBookmark(db, input, now).reply.Internal? <==> !Distinct(NamesToLink(input.tags)))
      && (CreateBookmark(db, input, now).reply.Created? <==> Distinct(NamesToLink(input.tags)))
    ensures CreateBookmark(db, input, now).reply.Created? ==>
      LinkedByName(CreateBookmark(db, input, now).db, db.nextBookmark, NamesToLink(input.tags))
  {
    if TruthyText(input.title) && TruthyText(input.url) {
      var row := NewBookmark(input, now);
      if !(row.folder.Some? && row.folder.value !in db.folders) {
        InsertAndLinkEffect(db, row, NamesToLink(input.tags), now);
      }
    }
  }

  /** The row after the UPDATE of PUT /api/bookmarks/:id: every field that was
      supplied replaces the stored one, every other keeps its value, and
      `is_favorite` changes only when it was supplied. */
  function UpdatedBookmark(b: Bookmark, input: BookmarkInput, now: int): (r: Bookmark)
    ensures input.title.None? ==> r.title == b.title
    ensures input.title.Some? ==> r.title == input.title.value
    ensures input.url.None? ==> r.url == b.url
    ensures input.url.Some? ==> r.url == input.url.value
    ensures input.description.None? ==> r.description == b.description
    ensures input.description.Some? ==> r.description == input.description
    ensures input.folder.None? ==> r.folder == b.folder
    ensures input.folder.Some? ==> r.folder == input.folder
    ensures input.favicon.None? ==> r.favicon == b.favicon
    ensures input.favicon.Some? ==> r.favicon == input.favicon
    ensures input.favorite.None? ==> r.isFavorite == b.isFavorite
    ensures input.favorite.Some? ==> r.isFavorite == input.favorite.value
    ensures r.visitCount == b.visitCount && r.lastVisited == b.lastVisited
    ensures r.createdAt == b.createdAt && r.updatedAt == now
  {
    Bookmark(
      Coalesce(input.title, b.title),
      Coalesce(input.url, b.url),
      CoalesceOpt(input.description, b.description),
      CoalesceOpt(input.folder, b.folder),
      CoalesceOpt(input.favicon, b.favicon),
      Coalesce(input.favorite, b.isFavorite),
      b.visitCount,
      b.lastVisited,
      b.createdAt,
      now)
  }

  /** The bookmark exists and a supplied folder exists: the UPDATE goes through. */
  predicate UpdateAccepted(db: Db, id: int, input: BookmarkInput)
  {
    id in db.bookmarks && !(input.folder.Some? && input.folder.value !in db.folders)
  }

  /** PUT /api/bookmarks/:id. A supplied `tags` field, list or not, first drops the
      bookmark's links; a list then links its names. */
  function UpdateBookmark(db: Db, id: int, input: BookmarkInput, now: int): (o: Outcome<Saved<Bookmark>>)
    requires Integrity(db)
    ensures id !in db.bookmarks <==> o == Outcome(NotFound("Bookmark not found"), db)
    ensures id in db.bookmarks && input.folder.Some? && input.folder.value !in db.folders ==>
      o == Outcome(Internal(ForeignKeyFailed), db)
    ensures o.reply.Ok? ==> o.reply.value == Saved(id, UpdatedBookmark(db.bookmarks[id], input, now))
    ensures o.reply.Ok? || o.reply.NotFound? || o.reply.Internal?
    ensures UpdateAccepted(db, id, input) ==>
      && (o.reply.Ok? || o.reply == Internal(DuplicateLink))
      && o.db.bookmarks == db.bookmarks[id := UpdatedBookmark(db.bookmarks[id], input, now)]
      && o.db == db.(bookmarks := o.db.bookmarks, tags := o.db.tags, nextTag := o.db.nextTag, links := o.db.links)
      && (forall l: Link :: l.bookmark != id ==> (l in o.db.links <==> l in db.links))
      && (forall t :: t in db.tags ==> t in o.db.tags && o.db.tags[t] == db.tags[t])
      && (forall t :: t in o.db.tags && t !in db.tags ==>
            o.db.tags[t].name in NamesToLink(input.tags) && o.db.tags[t].color == DefaultColor)
  {
    if id !in db.bookmarks then Outcome(NotFound("Bookmark not found"), db)
    else if input.folder.Some? && input.folder.value !in db.folders then Outcome(Internal(ForeignKeyFailed), db)
    else
      var row := UpdatedBookmark(db.bookmarks[id], input, now);
      var updated := db.(bookmarks := db.bookmarks[id := row]);
      if input.tags.Absent? then Outcome(Ok(Saved(id, row)), updated)
      else
        var cleared := updated.(links := WithoutLinksOf(updated.links, id));
        var linked := LinkTags(cleared, id, NamesToLink(input.tags), now);
        if linked.failed then Outcome(Internal(DuplicateLink), linked.db)
        else Outcome(Ok(Saved(id, row)), linked.db)
  }

  /** Updating a bookmark keeps the integrity rules; without a `tags` field its tags
      stay as they were, with one they become exactly the tags the list names. */
  lemma UpdateBookmarkEffect(db: Db, id: int, input: BookmarkInput, now: int)
    requires Integrity(db)
    ensures Integrity(UpdateBookmark(db, id, input, now).db)
    ensures UpdateBookmark(db, id, input, now).db.folders == db.folders
    ensures UpdateBookmark(db, id, input, now).reply.Ok? && input.tags.Absent? ==>
      UpdateBookmark(db, id, input, now).db.links == db.links
    ensures UpdateBookmark(db, id, input, now).reply.Ok? && !input.tags.Absent? ==>
      LinkedByName(UpdateBookmark(db, id, input, now).db, id, NamesToLink(input.tags))
    ensures UpdateBookmark(db, id, input, now).reply == Internal(DuplicateLink) <==>
      UpdateAccepted(db, id, input) && !input.tags.Absent? && !Distinct(NamesToLink(input.tags))
    ensures UpdateBookmark(db, id, input, now).reply.Ok? <==>
      UpdateAccepted(db, id, input) && (input.tags.Absent? || Distinct(NamesToLink(input.tags)))
  {
    if id in db.bookmarks && !(input.folder.Some? && input.folder.value !in db.folders) {
      var row := UpdatedBookmark(db.bookmarks[id], input, now);
      var updated := db.(bookmarks := db.bookmarks[id := row]);
      assert Integrity(updated);
      if !input.tags.Absent? {
        var cleared := updated.(links := WithoutLinksOf(updated.links, id));
        assert Integrity(cleared);
        LinkTagsKeepsIntegrity(cleared, id, NamesToLink(input.tags), now);
        LinkTagsRepeat(cleared, id, NamesToLink(input.tags), now);
      }
    }
  }

  /** DELETE /api/bookmarks/:id: the bookmark goes, and its links with it. */
  function DeleteBookmark(db: Db, id: int): (o: Outcome<string>)
    ensures id !in db.bookmarks ==> o == Outcome(NotFound("Bookmark not found"), db)
    ensures id in db.bookmarks ==>
      && o.reply == Ok("Bookmark deleted successfully")
      && o.db == db.(bookmarks := db.bookmarks - {id}, links := WithoutLinksOf(db.links, id))
  {
    if id !in db.bookmarks then Outcome(NotFound("Bookmark not found"), db)
    else Outcome(Ok("Bookmark deleted successfully"), db.(bookmarks := db.bookmarks - {id}, links := WithoutLinksOf(db.links, id)))
  }

  lemma DeleteBookmarkKeepsIntegrity(db: Db, id: int)
    requires Integrity(db)
    ensures Integrity(DeleteBookmark(db, id).db)
  {
  }

  /** POST /api/bookmarks/:id/visit: one more visit, stamped with the time. */
  function VisitBookmark(db: Db, id: int, now: int): (o: Outcome<Saved<Bookmark>>)
    ensures id !in db.bookmarks ==> o == Outcome(NotFound("Bookmark not found"), db)
    ensures id in db.bookmarks ==>
      && o.reply.Ok? && o.reply.value.id == id
      && o.reply.value.row.visitCount == db.bookmarks[id].visitCount + 1
      && o.reply.value.row.lastVisited == Some(now)
      && o.reply.value.row == db.bookmarks[id].(visitCount := db.bookmarks[id].visitCount + 1, lastVisited := Some(now))
      && o.db == db.(bookmarks := db.bookmarks[id := o.reply.value.row])
  {
    if id !in db.bookmarks then Outcome(NotFound("Bookmark not found"), db)
    else
      var b := db.bookmarks[id];
      var row := b.(visitCount := b.visitCount + 1, lastVisited := Some(now));
      Outcome(Ok(Saved(id, row)), db.(bookmarks := db.bookmarks[id := row]))
  }

  /** `n` visits add `n` to the count. */
  lemma {:induction false} VisitsAddUp(db: Db, id: int, n: nat, now: int)
    requires id in db.bookmarks
    ensures id in Visits(db, id, n, now).bookmarks
    ensures Visits(db, id, n, now).bookmarks[id].visitCount == db.bookmarks[id].visitCount + n
    decreases n
  {
    if n > 0 {
      VisitsAddUp(db, id, n - 1, now);
    }
  }

  function Visits(db: Db, id: int, n: nat, now: int): Db
    decreases n
  {
    if n == 0 then db else VisitBookmark(Visits(db, id, n - 1, now), id, now).db
  }

  lemma VisitKeepsIntegrity(db: Db, id: int, now: int)
    requires Integrity(db)
    ensures Integrity(VisitBookmark(db, id, now).db)
  {
  }
}
