/** The SQLite database behind the controllers as an object: one field per table
    and one AUTOINCREMENT counter per table with an integer key. Each method is one
    request handler; it changes the tables statement by statement and ends in the
    state, with the reply, that the matching function of `Transitions` describes. */
module Store {
  import opened Common
  import opened Schema
  import opened Hierarchy
  import Transitions

  class Store {
    var folders: map<int, Folder>
    var tags: map<int, Tag>
    var bookmarks: map<int, Bookmark>
    var links: set<Link>
    var nextFolder: int
    var nextTag: int
    var nextBookmark: int

    /** The tables as a value, for the queries. */
    function Snapshot(): Db
      reads this
    {
      Db(folders, tags, bookmarks, links, nextFolder, nextTag, nextBookmark)
    }

    /** The foreign keys and the UNIQUE rule hold, and, since every move goes
        through the cycle guard, no folder lies on a cycle. */
    ghost predicate Valid()
      reads this
    {
      Integrity(Snapshot()) && Acyclic(folders)
    }

    /** `initializeDatabase`: all tables empty. */
    constructor ()
      ensures Valid()
      ensures Snapshot() == EmptyDb()
    {
      folders := map[];
      tags := map[];
      bookmarks := map[];
      links := {};
      nextFolder := 1;
      nextTag := 1;
      nextBookmark := 1;
    }

    // -------------------------------------------------------------------------
    // Folders

    /** `isDescendant(folderId, ancestorId)`: climbs the parent references from
        `folderId` and answers whether it meets `ancestorId` before a root. With the
        tree free of cycles the loop ends. */
    method IsDescendant(folderId: int, ancestorId: int) returns (b: bool)
      requires Valid()
      ensures b <==> AncestorOrSelf(folders, ancestorId, folderId)
    {
      ghost var top: nat;
      if folderId in folders {
        assert ChainEnds(folders, Some(folderId));
        top :| Climb(folders, Some(folderId), top) == None;
      } else {
        top := 1;
        assert Climb(folders, Some(folderId), 1) == None;
      }
      var current := Some(folderId);
      ghost var steps: nat := 0;
      while current.Some?
        invariant steps <= top
        invariant Climb(folders, Some(folderId), steps) == current
        invariant Climb(folders, current, top - steps) == None
        invariant forall i: nat :: i < steps ==> Climb(folders, Some(folderId), i) != Some(ancestorId)
        decreases top - steps
      {
        if current.value == ancestorId {
          return true;
        }
        ClimbAdd(folders, Some(folderId), steps, 1);
        current := ParentOf(folders, current.value);
        steps := steps + 1;
      }
      forall k: nat ensures Climb(folders, Some(folderId), k) != Some(ancestorId) {
        if k >= steps {
          ClimbStays(folders, Some(folderId), steps, k);
        }
      }
      return false;
    }

    /** `createFolder` */
    method CreateFolder(input: Transitions.FolderInput, now: int) returns (r: Reply<Transitions.Saved<Folder>>)
      requires Valid()
      modifies this
      ensures Valid()
      ensures Transitions.Outcome(r, Snapshot()) == Transitions.CreateFolder(old(Snapshot()), input, now)
    {
      Transitions.CreateFolderKeepsIntegrity(Snapshot(), input, now);
      if !TruthyText(input.name) {
        return BadRequest("Name is required");
      }
      var parent := IdOrNull(input.parent);
      if parent.Some? && parent.value !in folders {
        return Internal(Transitions.ForeignKeyFailed);
      }
      var f := Folder(input.name.value, TextOrNull(input.description), parent, now, now);
      var id := nextFolder;
      folders := folders[id := f];
      nextFolder := id + 1;
      return Created(Transitions.Saved(id, f));
    }

    /** `updateFolder`, with the cycle guard asking whether the new parent lies
        below the folder (the code as written asks the opposite question). */
    method UpdateFolder(id: int, input: Transitions.FolderInput, now: int) returns (r: Reply<Transitions.Saved<Folder>>)
      requires Valid()
      modifies this
      ensures Valid()
      ensures Transitions.Outcome(r, Snapshot()) == Transitions.UpdateFolder(old(Snapshot()), id, input, now)
    {
      Transitions.UpdateFolderKeepsIntegrity(Snapshot(), id, input, now);
      if id !in folders {
        return NotFound("Folder not found");
      }
      if TruthyId(input.parent) {
        var cycle := IsDescendant(input.parent.value, id);
        if cycle {
          return BadRequest("Cannot move folder into its own descendant");
        }
      }
      var parent := IdOrNull(input.parent);
      if parent.Some? && parent.value !in folders {
        return Internal(Transitions.ForeignKeyFailed);
      }
      var existing := folders[id];
      var f := Folder(Coalesce(input.name, existing.name), CoalesceOpt(input.description, existing.description),
        parent, existing.createdAt, now);
      folders := folders[id := f];
      return Ok(Transitions.Saved(id, f));
    }

    /** `deleteFolder` */
    method DeleteFolder(id: int) returns (r: Reply<string>)
      requires Valid()
      modifies this
      ensures Valid()
      ensures Transitions.Outcome(r, Snapshot()) == Transitions.DeleteFolder(old(Snapshot()), id)
    {
      if id !in folders {
        return NotFound("Folder not found");
      }
      Transitions.DeleteFolderKeepsIntegrity(Snapshot(), id);
      Transitions.DeleteFolderKeepsAcyclic(Snapshot(), id);
      bookmarks := Transitions.Rehome(bookmarks, id, folders[id].parent);
      var gone := Cascade(folders, id);
      folders := Transitions.Without(folders, gone);
      bookmarks := Transitions.Unfile(bookmarks, gone);
      return Ok("Folder deleted successfully");
    }

    // -------------------------------------------------------------------------
    // Tags

    /** `createTag` */
    method CreateTag(input: Transitions.TagInput, now: int) returns (r: Reply<Transitions.Saved<Tag>>)
      requires Valid()
      modifies this
      ensures Valid()
      ensures Transitions.Outcome(r, Snapshot()) == Transitions.CreateTag(old(Snapshot()), input, now)
    {
      Transitions.CreateTagKeepsIntegrity(Snapshot(), input, now);
      if !TruthyText(input.name) {
        return BadRequest("Name is required");
      }
      if TagNamed(tags, input.name.value).Some? {
        return Conflict("Tag with this name already exists");
      }
      var t := Tag(input.name.value, Coalesce(input.color, DefaultColor), now);
      var id := nextTag;
      tags := tags[id := t];
      nextTag := id + 1;
      return Created(Transitions.Saved(id, t));
    }

    /** `updateTag` */
    method UpdateTag(id: int, input: Transitions.TagInput) returns (r: Reply<Transitions.Saved<Tag>>)
      requires Valid()
      modifies this
      ensures Valid()
      ensures Transitions.Outcome(r, Snapshot()) == Transitions.UpdateTag(old(Snapshot()), id, input)
    {
      Transitions.UpdateTagKeepsIntegrity(Snapshot(), id, input);
      if id !in tags {
        return NotFound("Tag not found");
      }
      var name := Coalesce(input.name, tags[id].name);
      var clash := TagNamed(tags, name);
      if clash.Some? && clash.value != id {
        return Conflict("Tag with this name already exists");
      }
      var t := Tag(name, Coalesce(input.color, tags[id].color), tags[id].createdAt);
      tags := tags[id := t];
      return Ok(Transitions.Saved(id, t));
    }

    /** `deleteTag` */
    method DeleteTag(id: int) returns (r: Reply<string>)
      requires Valid()
      modifies this
      ensures Valid()
      ensures Transitions.Outcome(r, Snapshot()) == Transitions.DeleteTag(old(Snapshot()), id)
    {
      Transitions.DeleteTagKeepsIntegrity(Snapshot(), id);
      if id !in tags {
        return NotFound("Tag not found");
      }
      tags := tags - {id};
      links := Transitions.WithoutLinksOfTag(links, id);
      return Ok("Tag deleted successfully");
    }

    // -------------------------------------------------------------------------
    // Bookmarks

    /** The `tags.forEach` loop of `createBookmark` and `updateBookmark`: for each
        name, `INSERT OR IGNORE` the tag, look its id up and insert the link; a link
        that is already there throws, which ends the loop. */
    method LinkTags(b: int, names: seq<string>, now: int) returns (failed: bool)
      requires Valid() && b in bookmarks
      modifies this
      ensures Valid()
      ensures Transitions.Linked(Snapshot(), failed) == Transitions.LinkTags(old(Snapshot()), b, names, now)
    {
      ghost var before := Snapshot();
      Transitions.LinkTagsKeepsIntegrity(before, b, names, now);
      failed := false;
      var i := 0;
      while i < |names| && !failed
        invariant 0 <= i <= |names|
        invariant Transitions.Linked(Snapshot(), failed) == Transitions.LinkTags(before, b, names[..i], now)
        decreases |names| - i
      {
        Transitions.LinkTagsSnoc(before, b, names, i, now);
        failed := LinkName(b, names[i], now);
        i := i + 1;
      }
      if failed {
        Transitions.LinkTagsStops(before, b, names, i, now);
      } else {
        assert names[..i] == names;
      }
    }

    /** One round of the loop over the tag names: `INSERT OR IGNORE` the tag, look
        up its id, and insert the link, which fails when it is already there. */
    method LinkName(b: int, name: string, now: int) returns (failed: bool)
      requires TagNamesUnique(tags) && IdsBelow(tags, nextTag)
      modifies this
      ensures Transitions.Linked(Snapshot(), failed) == Transitions.LinkOne(old(Snapshot()), b, name, now)
    {
      ghost var d := Snapshot();
      var t: int;
      var found := TagNamed(tags, name);
      if found.Some? {
        t := found.value;
      } else {
        t := nextTag;
        tags := tags[t := Tag(name, DefaultColor, now)];
        nextTag := t + 1;
      }
      assert Snapshot() == Transitions.EnsureTag(d, name, now);
      assert t == Transitions.TagIdFor(d, name);
      failed := Link(b, t) in links;
      if !failed {
        links := links + {Link(b, t)};
      }
    }

    /** `createBookmark` */
    method CreateBookmark(input: Transitions.BookmarkInput, now: int) returns (r: Reply<Transitions.Saved<Bookmark>>)
      requires Valid()
      modifies this
      ensures Valid()
      ensures Transitions.Outcome(r, Snapshot()) == Transitions.CreateBookmark(old(Snapshot()), input, now)
    {
      if !TruthyText(input.title) || !TruthyText(input.url) {
        return BadRequest("Title and URL are required");
      }
      var row := Transitions.NewBookmark(input, now);
      if row.folder.Some? && row.folder.value !in folders {
        return Internal(Transitions.ForeignKeyFailed);
      }
      var id := nextBookmark;
      bookmarks := bookmarks[id := row];
      nextBookmark := id + 1;
      var failed := LinkTags(id, Transitions.NamesToLink(input.tags), now);
      if failed {
        return Internal(Transitions.DuplicateLink);
      }
      return Created(Transitions.Saved(id, row));
    }

    /** `updateBookmark` */
    method UpdateBookmark(id: int, input: Transitions.BookmarkInput, now: int) returns (r: Reply<Transitions.Saved<Bookmark>>)
      requires Valid()
      modifies this
      ensures Valid()
      ensures Transitions.Outcome(r, Snapshot()) == Transitions.UpdateBookmark(old(Snapshot()), id, input, now)
    {
      if id !in bookmarks {
        return NotFound("Bookmark not found");
      }
      if input.folder.Some? && input.folder.value !in folders {
        return Internal(Transitions.ForeignKeyFailed);
      }
      var row := Transitions.UpdatedBookmark(bookmarks[id], input, now);
      bookmarks := bookmarks[id := row];
      if !input.tags.Absent? {
        links := Transitions.WithoutLinksOf(links, id);
        var failed := LinkTags(id, Transitions.NamesToLink(input.tags), now);
        if failed {
          return Internal(Transitions.DuplicateLink);
        }
      }
      return Ok(Transitions.Saved(id, row));
    }

    /** `deleteBookmark` */
    method DeleteBookmark(id: int) returns (r: Reply<string>)
      requires Valid()
      modifies this
      ensures Valid()
      ensures Transitions.Outcome(r, Snapshot()) == Transitions.DeleteBookmark(old(Snapshot()), id)
    {
      Transitions.DeleteBookmarkKeepsIntegrity(Snapshot(), id);
      if id !in bookmarks {
        return NotFound("Bookmark not found");
      }
      bookmarks := bookmarks - {id};
      links := Transitions.WithoutLinksOf(links, id);
      return Ok("Bookmark deleted successfully");
    }

    /** `visitBookmark` */
    method VisitBookmark(id: int, now: int) returns (r: Reply<Transitions.Saved<Bookmark>>)
      requires Valid()
      modifies this
      ensures Valid()
      ensures Transitions.Outcome(r, Snapshot()) == Transitions.VisitBookmark(old(Snapshot()), id, now)
    {
      Transitions.VisitKeepsIntegrity(Snapshot(), id, now);
      if id !in bookmarks {
        return NotFound("Bookmark not found");
      }
      var b := bookmarks[id];
      var row := b.(visitCount := b.visitCount + 1, lastVisited := Some(now));
      bookmarks := bookmarks[id := row];
      return Ok(Transitions.Saved(id, row));
    }
  }
}
