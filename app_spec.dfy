/**
 * The store rules that live in the web handlers: the book identifier, the
 * whitelist of tags a request may attach or detach, and what creating,
 * attaching, detaching, editing and deleting tags do to a snapshot of the
 * store. The handlers themselves (module `App`) are proved to follow these
 * functions.
 */
module AppSpec {
  import opened Options
  import opened Schema
  import StoreSpec
  import PosixPath

  /** `AVAILABLE_TAGS`: the tags a request may attach or detach, and the default tags that are protected. */
  const AvailableTags: seq<string> := ["finished", "in_progress", "backlog"]

  lemma AvailableTagsAreReadingStatuses()
    ensures forall n :: n in AvailableTags <==> IsReadingStatus(n)
  {
  }

  /** `get_book_path`: the identifier of a book, from its folder and file name. */
  function GetBookPath(folder: string, filename: string): string {
    if folder == Root then filename else folder + "/" + filename
  }

  /**
   * Splitting an identifier built by `GetBookPath` gives back its folder and
   * file name, provided the file name holds no '/' and the folder is the root
   * or a non-empty name that does not end in '/'.
   */
  lemma SplitBookPathRoundTrip(folder: string, filename: string)
    requires '/' !in filename
    requires folder == Root || (folder != [] && folder[|folder| - 1] != '/')
    ensures SplitBookPath(GetBookPath(folder, filename)) == (folder, filename)
  {
    if folder != Root {
      PosixPath.SplitJoin(folder, filename);
      assert '/' in GetBookPath(folder, filename) by {
        assert GetBookPath(folder, filename)[|folder|] == '/';
      }
    }
  }

  // ---------------------------------------------------------------- responses

  /** Outcome of `update_tag` (attach or detach one whitelisted tag). */
  datatype TagUpdate = InvalidParameters | Updated(success: bool)

  /** Outcome of `create_tag`. */
  datatype TagCreation = NameRequired | Created(id: TagId, tag: Tag)

  /** Outcome of `update_tag_details`; a failed commit lands in the handler's error branch. */
  datatype TagEdit = EditNameRequired | EditNotFound | EditDefaultTag | EditCommitFailed | Edited(id: TagId, tag: Tag)

  /** Outcome of `delete_tag`. */
  datatype TagDeletion = DeleteNotFound | DeleteDefaultTag | Deleted

  // ---------------------------------------------------------------- attach / detach

  /** The parameter check of `update_tag`, made before the store is touched. */
  predicate ValidTagRequest(bookPath: Option<string>, tag: Option<string>) {
    bookPath.Some? && bookPath.value != "" && tag.Some? && tag.value != "" && tag.value in AvailableTags
  }

  /** `update_tag`: attach when the action is "add" (the default), detach for any other action. */
  ghost function UpdateTag(d: Db, bookPath: Option<string>, tag: Option<string>, action: Option<string>): (TagUpdate, Db) {
    if !ValidTagRequest(bookPath, tag) then (InvalidParameters, d)
    else if action.None? || action.value == "add" then (Updated(true), StoreSpec.AddTagToBook(d, bookPath.value, tag.value))
    else
      var res := StoreSpec.RemoveTagFromBook(d, bookPath.value, tag.value);
      (Updated(res.0), res.1)
  }

  /**
   * A request with a missing or empty path, or a tag outside the whitelist, is
   * rejected with the store unchanged; an attach always succeeds and leaves the
   * tag as the book's only reading status; a detach reports whether the book
   * carried the tag; the store stays valid.
   */
  lemma UpdateTagOutcome(d: Db, bookPath: Option<string>, tag: Option<string>, action: Option<string>)
    requires Valid(d)
    ensures var (resp, r) := UpdateTag(d, bookPath, tag, action);
      && Valid(r)
      && (!ValidTagRequest(bookPath, tag) ==> resp == InvalidParameters && r == d)
      && (ValidTagRequest(bookPath, tag) && (action.None? || action.value == "add") ==>
            resp == Updated(true) && StatusesOf(r, bookPath.value) == {tag.value})
      && (ValidTagRequest(bookPath, tag) && !(action.None? || action.value == "add") ==>
            resp == Updated(tag.value in BookTags(d, bookPath.value)) && tag.value !in BookTags(r, bookPath.value))
  {
    if ValidTagRequest(bookPath, tag) {
      var path, name := bookPath.value, tag.value;
      assert IsReadingStatus(name);
      if action.None? || action.value == "add" {
        StoreSpec.AddTagToBookKeepsValid(d, path, name);
        StoreSpec.AddTagToBookTags(d, path, name);
      } else {
        StoreSpec.RemoveTagFromBookMeaning(d, path, name);
        StoreSpec.RemoveTagFromBookTags(d, path, name);
      }
    }
  }

  // ---------------------------------------------------------------- create

  /** `create_tag`: a missing or empty name is rejected; otherwise get or create the tag (description defaults to ""). */
  ghost function CreateTag(d: Db, name: Option<string>, description: Option<string>): (TagCreation, Db) {
    if name.None? || name.value == "" then (NameRequired, d)
    else
      var res := StoreSpec.GetOrCreateTag(d, name.value, Some(if description.Some? then description.value else ""));
      (Created(res.1, res.0.tags[res.1]), res.0)
  }

  /** Creating a tag never duplicates a name, never overwrites an existing tag, and keeps the store valid. */
  lemma CreateTagOutcome(d: Db, name: Option<string>, description: Option<string>)
    requires Valid(d)
    ensures var (resp, r) := CreateTag(d, name, description);
      && Valid(r)
      && r.books == d.books && r.assoc == d.assoc
      && (name.None? || name.value == "" ==> resp == NameRequired && r == d)
      && (name.Some? && name.value != "" ==> resp.Created?)
      && (resp.Created? ==> resp.id in r.tags && resp.tag == r.tags[resp.id] && resp.tag.name == name.value)
      && (name.Some? && IdOf(d.tags, name.value).Some? ==> r == d)
      && (forall id :: id in d.tags ==> id in r.tags && r.tags[id] == d.tags[id])
      && (forall id :: id in r.tags && id !in d.tags ==>
            && IdOf(d.tags, r.tags[id].name).None?
            && resp.Created? && id == resp.id
            && r.tags[id] == Tag(name.value, Some(if description.Some? then description.value else "")))
  {
  }

  // ---------------------------------------------------------------- edit

  /** Another tag than `id` already holds the name (the unique index would refuse the commit). */
  ghost predicate NameTakenByOther(d: Db, id: TagId, name: string) {
    exists other :: other in d.tags && other != id && d.tags[other].name == name
  }

  /**
   * `update_tag_details`: a missing or empty name is rejected, then an unknown
   * id; a default tag may not change its name; a name held by another tag makes
   * the commit fail; otherwise name and description (default "") are replaced.
   */
  ghost function UpdateTagDetails(d: Db, id: TagId, name: Option<string>, description: Option<string>): (TagEdit, Db) {
    if name.None? || name.value == "" then (EditNameRequired, d)
    else if id !in d.tags then (EditNotFound, d)
    else if d.tags[id].name in AvailableTags && name.value != d.tags[id].name then (EditDefaultTag, d)
    else if NameTakenByOther(d, id, name.value) then (EditCommitFailed, d)
    else
      var tag := Tag(name.value, Some(if description.Some? then description.value else ""));
      (Edited(id, tag), d.(tags := d.tags[id := tag]))
  }

  /**
   * Editing keeps the store valid; a reading-status tag keeps its name whatever
   * the request; an edit that fails changes nothing; a successful edit changes
   * that one tag only, and its books now carry it under the new name.
   */
  lemma UpdateTagDetailsOutcome(d: Db, id: TagId, name: Option<string>, description: Option<string>)
    requires Valid(d)
    ensures var (resp, r) := UpdateTagDetails(d, id, name, description);
      && Valid(r)
      && r.books == d.books && r.assoc == d.assoc && r.tags.Keys == d.tags.Keys
      && (!resp.Edited? ==> r == d)
      && (name.None? || name.value == "" <==> resp == EditNameRequired)
      && (name.Some? && name.value != "" && id !in d.tags <==> resp == EditNotFound)
      && (resp == EditDefaultTag <==>
            name.Some? && name.value != "" && id in d.tags
            && IsReadingStatus(d.tags[id].name) && name.value != d.tags[id].name)
      && (resp == EditCommitFailed <==>
            name.Some? && name.value != "" && id in d.tags
            && !(IsReadingStatus(d.tags[id].name) && name.value != d.tags[id].name)
            && NameTakenByOther(d, id, name.value))
      && (id in d.tags && IsReadingStatus(d.tags[id].name) ==> r.tags[id].name == d.tags[id].name)
      && (resp.Edited? ==>
            && resp.id == id && r.tags[id] == resp.tag
            && resp.tag == Tag(name.value, Some(if description.Some? then description.value else ""))
            && (forall j :: j in d.tags && j != id ==> r.tags[j] == d.tags[j])
            && BooksWithTag(r, name.value) == BooksWithTag(d, d.tags[id].name))
  {
    var (resp, r) := UpdateTagDetails(d, id, name, description);
    AvailableTagsAreReadingStatuses();
    if resp.Edited? {
      assert Retagged(d, r, id);
      RetagKeepsValid(d, r, id);
      RetagKeepsBooks(d, r, id);
    }
  }

  /** `r` is `d` with the tag `id` edited as the edit rule allows. */
  ghost predicate Retagged(d: Db, r: Db, id: TagId) {
    && id in d.tags
    && r.books == d.books && r.assoc == d.assoc && r.nextTagId == d.nextTagId && r.tags.Keys == d.tags.Keys
    && (forall j :: j in d.tags && j != id ==> r.tags[j] == d.tags[j])
    && (IsReadingStatus(d.tags[id].name) ==> r.tags[id].name == d.tags[id].name)
    && !NameTakenByOther(d, id, r.tags[id].name)
  }

  /** An allowed edit keeps the store invariant. */
  lemma RetagKeepsValid(d: Db, r: Db, id: TagId)
    requires Valid(d) && Retagged(d, r, id)
    ensures Valid(r)
  {
    assert UniqueNames(r.tags);
    forall s | s in ReadingStatuses
      ensures exists i :: i in r.tags && r.tags[i].name == s
    {
      var i :| i in d.tags && d.tags[i].name == s;
      assert r.tags[i].name == s;
    }
    forall p, i, j | (p, i) in r.assoc && (p, j) in r.assoc && IsStatusTag(r, i) && IsStatusTag(r, j)
      ensures i == j
    {
      // A status name held after the edit was held by the same tag before it.
      StatusNameHeldBefore(d, r, id, i);
      StatusNameHeldBefore(d, r, id, j);
    }
  }

  /** After an allowed edit, the books carrying the tag under its new name are those that carried it under the old one. */
  lemma RetagKeepsBooks(d: Db, r: Db, id: TagId)
    requires Valid(d) && Retagged(d, r, id)
    ensures BooksWithTag(r, r.tags[id].name) == BooksWithTag(d, d.tags[id].name)
  {
    var newName, oldName := r.tags[id].name, d.tags[id].name;
    forall p ensures p in BooksWithTag(r, newName) <==> p in BooksWithTag(d, oldName) {
      if p in BooksWithTag(r, newName) {
        var a :| a in r.assoc && a.1 in r.tags && r.tags[a.1].name == newName && a.0 == p;
        assert a.1 == id;
      }
      if p in BooksWithTag(d, oldName) {
        var a :| a in d.assoc && a.1 in d.tags && d.tags[a.1].name == oldName && a.0 == p;
        assert a.1 == id;
        assert a in r.assoc;
      }
    }
  }

  /** After a successful edit, every tag named with a reading status had that name before the edit. */
  lemma StatusNameHeldBefore(d: Db, r: Db, id: TagId, i: TagId)
    requires Valid(d) && Retagged(d, r, id)
    requires IsStatusTag(r, i)
    ensures IsStatusTag(d, i) && d.tags[i].name == r.tags[i].name
  {
    if i == id {
      var n := r.tags[id].name;
      var k :| k in d.tags && d.tags[k].name == n;
      assert k == id;
    }
  }

  // ---------------------------------------------------------------- delete

  /**
   * `delete_tag`: an unknown id is not found; a default tag may not be
   * deleted; otherwise the tag is detached from every book and removed.
   */
  ghost function DeleteTag(d: Db, id: TagId): (TagDeletion, Db) {
    if id !in d.tags then (DeleteNotFound, d)
    else if d.tags[id].name in AvailableTags then (DeleteDefaultTag, d)
    else (Deleted, d.(tags := d.tags - {id}, assoc := set a | a in d.assoc && a.1 != id))
  }

  /**
   * Deleting keeps the store valid. A reading-status tag is never deleted and
   * the store is then unchanged. A deleted tag is carried by no book, is gone
   * from the tag names (so from the usage statistics), and every other
   * association is kept.
   */
  lemma DeleteTagOutcome(d: Db, id: TagId)
    requires Valid(d)
    ensures var (resp, r) := DeleteTag(d, id);
      && Valid(r)
      && (!resp.Deleted? ==> r == d)
      && (id !in d.tags <==> resp == DeleteNotFound)
      && (id in d.tags && IsReadingStatus(d.tags[id].name) <==> resp == DeleteDefaultTag)
      && (id in d.tags && !IsReadingStatus(d.tags[id].name) <==> resp == Deleted)
      && (resp.Deleted? ==>
            && id in d.tags
            && BooksOfTag(r, id) == {}
            && BooksWithTag(r, d.tags[id].name) == {}
            && d.tags[id].name !in TagNames(r)
            && r.books == d.books
            && (forall j :: j in r.tags <==> j in d.tags && j != id)
            && (forall j :: j in r.tags ==> r.tags[j] == d.tags[j])
            && r.nextTagId == d.nextTagId
            && (forall p, j :: j != id ==> ((p, j) in r.assoc <==> (p, j) in d.assoc)))
  {
    var (resp, r) := DeleteTag(d, id);
    AvailableTagsAreReadingStatuses();
    if resp.Deleted? {
      var name := d.tags[id].name;
      assert Seeded(r) by {
        forall s | s in ReadingStatuses
          ensures exists i :: i in r.tags && r.tags[i].name == s
        {
          var i :| i in d.tags && d.tags[i].name == s;
          assert i != id;
          assert i in r.tags;
        }
      }
      assert IdOf(r.tags, name).None?;
      forall p, j | (p, j) in r.assoc && IsStatusTag(r, j)
        ensures IsStatusTag(d, j)
      {
      }
    }
  }

  // ---------------------------------------------------------------- scenarios

  /** Attaching one reading status after another leaves the book with the later one only. */
  lemma StatusOverwrite(d: Db, path: string, first: string, second: string)
    requires Valid(d) && IsReadingStatus(first) && IsReadingStatus(second)
    ensures var r := StoreSpec.AddTagToBook(StoreSpec.AddTagToBook(d, path, first), path, second);
      && StatusesOf(r, path) == {second}
      && BookTags(r, path) == (set n | n in BookTags(d, path) && !IsReadingStatus(n)) + {second}
  {
    var r1 := StoreSpec.AddTagToBook(d, path, first);
    StoreSpec.AddTagToBookTags(d, path, first);
    StoreSpec.AddTagToBookKeepsValid(d, path, first);
    StoreSpec.AddTagToBookTags(r1, path, second);
    NonStatusAfterStatus(BookTags(d, path), first);
  }

  /** A user tag stays on a book when a reading status is attached after it. */
  lemma UserTagSurvivesStatus(d: Db, path: string, user: string, status: string)
    requires Valid(d) && !IsReadingStatus(user) && IsReadingStatus(status)
    ensures var r := StoreSpec.AddTagToBook(StoreSpec.AddTagToBook(d, path, user), path, status);
      BookTags(r, path) == (set n | n in BookTags(d, path) && !IsReadingStatus(n)) + {user, status}
  {
    var r1 := StoreSpec.AddTagToBook(d, path, user);
    StoreSpec.AddTagToBookTags(d, path, user);
    StoreSpec.AddTagToBookKeepsValid(d, path, user);
    StoreSpec.AddTagToBookTags(r1, path, status);
    NonStatusAfterAdd(BookTags(d, path), user);
  }

  lemma NonStatusAfterAdd(names: set<string>, user: string)
    requires !IsReadingStatus(user)
    ensures (set n | n in names + {user} && !IsReadingStatus(n)) == (set n | n in names && !IsReadingStatus(n)) + {user}
  {
  }

  lemma NonStatusAfterStatus(names: set<string>, status: string)
    requires IsReadingStatus(status)
    ensures (set n | n in (set m | m in names && !IsReadingStatus(m)) + {status} && !IsReadingStatus(n)) == (set n | n in names && !IsReadingStatus(n))
  {
  }

  /** Detaching from an unknown book reports false and creates nothing. */
  lemma DetachUnknownBookScenario(d: Db)
    requires Consistent(d) && "missing.pdf" !in d.books
    ensures StoreSpec.RemoveTagFromBook(d, "missing.pdf", "finished") == (false, d)
  {
  }

  /** Deleting the "finished" tag is refused and leaves the store unchanged. */
  lemma DeleteFinishedScenario(d: Db)
    requires Valid(d)
    ensures IdOf(d.tags, "finished").Some?
    ensures DeleteTag(d, IdOf(d.tags, "finished").value) == (DeleteDefaultTag, d)
  {
    assert "finished" in ReadingStatuses;
  }
}
