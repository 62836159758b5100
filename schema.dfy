/**
 * The three tables of the tag store and the read-only queries over them.
 *
 * A snapshot of the store is a `Db` value: books keyed by their unique path,
 * tags keyed by their surrogate id (the name is unique too, but a rename keeps
 * the id), and the join table as a set of (book path, tag id) pairs, so that a
 * pair can only occur once.
 */
module Schema {
  import opened Options
  import PosixPath

  /** Folder name that stands for the top of the books directory. */
  const Root: string := "root"

  /** The reading-status tags; a book carries at most one of them. */
  const ReadingStatuses: seq<string> := ["finished", "in_progress", "backlog"]

  predicate IsReadingStatus(name: string) {
    name in ReadingStatuses
  }

  /** A row of the book table (its key, the path, is the key of `Db.books`). */
  datatype Book = Book(folder: string, filename: string)

  /** A row of the tag table; the description column is nullable. */
  datatype Tag = Tag(name: string, description: Option<string>)

  type TagId = nat

  datatype Db = Db(
    books: map<string, Book>,
    tags: map<TagId, Tag>,
    assoc: set<(string, TagId)>,
    nextTagId: TagId)

  /** A freshly created database file: three empty tables. */
  const EmptyDb: Db := Db(map[], map[], {}, 1)

  // ---------------------------------------------------------------- invariants

  /** The unique constraint on the tag name column. */
  ghost predicate UniqueNames(tags: map<TagId, Tag>) {
    forall i, j :: i in tags && j in tags && tags[i].name == tags[j].name ==> i == j
  }

  /** The constraints of the schema: unique tag names, and foreign keys of the join table. */
  ghost predicate Consistent(d: Db) {
    && UniqueNames(d.tags)
    && (forall p, id :: (p, id) in d.assoc ==> p in d.books && id in d.tags)
    && (forall id :: id in d.tags ==> id < d.nextTagId)
  }

  /** Every reading-status tag exists. */
  ghost predicate Seeded(d: Db) {
    forall s :: s in ReadingStatuses ==> exists id :: id in d.tags && d.tags[id].name == s
  }

  ghost predicate IsStatusTag(d: Db, id: TagId) {
    id in d.tags && IsReadingStatus(d.tags[id].name)
  }

  /** No book carries two different reading-status tags. */
  ghost predicate ExclusiveStatus(d: Db) {
    forall p, i, j :: (p, i) in d.assoc && (p, j) in d.assoc && IsStatusTag(d, i) && IsStatusTag(d, j) ==> i == j
  }

  /** The invariant every operation of the running application keeps. */
  ghost predicate Valid(d: Db) {
    Consistent(d) && Seeded(d) && ExclusiveStatus(d)
  }

  /** Each book's folder and filename are what its path splits into. */
  ghost predicate PathsSplit(d: Db) {
    forall p :: p in d.books ==> (d.books[p].folder, d.books[p].filename) == SplitBookPath(p)
  }

  // ---------------------------------------------------------------- lookups

  /** `Tag.query.filter_by(name=name).first()`, as a specification. */
  ghost function IdOf(tags: map<TagId, Tag>, name: string): (r: Option<TagId>)
    ensures r.Some? ==> r.value in tags && tags[r.value].name == name
    ensures r.None? <==> forall id :: id in tags ==> tags[id].name != name
  {
    if exists id :: id in tags && tags[id].name == name then
      var id :| id in tags && tags[id].name == name;
      Some(id)
    else
      None
  }

  lemma IdOfUnique(tags: map<TagId, Tag>, name: string, id: TagId)
    requires UniqueNames(tags) && id in tags && tags[id].name == name
    ensures IdOf(tags, name) == Some(id)
  {
  }

  /**
   * The split applied to a book path before the book is stored: at the last
   * '/' when there is one, otherwise the book lives in the root folder.
   */
  function SplitBookPath(path: string): (r: (string, string))
    ensures '/' !in path ==> r == (Root, path)
    ensures '/' in path ==> '/' !in r.1 && |r.1| < |path| && |r.0| <= |path| - |r.1| && path[|path| - |r.1|..] == r.1
    ensures '/' in path ==> path[..|r.0|] == r.0 && PosixPath.AllSlashes(path[|r.0|..|path| - |r.1|])
    ensures '/' in path ==> path[|path| - |r.1| - 1] == '/'
    ensures '/' in path ==> PosixPath.AllSlashes(r.0) || r.0[|r.0| - 1] != '/'
    ensures '/' in path && PosixPath.AllSlashes(r.0) ==> r.0 == path[..|path| - |r.1|]
  {
    if '/' in path then PosixPath.Split(path) else (Root, path)
  }

  // ---------------------------------------------------------------- queries

  /** `get_book_tags`: names of the tags the book carries (none for an unknown path). */
  function BookTags(d: Db, path: string): (r: set<string>)
    ensures forall id :: (path, id) in d.assoc && id in d.tags ==> d.tags[id].name in r
    ensures forall n :: n in r ==> exists id :: (path, id) in d.assoc && id in d.tags && d.tags[id].name == n
    ensures Consistent(d) && path !in d.books ==> r == {}
  {
    set a | a in d.assoc && a.0 == path && a.1 in d.tags :: d.tags[a.1].name
  }

  /** `get_books_by_tag`: paths of the books carrying the tag named `name`. */
  function BooksWithTag(d: Db, name: string): (r: set<string>)
    ensures IdOf(d.tags, name).None? ==> r == {}
    ensures UniqueNames(d.tags) && IdOf(d.tags, name).Some? ==> r == BooksOfTag(d, IdOf(d.tags, name).value)
  {
    set a | a in d.assoc && a.1 in d.tags && d.tags[a.1].name == name :: a.0
  }

  /** `tag.books`: paths of the books carrying the tag with id `id`. */
  function BooksOfTag(d: Db, id: TagId): (r: set<string>)
    ensures forall p :: p in r <==> (p, id) in d.assoc
  {
    set a | a in d.assoc && a.1 == id :: a.0
  }

  /** Names of all tags (what the views list as available tags). */
  function TagNames(d: Db): (r: set<string>)
    ensures forall id :: id in d.tags ==> d.tags[id].name in r
    ensures forall n :: n in r ==> IdOf(d.tags, n).Some?
  {
    set id | id in d.tags :: d.tags[id].name
  }

  /** Reading-status names among the tags a book carries. */
  function StatusesOf(d: Db, path: string): set<string> {
    set n | n in BookTags(d, path) && IsReadingStatus(n)
  }
}
