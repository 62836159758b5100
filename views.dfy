/**
 * The page views of the web application: the folder structure built from a
 * walk of the books directory, the per-book tag lists shown beside it, and the
 * structure filtered down to the books carrying one tag. The walk itself is an
 * input: one entry per directory visited, in the order the walk visits them.
 */
module Views {
  import opened Options
  import opened Schema
  import AppSpec

  /** One directory visited by the walk: its path relative to the books directory, and its file names. */
  datatype WalkEntry = WalkEntry(relPath: string, files: seq<string>)

  /** Folder name to the PDF file names it holds, in the walk's order. */
  type Structure = map<string, seq<string>>

  /** What a listing page shows, or a redirect to the index page. */
  datatype View =
    | RedirectToIndex
    | Listing(books: Structure, bookTags: map<string, set<string>>, availableTags: set<string>)

  // ---------------------------------------------------------------- structure

  /** The top directory of the walk is listed under the root folder name. */
  function FolderKey(relPath: string): string {
    if relPath == "." then Root else relPath
  }

  function LowerAscii(c: char): char {
    if 'A' <= c <= 'Z' then (c as int + 32) as char else c
  }

  /**
   * `f.lower().endswith(".pdf")`. The suffix is ASCII, and only an ASCII letter
   * lowers to an ASCII letter, so comparing the last four characters lowered
   * one by one decides it.
   */
  predicate IsPdf(f: string) {
    && |f| >= 4
    && LowerAscii(f[|f| - 4]) == '.'
    && LowerAscii(f[|f| - 3]) == 'p'
    && LowerAscii(f[|f| - 2]) == 'd'
    && LowerAscii(f[|f| - 1]) == 'f'
  }

  /** A name is a PDF exactly when it ends in ".pdf" in any mix of upper and lower case. */
  lemma IsPdfSpelledOut(f: string)
    ensures IsPdf(f) <==>
      && |f| >= 4
      && f[|f| - 4] == '.'
      && (f[|f| - 3] == 'p' || f[|f| - 3] == 'P')
      && (f[|f| - 2] == 'd' || f[|f| - 2] == 'D')
      && (f[|f| - 1] == 'f' || f[|f| - 1] == 'F')
  {
  }

  /** The file names of one directory that are PDFs, in their order. */
  function PdfFiles(files: seq<string>): (r: seq<string>)
    ensures forall f :: f in r <==> f in files && IsPdf(f)
    ensures |r| <= |files|
  {
    if files == [] then []
    else (if IsPdf(files[0]) then [files[0]] else []) + PdfFiles(files[1..])
  }

  /** Picking the PDFs distributes over concatenation, so they keep the directory's order. */
  lemma {:induction false} PdfFilesAppend(xs: seq<string>, ys: seq<string>)
    ensures PdfFiles(xs + ys) == PdfFiles(xs) + PdfFiles(ys)
  {
    if xs == [] {
      assert xs + ys == ys;
    } else {
      assert (xs + ys)[0] == xs[0];
      assert (xs + ys)[1..] == xs[1..] + ys;
      PdfFilesAppend(xs[1..], ys);
    }
  }

  /** Entry `i` is the last one of the walk listed under folder name `key`. */
  ghost predicate LastFor(walk: seq<WalkEntry>, key: string, i: int) {
    && 0 <= i < |walk|
    && FolderKey(walk[i].relPath) == key
    && forall j :: i < j < |walk| ==> FolderKey(walk[j].relPath) != key
  }

  /**
   * The structure the walk yields: one folder per directory, holding that
   * directory's PDF files; when two directories share a folder name, the one
   * visited later wins.
   */
  function StructureOf(walk: seq<WalkEntry>): (r: Structure)
    ensures forall k :: k in r <==> exists i :: 0 <= i < |walk| && FolderKey(walk[i].relPath) == k
    ensures forall k, i :: LastFor(walk, k, i) ==> k in r && r[k] == PdfFiles(walk[i].files)
  {
    if walk == [] then map[]
    else
      var last := walk[|walk| - 1];
      WalkPrefix(walk);
      StructureOf(walk[..|walk| - 1])[FolderKey(last.relPath) := PdfFiles(last.files)]
  }

  /** Dropping the last entry of a walk keeps the other entries and which of them is last for a folder name. */
  lemma WalkPrefix(walk: seq<WalkEntry>)
    requires walk != []
    ensures forall i :: 0 <= i < |walk| - 1 ==> walk[..|walk| - 1][i] == walk[i]
    ensures forall k, i :: LastFor(walk, k, i) && i < |walk| - 1 ==>
      LastFor(walk[..|walk| - 1], k, i) && k != FolderKey(walk[|walk| - 1].relPath)
  {
  }

  /** A sub-directory named "root" shares its folder name with the top directory and, walked later, hides its files. */
  lemma RootFolderShadowsTop()
    ensures StructureOf([WalkEntry(".", ["a.pdf"]), WalkEntry("root", ["b.pdf"])]) == map[Root := ["b.pdf"]]
  {
    var walk := [WalkEntry(".", ["a.pdf"]), WalkEntry("root", ["b.pdf"])];
    assert walk[..1] == [WalkEntry(".", ["a.pdf"])];
    assert walk[..1][..0] == [];
    assert IsPdf("b.pdf");
    assert PdfFiles(["b.pdf"]) == ["b.pdf"] by {
      assert ["b.pdf"][1..] == [];
    }
  }

  /** The structure a scan yields: only an empty root folder when the scan raised an error. */
  ghost function Scanned(walk: Option<seq<WalkEntry>>): Structure {
    if walk.Some? then StructureOf(walk.value) else map[Root := []]
  }

  /**
   * `get_books_structure`. The walk is `None` when scanning raised an error,
   * in which case the structure holds only an empty root folder.
   */
  method GetBooksStructure(walk: Option<seq<WalkEntry>>) returns (structure: Structure)
    ensures walk.None? ==> structure == map[Root := []]
    ensures walk.Some? ==> structure == StructureOf(walk.value)
    ensures structure == Scanned(walk)
  {
    if walk.None? {
      return map[Root := []];
    }
    var entries := walk.value;
    structure := map[];
    for i := 0 to |entries|
      invariant structure == StructureOf(entries[..i])
    {
      assert entries[..i + 1][..i] == entries[..i];
      structure := structure[FolderKey(entries[i].relPath) := PdfFiles(entries[i].files)];
    }
    assert entries[..|entries|] == entries;
  }

  // ---------------------------------------------------------------- tag lists

  /** Book `p` is one of the first `n` files `files` of folder `folder`. */
  ghost predicate InFolder(folder: string, files: seq<string>, n: int, p: string) {
    exists k :: 0 <= k < n && k < |files| && p == AppSpec.GetBookPath(folder, files[k])
  }

  lemma InFolderStep(folder: string, files: seq<string>, j: int, q: string)
    requires 0 <= j < |files|
    ensures InFolder(folder, files, j + 1, q) <==> InFolder(folder, files, j, q) || q == AppSpec.GetBookPath(folder, files[j])
  {
    if InFolder(folder, files, j + 1, q) && q != AppSpec.GetBookPath(folder, files[j]) {
      var k :| 0 <= k < j + 1 && k < |files| && q == AppSpec.GetBookPath(folder, files[k]);
      assert k != j;
    }
    if q == AppSpec.GetBookPath(folder, files[j]) {
      assert 0 <= j < j + 1 && j < |files|;
    }
  }

  /** Book `p` is listed in a folder of `books` outside `rest`. */
  ghost predicate ListedOutside(books: Structure, rest: set<string>, p: string) {
    exists folder :: folder in books && folder !in rest && InFolder(folder, books[folder], |books[folder]|, p)
  }

  /** Book `p` is listed somewhere in `books`. */
  ghost predicate Listed(books: Structure, p: string) {
    ListedOutside(books, {}, p)
  }

  /** The inner loop of the `book_tags` construction: add the tagged books of one folder. */
  method AddFolderTags(d: Db, folder: string, files: seq<string>, acc: map<string, set<string>>)
    returns (bookTags: map<string, set<string>>)
    requires forall p :: p in acc ==> acc[p] == BookTags(d, p)
    ensures forall p :: p in bookTags <==> p in acc || (InFolder(folder, files, |files|, p) && BookTags(d, p) != {})
    ensures forall p :: p in bookTags ==> bookTags[p] == BookTags(d, p)
  {
    bookTags := acc;
    for j := 0 to |files|
      invariant forall p :: p in bookTags <==> p in acc || (InFolder(folder, files, j, p) && BookTags(d, p) != {})
      invariant forall p :: p in bookTags ==> bookTags[p] == BookTags(d, p)
    {
      var p := AppSpec.GetBookPath(folder, files[j]);
      var tags := BookTags(d, p);
      if tags != {} {
        bookTags := bookTags[p := tags];
      }
      forall q
        ensures InFolder(folder, files, j + 1, q) <==> InFolder(folder, files, j, q) || q == p
      {
        InFolderStep(folder, files, j, q);
      }
    }
  }

  /** The `book_tags` map of the listing pages: the tags of every listed book that has any. */
  method BookTagsView(d: Db, books: Structure) returns (bookTags: map<string, set<string>>)
    ensures forall p :: p in bookTags <==> Listed(books, p) && BookTags(d, p) != {}
    ensures forall p :: p in bookTags ==> bookTags[p] == BookTags(d, p)
  {
    bookTags := map[];
    var rest := books.Keys;
    while rest != {}
      invariant rest <= books.Keys
      invariant forall p :: p in bookTags <==> ListedOutside(books, rest, p) && BookTags(d, p) != {}
      invariant forall p :: p in bookTags ==> bookTags[p] == BookTags(d, p)
      decreases rest
    {
      var folder :| folder in rest;
      bookTags := AddFolderTags(d, folder, books[folder], bookTags);
      assert forall p :: ListedOutside(books, rest - {folder}, p) <==> ListedOutside(books, rest, p) || InFolder(folder, books[folder], |books[folder]|, p);
      rest := rest - {folder};
    }
  }

  // ---------------------------------------------------------------- filtering

  /** The files of one folder whose book carries the tag, in their order. */
  function KeepTagged(folder: string, files: seq<string>, tagged: set<string>): (r: seq<string>)
    ensures forall f :: f in r <==> f in files && AppSpec.GetBookPath(folder, f) in tagged
    ensures |r| <= |files|
  {
    if files == [] then []
    else
      var last := files[|files| - 1];
      KeepTagged(folder, files[..|files| - 1], tagged) + (if AppSpec.GetBookPath(folder, last) in tagged then [last] else [])
  }

  /** Filtering distributes over concatenation, so it keeps the files' relative order. */
  lemma {:induction false} KeepTaggedAppend(folder: string, xs: seq<string>, ys: seq<string>, tagged: set<string>)
    ensures KeepTagged(folder, xs + ys, tagged) == KeepTagged(folder, xs, tagged) + KeepTagged(folder, ys, tagged)
    decreases |ys|
  {
    if ys == [] {
      assert xs + ys == xs;
    } else {
      var ys' := ys[..|ys| - 1];
      assert (xs + ys)[..|xs + ys| - 1] == xs + ys';
      KeepTaggedAppend(folder, xs, ys', tagged);
    }
  }

  /** The structure cut down to the books in `tagged`, without the folders left empty. */
  ghost function Filtered(books: Structure, tagged: set<string>): (r: Structure)
    ensures forall folder :: folder in r <==> folder in books && KeepTagged(folder, books[folder], tagged) != []
    ensures forall folder :: folder in r ==> r[folder] == KeepTagged(folder, books[folder], tagged)
    ensures forall folder, f :: folder in r ==> (f in r[folder] <==> f in books[folder] && AppSpec.GetBookPath(folder, f) in tagged)
  {
    map folder | folder in books && KeepTagged(folder, books[folder], tagged) != [] :: KeepTagged(folder, books[folder], tagged)
  }

  /** The inner loop of `filter_by_tag`: collect the folder's files whose book is tagged. */
  method FilterFolder(folder: string, files: seq<string>, tagged: set<string>) returns (kept: seq<string>)
    ensures kept == KeepTagged(folder, files, tagged)
  {
    kept := [];
    for j := 0 to |files|
      invariant kept == KeepTagged(folder, files[..j], tagged)
    {
      assert files[..j + 1][..j] == files[..j];
      if AppSpec.GetBookPath(folder, files[j]) in tagged {
        kept := kept + [files[j]];
      }
    }
    assert files[..|files|] == files;
  }

  /** The filtering loop of `filter_by_tag`: keep the non-empty filtered folders. */
  method FilterStructure(books: Structure, tagged: set<string>) returns (filtered: Structure)
    ensures filtered == Filtered(books, tagged)
  {
    filtered := map[];
    var rest := books.Keys;
    while rest != {}
      invariant rest <= books.Keys
      invariant forall folder :: folder in filtered <==> folder in books && folder !in rest && KeepTagged(folder, books[folder], tagged) != []
      invariant forall folder :: folder in filtered ==> filtered[folder] == KeepTagged(folder, books[folder], tagged)
      decreases rest
    {
      var folder :| folder in rest;
      var kept := FilterFolder(folder, books[folder], tagged);
      if kept != [] {
        filtered := filtered[folder := kept];
      }
      rest := rest - {folder};
    }
  }

  // ---------------------------------------------------------------- pages

  /** `index`: the whole structure, the tags of its books, and every tag name. */
  method Index(d: Db, walk: Option<seq<WalkEntry>>) returns (view: View)
    ensures view.Listing?
    ensures view.books == Scanned(walk)
    ensures forall p :: p in view.bookTags <==> Listed(view.books, p) && BookTags(d, p) != {}
    ensures forall p :: p in view.bookTags ==> view.bookTags[p] == BookTags(d, p)
    ensures view.availableTags == TagNames(d)
  {
    var books := GetBooksStructure(walk);
    var bookTags := BookTagsView(d, books);
    view := Listing(books, bookTags, TagNames(d));
  }

  /**
   * `filter_by_tag`: a tag outside the whitelist other than "all" redirects to
   * the index; "all" shows the whole structure; any other tag shows only the
   * books carrying it. The tag lists cover the whole structure either way.
   */
  method FilterByTag(d: Db, walk: Option<seq<WalkEntry>>, tag: string) returns (view: View)
    ensures tag !in AppSpec.AvailableTags && tag != "all" ==> view == RedirectToIndex
    ensures tag in AppSpec.AvailableTags || tag == "all" ==>
      && view.Listing?
      && view.availableTags == TagNames(d)
      && (tag == "all" ==> view.books == Scanned(walk))
      && (tag != "all" ==> view.books == Filtered(Scanned(walk), BooksWithTag(d, tag)))
      && (forall p :: p in view.bookTags <==> Listed(Scanned(walk), p) && BookTags(d, p) != {})
      && (forall p :: p in view.bookTags ==> view.bookTags[p] == BookTags(d, p))
  {
    if tag !in AppSpec.AvailableTags && tag != "all" {
      return RedirectToIndex;
    }
    var books := GetBooksStructure(walk);
    var bookTags := BookTagsView(d, books);
    if tag != "all" {
      books := FilterStructure(books, BooksWithTag(d, tag));
    }
    view := Listing(books, bookTags, TagNames(d));
  }
}
