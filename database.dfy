/**
 * The database layer as the application runs it: one store whose three tables
 * the operations update in place. Each state-changing method is proved to do
 * to the store what the matching `StoreSpec` function says; the constructor,
 * `InitDb`, `AddTagToBook` and `RemoveTagFromBook` also keep the invariant.
 */
module Database {
  import opened Options
  import opened Schema
  import StoreSpec

  /** One entry of `get_tag_statistics`: how many books carry the tag, and its description. */
  datatype TagStat = TagStat(count: nat, description: Option<string>)

  class Store {
    var books: map<string, Book>
    var tags: map<TagId, Tag>
    var assoc: set<(string, TagId)>
    var nextTagId: TagId

    /** The current contents of the three tables. */
    function Snapshot(): Db
      reads this
    {
      Db(books, tags, assoc, nextTagId)
    }

    ghost predicate Valid()
      reads this
    {
      Schema.Valid(Snapshot())
    }

    /** `init_db` against a newly created database file: empty tables, then seeding. */
    constructor ()
      ensures Snapshot() == StoreSpec.InitDb(EmptyDb)
      ensures Valid()
    {
      books, tags, assoc, nextTagId := map[], map[], {}, 1;
      new;
      InitDb();
    }

    /** The seeding loop of `init_db`: add each reading-status tag whose name is missing. */
    method InitDb()
      requires Consistent(Snapshot()) && ExclusiveStatus(Snapshot())
      modifies this
      ensures Snapshot() == StoreSpec.InitDb(old(Snapshot()))
      ensures Valid()
    {
      ghost var d0 := Snapshot();
      for i := 0 to |StoreSpec.DefaultTags|
        invariant Consistent(Snapshot())
        invariant StoreSpec.SeedFrom(Snapshot(), StoreSpec.DefaultTags[i..]) == StoreSpec.InitDb(d0)
      {
        var t := StoreSpec.DefaultTags[i];
        StoreSpec.SeedFromUnfold(Snapshot(), StoreSpec.DefaultTags, i);
        var _ := GetOrCreateTag(t.name, t.description);
      }
      StoreSpec.InitDbValid(d0);
    }

    /** `Tag.query.filter_by(name=name).first()`: scan the tag table for the name. */
    method FindTag(name: string) returns (r: Option<TagId>)
      requires UniqueNames(tags)
      ensures r == IdOf(tags, name)
    {
      var rest := tags.Keys;
      while rest != {}
        invariant rest <= tags.Keys
        invariant forall id :: id in tags && id !in rest ==> tags[id].name != name
        decreases rest
      {
        var id :| id in rest;
        if tags[id].name == name {
          IdOfUnique(tags, name, id);
          return Some(id);
        }
        rest := rest - {id};
      }
      r := None;
    }

    /** `get_or_create_book`. */
    method GetOrCreateBook(path: string, folder: string, filename: string) returns (book: Book)
      modifies this
      ensures Snapshot() == StoreSpec.GetOrCreateBook(old(Snapshot()), path, folder, filename)
      ensures path in books && book == books[path]
    {
      if path !in books {
        books := books[path := Book(folder, filename)];
      }
      book := books[path];
    }

    /** `get_or_create_tag`. */
    method GetOrCreateTag(name: string, description: Option<string>) returns (id: TagId)
      requires Consistent(Snapshot())
      modifies this
      ensures (Snapshot(), id) == StoreSpec.GetOrCreateTag(old(Snapshot()), name, description)
    {
      var found := FindTag(name);
      if found.Some? {
        id := found.value;
      } else {
        id := nextTagId;
        tags := tags[id := Tag(name, description)];
        nextTagId := nextTagId + 1;
      }
    }

    /** `add_tag_to_book`, with its loop over the reading statuses. */
    method AddTagToBook(path: string, name: string) returns (book: Book)
      requires Valid()
      modifies this
      ensures Snapshot() == StoreSpec.AddTagToBook(old(Snapshot()), path, name)
      ensures Valid()
      ensures path in books && book == books[path]
    {
      ghost var d0 := Snapshot();
      var split := SplitBookPath(path);
      book := GetOrCreateBook(path, split.0, split.1);
      assert Consistent(Snapshot());
      var id := GetOrCreateTag(name, None);
      if (path, id) !in assoc {
        if IsReadingStatus(name) {
          DropOtherStatuses(path, name);
        }
        assoc := assoc + {(path, id)};
      }
      StoreSpec.AddTagToBookKeepsValid(d0, path, name);
    }

    /** The status loop of `add_tag_to_book`: detach from the book every reading status other than `name`. */
    method DropOtherStatuses(path: string, name: string)
      requires UniqueNames(tags)
      modifies this
      ensures books == old(books) && tags == old(tags) && nextTagId == old(nextTagId)
      ensures assoc == StoreSpec.DropStatusPairs(old(Snapshot()), path, name, ReadingStatuses)
    {
      ghost var d := Snapshot();
      for i := 0 to |ReadingStatuses|
        invariant tags == d.tags && books == d.books && nextTagId == d.nextTagId
        invariant assoc == StoreSpec.DropStatusPairs(d, path, name, ReadingStatuses[..i])
      {
        var status := ReadingStatuses[i];
        assert ReadingStatuses[..i + 1] == ReadingStatuses[..i] + [status];
        StoreSpec.DropStatusPairsStep(d, path, name, ReadingStatuses[..i], status);
        if status != name {
          var statusTag := FindTag(status);
          if statusTag.Some? && (path, statusTag.value) in assoc {
            assoc := assoc - {(path, statusTag.value)};
          }
        }
      }
      assert ReadingStatuses[..|ReadingStatuses|] == ReadingStatuses;
    }

    /** `remove_tag_from_book`: reports whether an association was removed. */
    method RemoveTagFromBook(path: string, name: string) returns (removed: bool)
      requires Valid()
      modifies this
      ensures (removed, Snapshot()) == StoreSpec.RemoveTagFromBook(old(Snapshot()), path, name)
      ensures Valid()
    {
      ghost var d0 := Snapshot();
      var tag := FindTag(name);
      if path in books && tag.Some? && (path, tag.value) in assoc {
        assoc := assoc - {(path, tag.value)};
        removed := true;
      } else {
        removed := false;
      }
      StoreSpec.RemoveTagFromBookTags(d0, path, name);
    }

    /**
     * `get_tag_statistics`: one entry per tag, zero-count tags included, keyed by
     * the tag's name, holding the number of books that carry it.
     */
    method GetTagStatistics() returns (stats: map<string, TagStat>)
      requires UniqueNames(tags)
      ensures stats.Keys == TagNames(Snapshot())
      ensures forall id :: id in tags ==>
        stats[tags[id].name] == TagStat(|BooksOfTag(Snapshot(), id)|, tags[id].description)
    {
      stats := map[];
      var rest := tags.Keys;
      while rest != {}
        invariant rest <= tags.Keys
        invariant stats.Keys == set id | id in tags && id !in rest :: tags[id].name
        invariant forall id :: id in tags && id !in rest ==>
          stats[tags[id].name] == TagStat(|BooksOfTag(Snapshot(), id)|, tags[id].description)
        decreases rest
      {
        var id :| id in rest;
        var tag := tags[id];
        stats := stats[tag.name := TagStat(|BooksOfTag(Snapshot(), id)|, tag.description)];
        rest := rest - {id};
      }
    }
  }
}
