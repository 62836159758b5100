/**
 * The JSON handlers of the web application that change the tag store. Each
 * handler takes the store it works on and the request fields (absent fields as
 * `None`), and is proved to follow the matching `AppSpec` function and to keep
 * the store invariant.
 */
module App {
  import opened Options
  import opened Schema
  import AppSpec
  import opened Database

  /** `update_tag`: attach or detach one whitelisted tag. */
  method UpdateTag(s: Store, bookPath: Option<string>, tag: Option<string>, action: Option<string>)
    returns (resp: AppSpec.TagUpdate)
    requires s.Valid()
    modifies s
    ensures (resp, s.Snapshot()) == AppSpec.UpdateTag(old(s.Snapshot()), bookPath, tag, action)
    ensures s.Valid()
  {
    if !AppSpec.ValidTagRequest(bookPath, tag) {
      return AppSpec.InvalidParameters;
    }
    if action.None? || action.value == "add" {
      var _ := s.AddTagToBook(bookPath.value, tag.value);
      resp := AppSpec.Updated(true);
    } else {
      var removed := s.RemoveTagFromBook(bookPath.value, tag.value);
      resp := AppSpec.Updated(removed);
    }
  }

  /** `create_tag`: get or create a tag by name; the description defaults to "". */
  method CreateTag(s: Store, name: Option<string>, description: Option<string>)
    returns (resp: AppSpec.TagCreation)
    requires s.Valid()
    modifies s
    ensures (resp, s.Snapshot()) == AppSpec.CreateTag(old(s.Snapshot()), name, description)
    ensures s.Valid()
  {
    AppSpec.CreateTagOutcome(s.Snapshot(), name, description);
    if name.None? || name.value == "" {
      return AppSpec.NameRequired;
    }
    var id := s.GetOrCreateTag(name.value, Some(if description.Some? then description.value else ""));
    resp := AppSpec.Created(id, s.tags[id]);
  }

  /**
   * `update_tag_details`: replace a tag's name and description. The unique
   * index on the name is checked when the change is committed; a conflict makes
   * the commit fail and the change is rolled back.
   */
  method UpdateTagDetails(s: Store, tagId: TagId, name: Option<string>, description: Option<string>)
    returns (resp: AppSpec.TagEdit)
    requires s.Valid()
    modifies s
    ensures (resp, s.Snapshot()) == AppSpec.UpdateTagDetails(old(s.Snapshot()), tagId, name, description)
    ensures s.Valid()
  {
    AppSpec.UpdateTagDetailsOutcome(s.Snapshot(), tagId, name, description);
    if name.None? || name.value == "" {
      return AppSpec.EditNameRequired;
    }
    if tagId !in s.tags {
      return AppSpec.EditNotFound;
    }
    var current := s.tags[tagId];
    if current.name in AppSpec.AvailableTags && name.value != current.name {
      return AppSpec.EditDefaultTag;
    }
    var holder := s.FindTag(name.value);
    if holder.Some? && holder.value != tagId {
      return AppSpec.EditCommitFailed;
    }
    var edited := Tag(name.value, Some(if description.Some? then description.value else ""));
    s.tags := s.tags[tagId := edited];
    resp := AppSpec.Edited(tagId, edited);
  }

  /** `delete_tag`: detach a non-default tag from each book carrying it, then delete it. */
  method DeleteTag(s: Store, tagId: TagId) returns (resp: AppSpec.TagDeletion)
    requires s.Valid()
    modifies s
    ensures (resp, s.Snapshot()) == AppSpec.DeleteTag(old(s.Snapshot()), tagId)
    ensures s.Valid()
  {
    ghost var d0 := s.Snapshot();
    AppSpec.DeleteTagOutcome(d0, tagId);
    if tagId !in s.tags {
      return AppSpec.DeleteNotFound;
    }
    if s.tags[tagId].name in AppSpec.AvailableTags {
      return AppSpec.DeleteDefaultTag;
    }
    var carriers := BooksOfTag(s.Snapshot(), tagId);
    while carriers != {}
      invariant s.books == d0.books && s.tags == d0.tags && s.nextTagId == d0.nextTagId
      invariant forall p :: p in carriers ==> (p, tagId) in d0.assoc
      invariant forall a :: a in s.assoc <==> a in d0.assoc && (a.1 != tagId || a.0 in carriers)
      decreases carriers
    {
      var p :| p in carriers;
      s.assoc := s.assoc - {(p, tagId)};
      carriers := carriers - {p};
    }
    s.tags := s.tags - {tagId};
    assert s.assoc == set a | a in d0.assoc && a.1 != tagId;
    resp := AppSpec.Deleted;
  }
}
