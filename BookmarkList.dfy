/** The `BookmarkList` component: the same list, fed by a channel that the
    server already filters to the viewer's rows (`user_id=eq.<userId>`), so
    every delivered event is applied with no owner check on the client. */
module BookmarkList {
  import opened Wrappers
  import opened Bookmarks

  class ListView {
    /** Only used to set up the channel's server-side filter. */
    const userId: string
    var bookmarks: seq<Bookmark>

    constructor (initialBookmarks: seq<Bookmark>, userId: string)
      ensures this.userId == userId && bookmarks == initialBookmarks
    {
      this.userId := userId;
      bookmarks := initialBookmarks;
    }

    /** The realtime INSERT handler: whoever owns the row, a fresh id goes
        to the head and a known id changes nothing. */
    method OnInsert(newBookmark: Bookmark)
      modifies this`bookmarks
      ensures bookmarks == ApplyEvent(old(bookmarks), Insert(newBookmark))
      ensures HasId(old(bookmarks), newBookmark.id) ==> bookmarks == old(bookmarks)
      ensures !HasId(old(bookmarks), newBookmark.id) ==> bookmarks == [newBookmark] + old(bookmarks)
      ensures UniqueIds(old(bookmarks)) ==> UniqueIds(bookmarks)
    {
      ghost var before := bookmarks;
      bookmarks := PrependUnlessPresent(bookmarks, newBookmark);
      if UniqueIds(before) {
        PrependUnlessPresentKeepsUnique(before, newBookmark);
      }
    }

    /** The realtime DELETE handler, given `payload.old.id` (absent when the
        payload carries no id, in which case nothing matches). */
    method OnDelete(oldId: Option<string>)
      modifies this`bookmarks
      ensures oldId.Some? ==> bookmarks == RemoveId(old(bookmarks), oldId.value)
      ensures oldId.None? ==> bookmarks == old(bookmarks)
      ensures UniqueIds(old(bookmarks)) ==> UniqueIds(bookmarks)
    {
      if oldId.Some? {
        ghost var before := bookmarks;
        bookmarks := RemoveId(bookmarks, oldId.value);
        if UniqueIds(before) {
          RemoveIdKeepsUnique(before, oldId.value);
        }
      }
    }
  }
}
