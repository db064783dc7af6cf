/** The `BookmarkManager` component: a bookmark list fed by an unfiltered
    realtime channel, so it checks ownership on the client, and an add form
    that writes to the store directly and inserts the returned row itself,
    because the channel does not echo a session's own writes back to it. */
module BookmarkManager {
  import opened Wrappers
  import opened Text
  import opened Urls
  import opened Bookmarks

  /** The INSERT handler's guard: only rows owned by the viewer. */
  predicate AcceptsInsert(b: Bookmark, userId: string) {
    b.userId == userId
  }

  /** The DELETE handler's guard: `deleted.user_id && deleted.user_id !== userId`
      rejects, so an absent or empty owner lets the delete through. */
  predicate AcceptsDelete(oldOwner: Option<string>, userId: string) {
    oldOwner.None? || oldOwner.value == "" || oldOwner.value == userId
  }

  predicate Accepts(e: ChangeEvent, userId: string) {
    match e
    case Insert(b) => AcceptsInsert(b, userId)
    case Delete(_, oldOwner) => AcceptsDelete(oldOwner, userId)
  }

  /** The list after one channel event, owner check included. */
  function ManagerStep(s: seq<Bookmark>, e: ChangeEvent, userId: string): (r: seq<Bookmark>)
    ensures e.Insert? && e.row.userId != userId ==> r == s
    ensures e.Insert? && e.row.userId == userId ==> r == PrependUnlessPresent(s, e.row)
    ensures e.Delete? && e.oldOwner.Some? && e.oldOwner.value != "" && e.oldOwner.value != userId ==> r == s
    ensures e.Delete? && (e.oldOwner.None? || e.oldOwner.value == "" || e.oldOwner.value == userId)
            ==> r == ApplyEvent(s, e)
  {
    if Accepts(e, userId) then ApplyEvent(s, e) else s
  }

  /** The list after a stream of channel events. */
  function ManagerReplay(s: seq<Bookmark>, es: seq<ChangeEvent>, userId: string): (r: seq<Bookmark>)
    ensures |r| <= |s| + |es|
    ensures forall x :: x in r ==> x in s || (Insert(x) in es && x.userId == userId)
    decreases |es|
  {
    if es == [] then s
    else
      var r := ManagerReplay(ManagerStep(s, es[0], userId), es[1..], userId);
      assert forall x :: Insert(x) in es[1..] ==> Insert(x) in es;
      r
  }

  /** The events the owner check lets through, in delivery order. */
  function Filter(es: seq<ChangeEvent>, userId: string): (r: seq<ChangeEvent>)
    ensures forall e :: e in r <==> e in es && Accepts(e, userId)
    ensures |r| <= |es|
  {
    if es == [] then []
    else
      var rest := Filter(es[1..], userId);
      assert forall e :: e in es <==> e == es[0] || e in es[1..];
      if Accepts(es[0], userId) then [es[0]] + rest else rest
  }

  /** The manager is the unfiltered reconciler run on the events its owner
      check accepts: the check is the only difference between the two views. */
  lemma {:induction false} ManagerReplayIsFilteredReplay(s: seq<Bookmark>, es: seq<ChangeEvent>, userId: string)
    ensures ManagerReplay(s, es, userId) == Replay(s, Filter(es, userId))
    decreases |es|
  {
    if es != [] {
      ManagerReplayIsFilteredReplay(ManagerStep(s, es[0], userId), es[1..], userId);
      if Accepts(es[0], userId) {
        var f := Filter(es, userId);
        assert f[0] == es[0] && f[1..] == Filter(es[1..], userId);
      }
    }
  }

  /** Every entry belongs to the viewer. */
  ghost predicate OwnedBy(s: seq<Bookmark>, userId: string) {
    forall i :: 0 <= i < |s| ==> s[i].userId == userId
  }

  /** Filtering keeps delivery order: it distributes over concatenation. */
  lemma {:induction false} FilterConcat(a: seq<ChangeEvent>, b: seq<ChangeEvent>, userId: string)
    ensures Filter(a + b, userId) == Filter(a, userId) + Filter(b, userId)
  {
    if a == [] {
      assert a + b == b;
    } else {
      assert (a + b)[1..] == a[1..] + b;
      FilterConcat(a[1..], b, userId);
    }
  }

  /** A successful add by the viewer lists the row it sent: the store's row
      carries the sent URL, title and owner under a fresh id, lands at the
      head, and keeps a list of the viewer's own rows that way. */
  lemma AddedRowIsListed(s: seq<Bookmark>, formTitle: string, rawUrl: string, userId: string,
                         id: string, createdAt: string)
    requires !HasId(s, id)
    ensures var d := ClientDraft(formTitle, rawUrl, userId);
            var row := Bookmark(id, d.url, d.title, createdAt, d.userId);
            PrependUnlessPresent(s, row) == [row] + s
            && (OwnedBy(s, userId) ==> OwnedBy(PrependUnlessPresent(s, row), userId))
  {
    var d := ClientDraft(formTitle, rawUrl, userId);
    var row := Bookmark(id, d.url, d.title, createdAt, d.userId);
    SentRowIsListed(s, row, userId);
  }

  /** A row of the viewer's with a fresh id goes to the head and keeps a list
      of the viewer's own rows that way. */
  lemma SentRowIsListed(s: seq<Bookmark>, row: Bookmark, userId: string)
    requires !HasId(s, row.id) && row.userId == userId
    ensures PrependUnlessPresent(s, row) == [row] + s
    ensures OwnedBy(s, userId) ==> OwnedBy(PrependUnlessPresent(s, row), userId)
  {
  }

  /** Starting from the viewer's own rows, the list only ever holds the
      viewer's rows, whatever the channel delivers. */
  lemma {:induction false} ManagerReplayKeepsScope(s: seq<Bookmark>, es: seq<ChangeEvent>, userId: string)
    requires OwnedBy(s, userId)
    ensures OwnedBy(ManagerReplay(s, es, userId), userId)
    decreases |es|
  {
    if es != [] {
      var next := ManagerStep(s, es[0], userId);
      assert OwnedBy(next, userId) by {
        forall i | 0 <= i < |next| ensures next[i].userId == userId {
          assert next[i] in next;
          if next != s && es[0].Delete? {
            assert next[i] in s;
          }
        }
      }
      ManagerReplayKeepsScope(next, es[1..], userId);
    }
  }

  /** Any stream of channel events keeps ids unique. */
  lemma {:induction false} ManagerReplayKeepsUnique(s: seq<Bookmark>, es: seq<ChangeEvent>, userId: string)
    requires UniqueIds(s)
    ensures UniqueIds(ManagerReplay(s, es, userId))
  {
    ManagerReplayIsFilteredReplay(s, es, userId);
    ReplayKeepsUnique(s, Filter(es, userId));
  }

  /** After a bookmark was added locally, a later INSERT carrying the same id
      (a self-echo, or another tab's delivery) leaves the manager's list
      unchanged, whoever the row's owner is; the id is then listed exactly
      once if ids were unique before the add. */
  lemma EchoSuppressed(s: seq<Bookmark>, b: Bookmark, echo: Bookmark, userId: string)
    requires echo.id == b.id
    ensures ManagerStep(PrependUnlessPresent(s, b), Insert(echo), userId) == PrependUnlessPresent(s, b)
    ensures UniqueIds(s) ==> UniqueIds(PrependUnlessPresent(s, b))
  {
    if UniqueIds(s) {
      PrependUnlessPresentKeepsUnique(s, b);
    }
  }

  /** How the `try` block of `handleAdd` ends: the store's reply with the
      inserted row (`.select().single()`), an `Error` thrown with a message
      (the store's error rethrown, or `createClient` failing), or a thrown
      value that is not an `Error`. */
  datatype InsertReply =
    | Inserted(data: Option<Bookmark>)
    | InsertFailed(message: string)
    | ThrewNonError

  /** The message shown when the thrown value carries none. */
  const FallbackMessage: string := "Failed to add bookmark"

  /** The row `handleAdd` sends to the store: the title trimmed, the URL
      given a scheme, the viewer's id. Unlike the server action, nothing is
      rejected: a blank title is sent as "". */
  function ClientDraft(formTitle: string, rawUrl: string, userId: string): (d: Draft)
    ensures d.userId == userId && d.title == Trim(formTitle)
    ensures IsTrimmed(d.title) && |d.title| <= |formTitle|
    ensures AllTrimmable(formTitle) <==> d.title == ""
    ensures HasScheme(d.url) && |d.url| >= |rawUrl| && d.url[|d.url| - |rawUrl|..] == rawUrl
    ensures HasScheme(rawUrl) ==> d.url == rawUrl
    ensures !HasScheme(rawUrl) ==> d.url == Https + rawUrl
  {
    TrimEmptyIffBlank(formTitle);
    Draft(NormalizeUrl(rawUrl), Trim(formTitle), userId)
  }

  class Manager {
    const userId: string
    var bookmarks: seq<Bookmark>
    var isPending: bool
    var error: Option<string>
    var success: bool

    constructor (initialBookmarks: seq<Bookmark>, userId: string)
      ensures this.userId == userId && bookmarks == initialBookmarks
      ensures !isPending && error == None && !success
    {
      this.userId := userId;
      bookmarks := initialBookmarks;
      isPending, error, success := false, None, false;
    }

    /** The realtime INSERT handler. */
    method OnInsert(newBookmark: Bookmark)
      modifies this`bookmarks
      ensures bookmarks == ManagerStep(old(bookmarks), Insert(newBookmark), userId)
      ensures UniqueIds(old(bookmarks)) ==> UniqueIds(bookmarks)
    {
      if newBookmark.userId != userId {
        return;
      }
      if UniqueIds(bookmarks) {
        PrependUnlessPresentKeepsUnique(bookmarks, newBookmark);
      }
      bookmarks := PrependUnlessPresent(bookmarks, newBookmark);
    }

    /** The realtime DELETE handler, given the old row's id and owner as far
        as the payload carries them. */
    method OnDelete(oldId: Option<string>, oldOwner: Option<string>)
      modifies this`bookmarks
      ensures bookmarks == ManagerStep(old(bookmarks), Delete(oldId, oldOwner), userId)
      ensures UniqueIds(old(bookmarks)) ==> UniqueIds(bookmarks)
    {
      if oldOwner.Some? && oldOwner.value != "" && oldOwner.value != userId {
        return;
      }
      if oldId.Some? {
        if UniqueIds(bookmarks) {
          RemoveIdKeepsUnique(bookmarks, oldId.value);
        }
        bookmarks := RemoveId(bookmarks, oldId.value);
      }
    }

    /** `handleAdd` before it builds the row: clears both banners and marks
        the form pending. The row it then sends is `ClientDraft`. */
    method BeginAdd()
      modifies this`isPending, this`error, this`success
      ensures isPending && error == None && !success
    {
      error, success, isPending := None, false, true;
    }

    /** `handleAdd` after its `await`, given how the `try` block ended:
        inserts the returned row unless its id is already listed, or records
        the error; the form is no longer pending either way. `BeginAdd` has
        already cleared the error and the success flag, so this call leaves
        untouched the one the outcome does not set. Channel events may have
        changed the list between `BeginAdd` and this call. */
    method FinishAdd(reply: InsertReply)
      modifies this`bookmarks, this`isPending, this`error, this`success
      ensures !isPending
      ensures reply.InsertFailed? ==>
                bookmarks == old(bookmarks) && error == Some(reply.message) && success == old(success)
      ensures reply.ThrewNonError? ==>
                bookmarks == old(bookmarks) && error == Some(FallbackMessage) && success == old(success)
      ensures reply.Inserted? && reply.data.None? ==>
                bookmarks == old(bookmarks) && error == old(error) && success
      ensures reply.Inserted? && reply.data.Some? ==>
                bookmarks == PrependUnlessPresent(old(bookmarks), reply.data.value)
                && error == old(error) && success
      ensures UniqueIds(old(bookmarks)) ==> UniqueIds(bookmarks)
    {
      match reply {
        case InsertFailed(message) =>
          error := Some(message);
        case ThrewNonError =>
          error := Some(FallbackMessage);
        case Inserted(data) =>
          if data.Some? {
            if UniqueIds(bookmarks) {
              PrependUnlessPresentKeepsUnique(bookmarks, data.value);
            }
            bookmarks := PrependUnlessPresent(bookmarks, data.value);
          }
          success := true;
      }
      isPending := false;
    }

    /** `handleOptimisticRemove`: drops the entries with the id at once,
        without waiting for the store. */
    method HandleOptimisticRemove(id: string)
      modifies this`bookmarks
      ensures bookmarks == RemoveId(old(bookmarks), id)
      ensures UniqueIds(old(bookmarks)) ==> UniqueIds(bookmarks)
    {
      if UniqueIds(bookmarks) {
        RemoveIdKeepsUnique(bookmarks, id);
      }
      bookmarks := RemoveId(bookmarks, id);
    }
  }
}
