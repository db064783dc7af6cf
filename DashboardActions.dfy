/** The server actions `addBookmark` and `deleteBookmark`: each resolves the
    authenticated user, then writes to the `bookmarks` table scoped to that
    user, and reports every failure by throwing an `Error`. */
module DashboardActions {
  import opened Wrappers
  import opened Text
  import opened Urls
  import opened Bookmarks

  const NotAuthenticated: string := "Not authenticated"
  const FieldsRequired: string := "URL and title are required"

  /** How an action ends: it returns, or it throws an `Error` with a message. */
  datatype Outcome = Returned | Threw(message: string)

  /** The store's answer to an insert: the id and timestamp it assigned to
      the new row, or the error it reports. */
  datatype WriteReply = Written(id: string, createdAt: string) | WriteFailed(message: string)

  /** `!v` for a form value: missing or empty. Whitespace is not blank. */
  predicate Blank(v: Option<string>) {
    v.None? || v.value == ""
  }

  /** The checks and the row construction of `addBookmark`, in its order:
      authentication first, then presence of both fields (untrimmed), then
      the URL scheme and the title's trim. */
  function PrepareAdd(user: Option<string>, url: Option<string>, title: Option<string>): (r: Result<Draft>)
    ensures user.None? ==> r == Failure(NotAuthenticated)
    ensures user.Some? && (Blank(url) || Blank(title)) ==> r == Failure(FieldsRequired)
    ensures r.Success? <==> user.Some? && !Blank(url) && !Blank(title)
    ensures r.Success? ==> r.value.userId == user.value
                           && r.value.url == NormalizeUrl(url.value)
                           && r.value.title == Trim(title.value)
  {
    if user.None? then Failure(NotAuthenticated)
    else if Blank(url) || Blank(title) then Failure(FieldsRequired)
    else Success(Draft(NormalizeUrl(url.value), Trim(title.value), user.value))
  }

  /** The presence check runs before trimming: a title made only of
      whitespace passes and is stored as the empty string. */
  lemma BlankTitleStoredEmpty(user: string, url: string, title: string)
    requires url != "" && title != ""
    requires AllTrimmable(title)
    ensures PrepareAdd(Some(user), Some(url), Some(title)) == Success(Draft(NormalizeUrl(url), "", user))
  {
    TrimEmptyIffBlank(title);
  }

  /** A stored URL always names `http://` or `https://` and ends with the
      URL as typed, untrimmed. */
  lemma StoredUrlKeepsInput(user: Option<string>, url: Option<string>, title: Option<string>)
    requires PrepareAdd(user, url, title).Success?
    ensures var u := PrepareAdd(user, url, title).value.url;
            HasScheme(u) && |u| >= |url.value| && u[|u| - |url.value|..] == url.value
  {
  }

  /** The rows left after `.delete().eq('id', id).eq('user_id', user)`. */
  function DeleteScoped(rows: seq<Bookmark>, id: string, user: string): (r: seq<Bookmark>)
    ensures forall x :: x in r <==> x in rows && !(x.id == id && x.userId == user)
    ensures |r| <= |rows|
  {
    if rows == [] then []
    else
      var rest := DeleteScoped(rows[1..], id, user);
      assert forall x :: x in rows <==> x == rows[0] || x in rows[1..];
      if rows[0].id == id && rows[0].userId == user then rest else [rows[0]] + rest
  }

  /** Exactly the rows matching both id and user are removed, each with all
      its copies; every other row, another user's row with the same id
      included, keeps its count. */
  lemma {:induction false} DeleteScopedCounts(rows: seq<Bookmark>, id: string, user: string, x: Bookmark)
    ensures multiset(DeleteScoped(rows, id, user))[x] ==
            if x.id == id && x.userId == user then 0 else multiset(rows)[x]
  {
    if rows != [] {
      assert rows == [rows[0]] + rows[1..];
      DeleteScopedCounts(rows[1..], id, user, x);
    }
  }

  /** The `bookmarks` table, as far as these actions touch it. */
  class BookmarkTable {
    var rows: seq<Bookmark>

    constructor (rows: seq<Bookmark>)
      ensures this.rows == rows
    {
      this.rows := rows;
    }

    /** `addBookmark`, for the authenticated `user` (if any) and the form's
        `url` and `title` values, given the store's `reply` to the insert. */
    method AddBookmark(user: Option<string>, url: Option<string>, title: Option<string>, reply: WriteReply)
      returns (outcome: Outcome)
      modifies this
      ensures var p := PrepareAdd(user, url, title);
              p.Failure? ==> outcome == Threw(p.error) && rows == old(rows)
      ensures var p := PrepareAdd(user, url, title);
              p.Success? && reply.WriteFailed? ==> outcome == Threw(reply.message) && rows == old(rows)
      ensures var p := PrepareAdd(user, url, title);
              p.Success? && reply.Written? ==>
                outcome == Returned
                && rows == old(rows) + [Bookmark(reply.id, p.value.url, p.value.title, reply.createdAt, user.value)]
      ensures user.None? ==> outcome == Threw(NotAuthenticated)
    {
      if user.None? {
        return Threw(NotAuthenticated);
      }
      if Blank(url) || Blank(title) {
        return Threw(FieldsRequired);
      }
      var normalizedUrl := NormalizeUrl(url.value);
      var row := Draft(normalizedUrl, Trim(title.value), user.value);
      match reply {
        case WriteFailed(message) =>
          return Threw(message);
        case Written(id, createdAt) =>
          rows := rows + [Bookmark(id, row.url, row.title, createdAt, row.userId)];
      }
      outcome := Returned;
    }

    /** `deleteBookmark`, for the authenticated `user` (if any), given the
        error the store reports for the delete, if any. */
    method DeleteBookmark(user: Option<string>, id: string, storeError: Option<string>)
      returns (outcome: Outcome)
      modifies this
      ensures user.None? ==> outcome == Threw(NotAuthenticated) && rows == old(rows)
      ensures user.Some? && storeError.Some? ==> outcome == Threw(storeError.value) && rows == old(rows)
      ensures user.Some? && storeError.None? ==>
                outcome == Returned && rows == DeleteScoped(old(rows), id, user.value)
    {
      if user.None? {
        return Threw(NotAuthenticated);
      }
      if storeError.Some? {
        return Threw(storeError.value);
      }
      rows := DeleteScoped(rows, id, user.value);
      outcome := Returned;
    }
  }
}
