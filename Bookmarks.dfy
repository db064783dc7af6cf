/** The bookmark list both client views keep, and the pure updaters they pass
    to their state setter: `prev.some(...)` / `[x, ...prev]` for an insert and
    `prev.filter(...)` for a delete. Ids are the only deduplication key. */
module Bookmarks {
  import opened Wrappers
  import opened Text

  /** A row of the `bookmarks` table as the clients see it. */
  datatype Bookmark = Bookmark(id: string, url: string, title: string, createdAt: string, userId: string)

  /** The columns a client supplies when it asks the store to insert a row;
      the store assigns `id` and `created_at`. */
  datatype Draft = Draft(url: string, title: string, userId: string)

  /** `s.some(b => b.id === id)`. */
  function HasId(s: seq<Bookmark>, id: string): (r: bool)
    ensures r <==> exists i :: 0 <= i < |s| && s[i].id == id
  {
    if s == [] then false
    else if s[0].id == id then true
    else
      var r := HasId(s[1..], id);
      assert forall i :: 1 <= i < |s| ==> s[i] == s[1..][i - 1];
      r
  }

  /** No two entries share an id. */
  ghost predicate UniqueIds(s: seq<Bookmark>) {
    forall i, j :: 0 <= i < j < |s| ==> s[i].id != s[j].id
  }

  /** The insert updater: an id already present leaves the list as it is,
      a fresh one goes to the head. Nothing is sorted by `created_at`. */
  function PrependUnlessPresent(s: seq<Bookmark>, b: Bookmark): (r: seq<Bookmark>)
    ensures HasId(r, b.id)
    ensures HasId(s, b.id) ==> r == s
    ensures !HasId(s, b.id) ==> |r| == |s| + 1 && r[0] == b && r[1..] == s
  {
    if HasId(s, b.id) then s else [b] + s
  }

  /** The delete updater `s.filter(b => b.id !== id)`. */
  function RemoveId(s: seq<Bookmark>, id: string): (r: seq<Bookmark>)
    ensures !HasId(r, id)
    ensures forall x :: x in r <==> x in s && x.id != id
    ensures !HasId(s, id) ==> r == s
    ensures HasId(s, id) ==> |r| < |s|
  {
    if s == [] then []
    else
      var rest := RemoveId(s[1..], id);
      assert forall x :: x in s <==> x == s[0] || x in s[1..];
      if s[0].id == id then rest else [s[0]] + rest
  }

  lemma UniqueCons(x: Bookmark, s: seq<Bookmark>)
    ensures UniqueIds([x] + s) <==> !HasId(s, x.id) && UniqueIds(s)
  {
    var t := [x] + s;
    assert forall i :: 0 <= i < |s| ==> t[i + 1] == s[i];
    if UniqueIds(t) {
      forall i, j | 0 <= i < j < |s| ensures s[i].id != s[j].id {
        assert t[i + 1] == s[i] && t[j + 1] == s[j];
      }
      forall i | 0 <= i < |s| ensures s[i].id != x.id {
        assert t[0] == x && t[i + 1] == s[i];
      }
    }
  }

  /** An insert keeps ids unique. */
  lemma PrependUnlessPresentKeepsUnique(s: seq<Bookmark>, b: Bookmark)
    requires UniqueIds(s)
    ensures UniqueIds(PrependUnlessPresent(s, b))
  {
    UniqueCons(b, s);
  }

  /** A delete keeps ids unique. */
  lemma {:induction false} RemoveIdKeepsUnique(s: seq<Bookmark>, id: string)
    requires UniqueIds(s)
    ensures UniqueIds(RemoveId(s, id))
  {
    if s != [] {
      assert s == [s[0]] + s[1..];
      UniqueCons(s[0], s[1..]);
      RemoveIdKeepsUnique(s[1..], id);
      var rest := RemoveId(s[1..], id);
      if s[0].id != id {
        UniqueCons(s[0], rest);
      }
    }
  }

  /** Delete removes exactly the entries with the id, with their
      multiplicities, and leaves every other entry's count unchanged. */
  lemma {:induction false} RemoveIdCounts(s: seq<Bookmark>, id: string, x: Bookmark)
    ensures multiset(RemoveId(s, id))[x] == if x.id == id then 0 else multiset(s)[x]
  {
    if s != [] {
      assert s == [s[0]] + s[1..];
      RemoveIdCounts(s[1..], id, x);
    }
  }

  /** Delete works piecewise, so the surviving entries keep their relative order. */
  lemma {:induction false} RemoveIdConcat(s: seq<Bookmark>, t: seq<Bookmark>, id: string)
    ensures RemoveId(s + t, id) == RemoveId(s, id) + RemoveId(t, id)
  {
    if s == [] {
      assert s + t == t;
    } else {
      assert (s + t)[1..] == s[1..] + t;
      RemoveIdConcat(s[1..], t, id);
    }
  }

  /** In a list with unique ids, the id at index k occurs in no slice that
      leaves index k out. */
  lemma UniqueIdAbsentElsewhere(s: seq<Bookmark>, k: nat, lo: nat, hi: nat)
    requires UniqueIds(s) && k < |s| && lo <= hi <= |s| && (k < lo || hi <= k)
    ensures !HasId(s[lo..hi], s[k].id)
  {
    forall i | 0 <= i < hi - lo ensures s[lo..hi][i].id != s[k].id {
      assert s[lo..hi][i] == s[lo + i];
    }
  }

  /** On a list with unique ids, deleting the id found at index k cuts out
      exactly that entry. */
  lemma {:induction false} RemoveUniqueIsExcision(s: seq<Bookmark>, k: nat)
    requires UniqueIds(s) && k < |s|
    ensures RemoveId(s, s[k].id) == s[..k] + s[k + 1..]
  {
    var id := s[k].id;
    var pre, mid, post := s[..k], [s[k]], s[k + 1..];
    assert s == pre + (mid + post);
    UniqueIdAbsentElsewhere(s, k, 0, k);
    assert s[0..k] == pre;
    UniqueIdAbsentElsewhere(s, k, k + 1, |s|);
    assert s[k + 1..|s|] == post;
    assert RemoveId(mid, id) == [] by {
      assert mid[1..] == [];
    }
    calc {
      RemoveId(s, id);
      { RemoveIdConcat(pre, mid + post, id); }
      RemoveId(pre, id) + RemoveId(mid + post, id);
      { RemoveIdConcat(mid, post, id); }
      pre + (RemoveId(mid, id) + post);
    }
  }

  /** A change pushed by the realtime channel: the new row of an INSERT, or
      the old row of a DELETE, of which the id and the owner may be absent. */
  datatype ChangeEvent =
    | Insert(row: Bookmark)
    | Delete(oldId: Option<string>, oldOwner: Option<string>)

  /** The list after one event, with no owner check. A DELETE without an id
      filters on `b.id !== undefined`, which keeps every entry. */
  function ApplyEvent(s: seq<Bookmark>, e: ChangeEvent): (r: seq<Bookmark>)
    ensures e.Insert? ==> HasId(r, e.row.id) && |r| <= |s| + 1
    ensures e.Insert? && HasId(s, e.row.id) ==> r == s
    ensures e.Insert? && !HasId(s, e.row.id) ==> r == [e.row] + s
    ensures e.Delete? && e.oldId.Some? ==> r == RemoveId(s, e.oldId.value)
    ensures e.Delete? && e.oldId.Some? ==>
              !HasId(r, e.oldId.value) && forall x :: x in r <==> x in s && x.id != e.oldId.value
    ensures e.Delete? && e.oldId.None? ==> r == s
    ensures forall x :: x in r ==> x in s || e == Insert(x)
  {
    match e
    case Insert(b) => PrependUnlessPresent(s, b)
    case Delete(oldId, _) => if oldId.Some? then RemoveId(s, oldId.value) else s
  }

  /** One event keeps ids unique. */
  lemma ApplyEventKeepsUnique(s: seq<Bookmark>, e: ChangeEvent)
    requires UniqueIds(s)
    ensures UniqueIds(ApplyEvent(s, e))
  {
    match e
    case Insert(b) => PrependUnlessPresentKeepsUnique(s, b);
    case Delete(oldId, _) => if oldId.Some? { RemoveIdKeepsUnique(s, oldId.value); }
  }

  /** The list after a stream of events, delivered in order. */
  function Replay(s: seq<Bookmark>, es: seq<ChangeEvent>): (r: seq<Bookmark>)
    ensures |r| <= |s| + |es|
    ensures forall x :: x in r ==> x in s || Insert(x) in es
    decreases |es|
  {
    if es == [] then s
    else
      var r := Replay(ApplyEvent(s, es[0]), es[1..]);
      assert forall x :: Insert(x) in es[1..] ==> Insert(x) in es;
      r
  }

  /** Events are applied in delivery order: replaying a stream in two parts
      is replaying the first part, then the second from where it left off. */
  lemma {:induction false} ReplayConcat(s: seq<Bookmark>, a: seq<ChangeEvent>, b: seq<ChangeEvent>)
    ensures Replay(s, a + b) == Replay(Replay(s, a), b)
    decreases |a|
  {
    if a == [] {
      assert a + b == b;
    } else {
      assert (a + b)[1..] == a[1..] + b;
      ReplayConcat(ApplyEvent(s, a[0]), a[1..], b);
    }
  }

  /** Any stream of events keeps ids unique. */
  lemma {:induction false} ReplayKeepsUnique(s: seq<Bookmark>, es: seq<ChangeEvent>)
    requires UniqueIds(s)
    ensures UniqueIds(Replay(s, es))
    decreases |es|
  {
    if es != [] {
      ApplyEventKeepsUnique(s, es[0]);
      ReplayKeepsUnique(ApplyEvent(s, es[0]), es[1..]);
    }
  }

  /** Inserting the same bookmark again changes nothing: duplicate delivery is idempotent. */
  lemma InsertIdempotent(s: seq<Bookmark>, b: Bookmark)
    ensures ApplyEvent(ApplyEvent(s, Insert(b)), Insert(b)) == ApplyEvent(s, Insert(b))
  {
  }

  /** Deletes leave no tombstone: a delete followed by an insert of the same
      id puts the bookmark back at the head. */
  lemma DeleteThenInsertReadds(s: seq<Bookmark>, b: Bookmark, owner: Option<string>)
    ensures Replay(s, [Delete(Some(b.id), owner), Insert(b)]) == [b] + RemoveId(s, b.id)
  {
    var es := [Delete(Some(b.id), owner), Insert(b)];
    var mid := ApplyEvent(s, es[0]);
    assert es[1..] == [Insert(b)] && es[1..][1..] == [];
    assert Replay(s, es) == Replay(mid, [Insert(b)]) == ApplyEvent(mid, Insert(b));
  }

  /** What a view shows: the empty-state panel, or a count label and the list. */
  datatype View = EmptyState | Listing(caption: string, items: seq<Bookmark>)

  /** `bookmarks.length === 1 ? 'bookmark' : 'bookmarks'`. */
  function Noun(n: nat): (w: string)
    ensures w == "bookmark" <==> n == 1
    ensures w == "bookmark" || w == "bookmarks"
  {
    if n == 1 then "bookmark" else "bookmarks"
  }

  /** `${n} ${noun}`: the label reads back as the count, one space and the noun. */
  function CountLabel(n: nat): (l: string)
    ensures var k := |Decimal(n)|;
            k < |l| && (forall i :: 0 <= i < k ==> IsDigit(l[i]))
            && DecimalValue(l[..k]) == n && l[k] == ' '
            && l[k + 1..] == Noun(n)
  {
    var d := Decimal(n);
    var l := d + " " + Noun(n);
    assert l[..|d|] == d && l[|d| + 1..] == Noun(n);
    DecimalRoundTrip(n);
    l
  }

  /** The empty state is shown exactly when the list is empty; otherwise the
      list is shown whole and in order under its count label. */
  function Render(s: seq<Bookmark>): (v: View)
    ensures v.EmptyState? <==> |s| == 0
    ensures v.Listing? ==> v.items == s && v.caption == CountLabel(|s|)
  {
    if |s| == 0 then EmptyState else Listing(CountLabel(|s|), s)
  }
}
