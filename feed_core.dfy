/** What the two comics view models share: their state, their `Item`, the
    `count` formula, the pull-based pagination slot, what a completed fetch
    does to the feed, and the `removeDuplicates` stage of their item
    publishers. */
module FeedCore {
  import opened Wrappers
  import opened ComicData
  import opened SearchRequests

  datatype State = Loading | Data | LoadingMoreData | NoData | Error(message: Option<string>)

  /** `Item`: a comic with the read flag the store gave for it. */
  datatype Item = Item(comic: ComicDTO, markedAsRead: bool)

  /** `Item.==`: the comic ids and the flags; titles, texts and every other
      field are ignored. */
  predicate ItemEq(a: Item, b: Item)
  {
    a.comic.id == b.comic.id && a.markedAsRead == b.markedAsRead
  }

  /** `Item.==` identifies items whose comics differ
      in everything but the id. */
  lemma ItemEqIgnoresContent(a: Item, c: ComicDTO)
    requires c.id == a.comic.id
    ensures ItemEq(a, Item(c, a.markedAsRead))
    ensures !ItemEq(a, Item(c, !a.markedAsRead))
  {
  }

  /** `publicUrl`: `comic.publicUrls.first`, i.e. the earliest url entry
      whose string is present and parses. */
  function ItemPublicUrl(item: Item, valid: UrlSyntax): (r: Option<Url>)
    ensures item.comic.urls.None? ==> r.None?
    ensures item.comic.urls.Some? ==>
      var objs := item.comic.urls.value;
      (r.Some? <==> exists i :: 0 <= i < |objs| && UrlFrom(objs[i], valid).Some?) &&
      (r.Some? ==> exists i :: 0 <= i < |objs| && UrlFrom(objs[i], valid) == r &&
                              (forall k :: 0 <= k < i ==> UrlFrom(objs[k], valid).None?))
  {
    var us := PublicUrls(item.comic, valid);
    if item.comic.urls.Some? then
      var objs := item.comic.urls.value;
      var f := u => UrlFrom(u, valid);
      CompactMapFirst(objs, f);
      assert forall i :: 0 <= i < |objs| ==> f(objs[i]) == UrlFrom(objs[i], valid);
      if us == [] then None else Some(us[0])
    else
      None
  }

  // ---------------------------------------------------------------------
  // The feed

  /** The fields both view models keep: `state`, `comics`, `totalCount`,
      `searchName`, and the request whose completion is outstanding (the
      subscription `requestCancellable` holds). */
  datatype Feed = Feed(
    state: State,
    comics: seq<ComicDTO>,
    totalCount: int,
    searchName: string,
    pending: Option<ComicsSearchRequest>)

  const InitialFeed: Feed := Feed(Loading, [], 0, "", None)

  /** The `count` formula: no slots for an empty list, otherwise one per
      loaded comic plus a trailing placeholder, capped at the total. */
  function CountFor(n: nat, total: int): (r: int)
    ensures n == 0 ==> r == 0
    ensures n > 0 ==> r <= n + 1 && r <= total && (r == n + 1 || r == total)
  {
    if n == 0 then 0 else if n + 1 <= total then n + 1 else total
  }

  function Count(f: Feed): int
  {
    CountFor(|f.comics|, f.totalCount)
  }

  /** What `item(at:)` and `comic(at:)` find at an index. */
  datatype Slot = Loaded(comic: ComicDTO) | Placeholder | Beyond

  function SlotAt(f: Feed, index: nat): (r: Slot)
    ensures r.Loaded? <==> index < |f.comics|
    ensures r.Loaded? ==> r.comic == f.comics[index]
    ensures r.Placeholder? <==> index == |f.comics| && index < f.totalCount
  {
    if index < |f.comics| then Loaded(f.comics[index])
    else if index == |f.comics| && index < f.totalCount then Placeholder
    else Beyond
  }

  /** The extra slot `count` reserves is exactly the placeholder that pulls
      the next page. */
  lemma PlaceholderIffTrigger(f: Feed)
    requires f.comics != []
    ensures Count(f) == |f.comics| + 1 <==> SlotAt(f, |f.comics|).Placeholder?
  {
  }

  /** Every slot below `count` is a loaded comic or, as the last slot, the
      placeholder. */
  lemma CountSlots(f: Feed, i: nat)
    requires i < Count(f)
    ensures SlotAt(f, i).Loaded? || (SlotAt(f, i).Placeholder? && i == Count(f) - 1)
  {
  }

  /** `updateDataModel(data:)`: the total (the pre-append count when the page
      has none), the results appended in order, and the state by emptiness. */
  function Succeed(f: Feed, page: ComicDataWrapper): (g: Feed)
    ensures g.totalCount == PageTotal(page).GetOr(|f.comics|)
    ensures |g.comics| == |f.comics| + |PageResults(page)|
    ensures g.comics[..|f.comics|] == f.comics && g.comics[|f.comics|..] == PageResults(page)
    ensures g.state == (if g.comics == [] then NoData else Data)
    ensures g.searchName == f.searchName && g.pending.None?
  {
    var comics := f.comics + PageResults(page);
    assert comics[..|f.comics|] == f.comics;
    Feed(if comics == [] then NoData else Data, comics,
         PageTotal(page).GetOr(|f.comics|), f.searchName, None)
  }

  /** The failure completion: only the state changes. */
  function Fail(f: Feed, message: string): (g: Feed)
    ensures g.state == Error(Some(message))
    ensures g.comics == f.comics && g.totalCount == f.totalCount
    ensures g.searchName == f.searchName && g.pending.None?
  {
    f.(state := Error(Some(message)), pending := None)
  }

  /** A page without a total falls back to the count before appending, so
      `count` never covers the page just appended. */
  lemma CountHidesPageWithoutTotal(f: Feed, page: ComicDataWrapper)
    requires PageTotal(page).None?
    ensures Count(Succeed(f, page)) == |f.comics|
    ensures PageResults(page) != [] ==> Count(Succeed(f, page)) < |Succeed(f, page).comics|
  {
  }

  // ---------------------------------------------------------------------
  // removeDuplicates

  /** Combine's `removeDuplicates()` under `Item.==`: an element equal to
      the last one let through is dropped. */
  function RemoveDuplicates(xs: seq<Item>): (r: seq<Item>)
    decreases |xs|
    ensures |r| <= |xs|
    ensures xs != [] ==> r != [] && r[0] == xs[0]
    ensures forall k :: 0 <= k < |r| - 1 ==> !ItemEq(r[k], r[k + 1])
  {
    if |xs| <= 1 then xs
    else if ItemEq(xs[0], xs[1]) then RemoveDuplicates([xs[0]] + xs[2..])
    else [xs[0]] + RemoveDuplicates(xs[1..])
  }

  /** Nothing is invented: every emitted item was received. */
  lemma {:induction false} RemoveDuplicatesInventsNothing(xs: seq<Item>)
    decreases |xs|
    ensures forall y :: y in RemoveDuplicates(xs) ==> y in xs
  {
    if |xs| > 1 {
      if ItemEq(xs[0], xs[1]) {
        var ys := [xs[0]] + xs[2..];
        RemoveDuplicatesInventsNothing(ys);
        assert forall y :: y in ys ==> y in xs;
      } else {
        RemoveDuplicatesInventsNothing(xs[1..]);
        assert RemoveDuplicates(xs) == [xs[0]] + RemoveDuplicates(xs[1..]);
      }
    }
  }

  /** Nothing is lost: every received item equals one that was emitted. */
  lemma {:induction false} RemoveDuplicatesLosesNothing(xs: seq<Item>)
    decreases |xs|
    ensures forall x :: x in xs ==> exists y :: y in RemoveDuplicates(xs) && ItemEq(x, y)
  {
    if |xs| > 1 {
      var r := RemoveDuplicates(xs);
      if ItemEq(xs[0], xs[1]) {
        var ys := [xs[0]] + xs[2..];
        assert r == RemoveDuplicates(ys);
        RemoveDuplicatesLosesNothing(ys);
        forall x | x in xs ensures exists y :: y in r && ItemEq(x, y) {
          if x == xs[1] {
            assert xs[0] in ys;
            var y :| y in r && ItemEq(xs[0], y);
            assert ItemEq(x, y);
          } else {
            assert x in ys;
          }
        }
      } else {
        var rest := RemoveDuplicates(xs[1..]);
        assert r == [xs[0]] + rest;
        RemoveDuplicatesLosesNothing(xs[1..]);
        forall x | x in xs ensures exists y :: y in r && ItemEq(x, y) {
          if x == xs[0] {
            assert x in r && ItemEq(x, x);
          } else {
            assert x in xs[1..];
            var y :| y in rest && ItemEq(x, y);
            assert y in r;
          }
        }
      }
    } else {
      forall x | x in xs ensures exists y :: y in RemoveDuplicates(xs) && ItemEq(x, y) {
        assert x in RemoveDuplicates(xs) && ItemEq(x, x);
      }
    }
  }

  /** A sequence with no two neighbours equal passes through unchanged. */
  lemma {:induction false} NoRepeatsPassThrough(xs: seq<Item>)
    requires forall k :: 0 <= k < |xs| - 1 ==> !ItemEq(xs[k], xs[k + 1])
    ensures RemoveDuplicates(xs) == xs
  {
    if |xs| > 1 {
      NoRepeatsPassThrough(xs[1..]);
    }
  }

  /** `removeDuplicates` as a stream: a new element is emitted exactly when
      it differs from the element received just before it. */
  lemma {:induction false} RemoveDuplicatesSnoc(xs: seq<Item>, x: Item)
    decreases |xs|
    ensures RemoveDuplicates(xs + [x]) ==
            if xs != [] && ItemEq(xs[|xs| - 1], x) then RemoveDuplicates(xs) else RemoveDuplicates(xs) + [x]
  {
    var ys := xs + [x];
    if xs == [] {
      assert ys == [x];
    } else if |xs| == 1 {
      assert ys == [xs[0], x];
      if ItemEq(xs[0], x) {
        assert [ys[0]] + ys[2..] == [xs[0]];
      } else {
        assert ys[1..] == [x];
      }
    } else if ItemEq(xs[0], xs[1]) {
      var zs := [xs[0]] + xs[2..];
      assert [ys[0]] + ys[2..] == zs + [x];
      RemoveDuplicatesSnoc(zs, x);
      assert zs[|zs| - 1] == (if |xs| == 2 then xs[0] else xs[|xs| - 1]);
    } else {
      assert ys[1..] == xs[1..] + [x];
      RemoveDuplicatesSnoc(xs[1..], x);
      assert xs[1..][|xs[1..]| - 1] == xs[|xs| - 1];
    }
  }

  /** A stream whose items all equal the first collapses to that item. */
  lemma {:induction false} AllEqualCollapse(xs: seq<Item>)
    requires xs != []
    requires forall k :: 0 <= k < |xs| ==> ItemEq(xs[0], xs[k])
    ensures RemoveDuplicates(xs) == [xs[0]]
    decreases |xs|
  {
    if |xs| > 1 {
      var ys := [xs[0]] + xs[2..];
      assert forall k :: 0 <= k < |ys| ==> ItemEq(ys[0], ys[k]) by {
        forall k | 0 <= k < |ys| ensures ItemEq(ys[0], ys[k]) {
          if k > 0 { assert ys[k] == xs[k + 1]; }
        }
      }
      AllEqualCollapse(ys);
    }
  }

  lemma RemoveDuplicatesIdempotent(xs: seq<Item>)
    ensures RemoveDuplicates(RemoveDuplicates(xs)) == RemoveDuplicates(xs)
  {
    NoRepeatsPassThrough(RemoveDuplicates(xs));
  }
}
