/** `ComicsViewModel`: the feed both comic screens read. A search resets or
    extends the list and sends one request; the request's completion is a
    separate step (`OnSuccess`, `OnFailure`); reading the slot just past the
    loaded comics pulls the next page. */
module ComicsFeed {
  import opened Wrappers
  import opened ComicData
  import opened ComicModels
  import opened SearchRequests
  import opened ReadStore
  import opened FeedCore

  /** `search(_:offset:)` on the feed: a new name resets the list and the
      state (not the total); the same name with a positive offset announces
      more data; the same name with offset 0 changes neither state nor list.
      The request always goes out with the (new) name and the offset. */
  function SearchStep(f: Feed, name: string, offset: int): (g: Feed)
    ensures name != f.searchName ==> g.state == Loading && g.comics == []
    ensures name == f.searchName && offset > 0 ==> g.state == LoadingMoreData && g.comics == f.comics
    ensures name == f.searchName && offset <= 0 ==> g.state == f.state && g.comics == f.comics
    ensures g.searchName == name && g.totalCount == f.totalCount
    ensures g.pending == Some(NewComicsSearchRequest(name, offset))
  {
    var f' := if f.searchName != name then f.(state := Loading, searchName := name, comics := [])
              else if offset > 0 then f.(state := LoadingMoreData)
              else f;
    f'.(pending := Some(NewComicsSearchRequest(f'.searchName, offset)))
  }

  /** Pulling the placeholder slot keeps the list and asks for the page at
      offset `|comics|`; for the empty search term the offset is not sent,
      so the request is the very one that fetched the first page. */
  lemma PullRequestsNextPage(f: Feed)
    requires SlotAt(f, |f.comics|).Placeholder?
    ensures var g := SearchStep(f, f.searchName, |f.comics|);
            g.comics == f.comics && g.totalCount == f.totalCount &&
            g.pending == Some(NewComicsSearchRequest(f.searchName, |f.comics|)) &&
            (f.searchName != "" ==> g.pending.value.parameters.value.offset == |f.comics|) &&
            (f.searchName == "" ==> g.pending == SearchStep(InitialFeed, "", 0).pending)
  {
  }

  /** Pulling the same slot again before the page arrives changes nothing
      more: the one outstanding request is replaced by an identical one. */
  lemma PullAgainIsIdempotent(f: Feed, offset: int)
    ensures SearchStep(SearchStep(f, f.searchName, offset), f.searchName, offset) == SearchStep(f, f.searchName, offset)
  {
  }

  /** A search for the current term at offset 0 keeps the list,
      so the first page, delivered again, is appended a second time. */
  lemma RefreshAppendsSecondCopy(name: string, page: ComicDataWrapper)
    ensures var f1 := Succeed(SearchStep(InitialFeed, name, 0), page);
            var f2 := Succeed(SearchStep(f1, name, 0), page);
            f1.comics == PageResults(page) &&
            f2.comics == PageResults(page) + PageResults(page)
  {
  }

  /** A new term starts the list afresh: after its first page the list is
      exactly that page. */
  lemma NewTermStartsAfresh(f: Feed, name: string, page: ComicDataWrapper)
    requires name != f.searchName
    ensures Succeed(SearchStep(f, name, 0), page).comics == PageResults(page)
  {
  }

  /** The launch scenario: the first page of the unfiltered listing has 20
      comics out of 59992; `count` is 21, slot 20 is the placeholder, and
      pulling it sends a request without any offset. */
  lemma FirstPageScenario(page: ComicDataWrapper)
    requires PageTotal(page) == Some(59992) && |PageResults(page)| == 20
    ensures var f1 := Succeed(SearchStep(InitialFeed, "", 0), page);
            |f1.comics| == 20 && Count(f1) == 21 && f1.state == Data &&
            SlotAt(f1, 20).Placeholder? &&
            SearchStep(f1, "", 20).state == LoadingMoreData &&
            SearchStep(f1, "", 20).pending.value.parameters.None?
  {
  }

  /** The items one `item(at:)` publisher emits for a comic: on every
      publication of `comics` it asks the store again, and repeated answers
      are dropped. `answers` are the store's answers, one per publication. */
  function ItemStream(comic: ComicDTO, answers: seq<bool>): (r: seq<Item>)
    ensures |r| <= |answers|
    ensures answers != [] ==> r != [] && r[0] == Item(comic, answers[0])
    ensures forall k :: 0 <= k < |r| ==> r[k].comic == comic
    ensures forall k :: 0 <= k < |r| - 1 ==> r[k + 1].markedAsRead == !r[k].markedAsRead
  {
    var xs := seq(|answers|, k requires 0 <= k < |answers| => Item(comic, answers[k]));
    RemoveDuplicatesInventsNothing(xs);
    assert forall y :: y in xs ==> y.comic == comic;
    RemoveDuplicates(xs)
  }

  /** How many times consecutive answers of the store differ. */
  function Toggles(answers: seq<bool>): nat
  {
    if |answers| <= 1 then 0
    else (if answers[0] != answers[1] then 1 else 0) + Toggles(answers[1..])
  }

  /** An item publisher shows the first answer, then exactly one item per
      change of the store's answer, and ends on the latest answer. */
  lemma {:induction false} ItemStreamFollowsStore(comic: ComicDTO, answers: seq<bool>)
    requires answers != []
    ensures |ItemStream(comic, answers)| == 1 + Toggles(answers)
    ensures ItemStream(comic, answers)[|ItemStream(comic, answers)| - 1] == Item(comic, answers[|answers| - 1])
  {
    var xs := seq(|answers|, k requires 0 <= k < |answers| => Item(comic, answers[k]));
    assert ItemStream(comic, answers) == RemoveDuplicates(xs);
    if |answers| > 1 {
      var rest := answers[1..];
      var ys := seq(|rest|, k requires 0 <= k < |rest| => Item(comic, rest[k]));
      ItemStreamFollowsStore(comic, rest);
      assert ItemStream(comic, rest) == RemoveDuplicates(ys);
      if answers[0] == answers[1] {
        assert [xs[0]] + xs[2..] == ys;
        assert RemoveDuplicates(xs) == RemoveDuplicates(ys);
      } else {
        assert xs[1..] == ys;
        assert RemoveDuplicates(xs) == [xs[0]] + RemoveDuplicates(ys);
      }
    }
  }

  /** Marking, republishing unchanged, and marking back: each toggle shows
      up exactly once, the idle republication not at all. */
  lemma ToggleEmitsOnce(comic: ComicDTO, read: bool)
    ensures ItemStream(comic, [read, !read, !read, read]) ==
            [Item(comic, read), Item(comic, !read), Item(comic, read)]
  {
    var answers := [read, !read, !read, read];
    assert answers[2..][1..] == answers[3..] == [read];
    assert Toggles(answers[2..]) == 1;
    assert answers[1..][1..] == answers[2..];
    assert Toggles(answers[1..]) == 1;
    assert Toggles(answers) == 2;
    ItemStreamFollowsStore(comic, answers);
  }

  class ComicsViewModel {
    var state: State
    var comics: seq<ComicDTO>
    var totalCount: int
    var searchName: string
    var currentIndex: int
    /** The request whose completion is still to come; replacing it drops
        (and so cancels) the previous subscription. */
    var pending: Option<ComicsSearchRequest>
    /** Thumbnail fetches issued by `prefetch(at:)` whose handles are kept. */
    var prefetches: seq<Url>
    /** How many times `comics` has been published; every publication makes
        each item publisher ask the store again. */
    var comicsEmissions: nat
    /** The shared read-flag store (`Storage.default`). */
    const store: Storage
    /** Which URL strings parse (`URL(string:)`). */
    const urlSyntax: UrlSyntax

    function Snapshot(): Feed
      reads this
    {
      Feed(state, comics, totalCount, searchName, pending)
    }

    ghost predicate Valid()
      reads this, store
    {
      store.Valid()
    }

    constructor (store: Storage, urlSyntax: UrlSyntax)
      requires store.Valid()
      ensures Valid() && Snapshot() == InitialFeed
      ensures currentIndex == 0 && prefetches == [] && comicsEmissions == 0
      ensures this.store == store && this.urlSyntax == urlSyntax
    {
      state := Loading;
      comics := [];
      totalCount := 0;
      searchName := "";
      currentIndex := 0;
      pending := None;
      prefetches := [];
      comicsEmissions := 0;
      this.store := store;
      this.urlSyntax := urlSyntax;
    }

    function Count(): (r: int)
      reads this
      ensures r == CountFor(|comics|, totalCount)
    {
      FeedCore.Count(Snapshot())
    }

    method Search(name: string, offset: int)
      modifies this
      ensures Snapshot() == SearchStep(old(Snapshot()), name, offset)
      ensures prefetches == if name != old(searchName) then [] else old(prefetches)
      ensures comicsEmissions == old(comicsEmissions) + if name != old(searchName) then 1 else 0
      ensures currentIndex == old(currentIndex)
    {
      if searchName != name {
        state := Loading;
        searchName := name;
        comics := [];
        comicsEmissions := comicsEmissions + 1;
        prefetches := [];
      } else if offset > 0 {
        state := LoadingMoreData;
      }
      pending := Some(NewComicsSearchRequest(searchName, offset));
    }

    /** The fetch delivered `page` (`receiveValue`, then `.finished`). */
    method OnSuccess(page: ComicDataWrapper)
      requires pending.Some?
      modifies this
      ensures Snapshot() == Succeed(old(Snapshot()), page)
      ensures comicsEmissions == old(comicsEmissions) + 1
      ensures prefetches == old(prefetches) && currentIndex == old(currentIndex)
    {
      totalCount := PageTotal(page).GetOr(|comics|);
      comics := comics + PageResults(page);
      comicsEmissions := comicsEmissions + 1;
      state := if comics == [] then NoData else Data;
      pending := None;
    }

    /** The fetch failed (`.failure`). */
    method OnFailure(message: string)
      requires pending.Some?
      modifies this
      ensures Snapshot() == Fail(old(Snapshot()), message)
      ensures comicsEmissions == old(comicsEmissions)
      ensures prefetches == old(prefetches) && currentIndex == old(currentIndex)
    {
      state := Error(Some(message));
      pending := None;
    }

    /** `comic(at:)`: a loaded comic, or the pull of the next page at the
        placeholder slot, or nothing. */
    method ComicAt(index: int) returns (r: Option<ComicDTO>)
      requires 0 <= index
      modifies this
      ensures old(SlotAt(Snapshot(), index)).Loaded? ==>
                r == Some(old(comics)[index]) && Snapshot() == old(Snapshot())
      ensures old(SlotAt(Snapshot(), index)).Placeholder? ==>
                r.None? && Snapshot() == SearchStep(old(Snapshot()), old(searchName), index)
      ensures old(SlotAt(Snapshot(), index)).Beyond? ==> r.None? && Snapshot() == old(Snapshot())
      ensures prefetches == old(prefetches) && comicsEmissions == old(comicsEmissions)
      ensures currentIndex == old(currentIndex)
    {
      if index < |comics| {
        return Some(comics[index]);
      } else if index == |comics| && index < totalCount {
        Search(searchName, index);
      }
      return None;
    }

    /** `item(at:)`: as `comic(at:)`, with the loaded comic paired with the
        store's current answer for its id (the publisher's first item). */
    method ItemAt(index: int) returns (r: Option<Item>)
      requires 0 <= index
      modifies this
      ensures old(SlotAt(Snapshot(), index)).Loaded? ==>
                r == Some(Item(old(comics)[index], store.IsMarkedAsRead(old(comics)[index].id))) &&
                Snapshot() == old(Snapshot())
      ensures old(SlotAt(Snapshot(), index)).Placeholder? ==>
                r.None? && Snapshot() == SearchStep(old(Snapshot()), old(searchName), index)
      ensures old(SlotAt(Snapshot(), index)).Beyond? ==> r.None? && Snapshot() == old(Snapshot())
      ensures prefetches == old(prefetches) && comicsEmissions == old(comicsEmissions)
      ensures currentIndex == old(currentIndex)
    {
      if index < |comics| {
        var comic := comics[index];
        return Some(Item(comic, store.IsMarkedAsRead(comic.id)));
      } else if index == |comics| && index < totalCount {
        Search(searchName, index);
      }
      return None;
    }

    /** `prefetch(at:)`: warm the thumbnail of a loaded comic; at the
        placeholder slot the lookup pulls the next page instead. */
    method Prefetch(index: int)
      requires 0 <= index
      modifies this
      ensures old(SlotAt(Snapshot(), index)).Loaded? ==>
                Snapshot() == old(Snapshot()) &&
                prefetches == old(prefetches) +
                  match ThumbnailUrl(old(comics)[index], urlSyntax)
                  case Some(u) => [u]
                  case None => []
      ensures old(SlotAt(Snapshot(), index)).Placeholder? ==>
                Snapshot() == SearchStep(old(Snapshot()), old(searchName), index) &&
                prefetches == old(prefetches)
      ensures old(SlotAt(Snapshot(), index)).Beyond? ==>
                Snapshot() == old(Snapshot()) && prefetches == old(prefetches)
      ensures comicsEmissions == old(comicsEmissions) && currentIndex == old(currentIndex)
    {
      var comic := ComicAt(index);
      if comic.Some? {
        var url := ThumbnailUrl(comic.value, urlSyntax);
        if url.Some? {
          prefetches := prefetches + [url.value];
        }
      }
    }

    /** `markAsRead(_:)`: store the toggled flag for the item's comic, then
        republish `comics` unchanged so that every item asks the store again. */
    method MarkAsRead(item: Item)
      requires Valid()
      modifies this, store
      ensures Valid()
      ensures store.records ==
                if store.available
                then Upsert(old(store.records), ReadRecord(item.comic.id, !item.markedAsRead))
                else old(store.records)
      ensures Snapshot() == old(Snapshot()) && comicsEmissions == old(comicsEmissions) + 1
      ensures prefetches == old(prefetches) && currentIndex == old(currentIndex)
    {
      var model := new ComicModel.FromComic(item.comic, urlSyntax);
      model.isRead := !item.markedAsRead;
      var rec := ReadRecord(model.id, model.isRead);
      assert rec == ReadRecord(item.comic.id, !item.markedAsRead);
      store.Insert(model);
      comics := comics;
      comicsEmissions := comicsEmissions + 1;
    }
  }

  /** Marking an item and then the item the store now reports restores the
      original answer for its comic. */
  lemma MarkTwiceRestores(rs: seq<ReadRecord>, item: Item)
    requires item.comic.id.Some?
    ensures var once := Upsert(rs, ReadRecord(item.comic.id, !item.markedAsRead));
            var seen := Query(once, item.comic.id);
            var twice := Upsert(once, ReadRecord(item.comic.id, !seen));
            seen == !item.markedAsRead && Query(twice, item.comic.id) == item.markedAsRead &&
            twice == Upsert(rs, ReadRecord(item.comic.id, item.markedAsRead))
  {
    var id := item.comic.id;
    QueryAfterUpsert(rs, ReadRecord(id, !item.markedAsRead), id);
    var once := Upsert(rs, ReadRecord(id, !item.markedAsRead));
    QueryAfterUpsert(once, ReadRecord(id, item.markedAsRead), id);
    UpsertTwice(rs, ReadRecord(id, !item.markedAsRead), ReadRecord(id, item.markedAsRead));
  }
}
