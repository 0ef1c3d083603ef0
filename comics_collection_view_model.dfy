/** `ComicsCollectionViewModel`: the older variant of the feed. It has no
    thumbnail prefetching, a same-name search at offset 0 shows `loading`,
    and an item publisher asks the store once, when it is created. */
module ComicsCollectionFeed {
  import opened Wrappers
  import opened ComicData
  import opened ComicModels
  import opened SearchRequests
  import opened ReadStore
  import opened FeedCore
  import ComicsFeed

  /** `search(_:offset:)` on the feed: a new name resets the list and shows
      `loading`; the same name shows `loadingMoreData` for a positive offset
      and `loading` otherwise, keeping the list in both cases. */
  function SearchStep(f: Feed, name: string, offset: int): (g: Feed)
    ensures name != f.searchName ==> g.state == Loading && g.comics == []
    ensures name == f.searchName ==> g.comics == f.comics
    ensures name == f.searchName ==> g.state == if offset > 0 then LoadingMoreData else Loading
    ensures g.searchName == name && g.totalCount == f.totalCount
    ensures g.pending == Some(NewComicsSearchRequest(name, offset))
  {
    var f' := if f.searchName != name then f.(state := Loading, searchName := name, comics := [])
              else if offset > 0 then f.(state := LoadingMoreData)
              else f.(state := Loading);
    f'.(pending := Some(NewComicsSearchRequest(f'.searchName, offset)))
  }

  /** The two variants agree on every search except the same-name search at
      offset 0, where only this one switches to `loading`. */
  lemma VariantsDifferOnlyOnRefresh(f: Feed, name: string, offset: int)
    ensures SearchStep(f, name, offset) ==
            if name == f.searchName && offset <= 0
            then ComicsFeed.SearchStep(f, name, offset).(state := Loading)
            else ComicsFeed.SearchStep(f, name, offset)
  {
  }

  /** A same-term search at offset 0 shows `loading` yet still appends the first page
      after the list it keeps. */
  lemma RefreshShowsLoadingAndAppends(f: Feed, page: ComicDataWrapper)
    ensures SearchStep(f, f.searchName, 0).state == Loading
    ensures Succeed(SearchStep(f, f.searchName, 0), page).comics == f.comics + PageResults(page)
  {
  }

  /** The items one `item(at:)` publisher of this variant emits: the comic
      now at `index` on every publication of `comics`, combined with the one
      answer the store gave when the publisher was made. `None` when some
      publication no longer has `index`, where the subscript `$0[index]`
      traps. */
  function StaleItemStream(snapshots: seq<seq<ComicDTO>>, index: nat, answer: bool): (r: Option<seq<Item>>)
    ensures r.None? <==> exists k :: 0 <= k < |snapshots| && index >= |snapshots[k]|
    ensures r.Some? ==> |r.value| <= |snapshots|
    ensures r.Some? && snapshots != [] ==> r.value != [] && r.value[0] == Item(snapshots[0][index], answer)
    ensures r.Some? ==> forall k :: 0 <= k < |r.value| ==>
              r.value[k].markedAsRead == answer &&
              exists j :: 0 <= j < |snapshots| && r.value[k].comic == snapshots[j][index]
  {
    if forall k :: 0 <= k < |snapshots| ==> index < |snapshots[k]| then
      var xs := seq(|snapshots|, k requires 0 <= k < |snapshots| => Item(snapshots[k][index], answer));
      RemoveDuplicatesInventsNothing(xs);
      assert forall y :: y in xs ==>
        (y.markedAsRead == answer && exists j :: 0 <= j < |snapshots| && y.comic == snapshots[j][index]);
      Some(RemoveDuplicates(xs))
    else
      None
  }

  /** Republishing cannot change what an open item shows: as long as every
      publication has a comic with the same id at `index` (the republication
      after a mark, a page appended behind it), the publisher emits its
      first item and nothing more, whatever the store now answers. */
  lemma MarkNeverReachesOpenItem(snapshots: seq<seq<ComicDTO>>, index: nat, answer: bool)
    requires snapshots != [] && index < |snapshots[0]|
    requires forall k :: 0 <= k < |snapshots| ==>
               index < |snapshots[k]| && snapshots[k][index].id == snapshots[0][index].id
    ensures StaleItemStream(snapshots, index, answer) == Some([Item(snapshots[0][index], answer)])
  {
    var xs := seq(|snapshots|, k requires 0 <= k < |snapshots| => Item(snapshots[k][index], answer));
    assert StaleItemStream(snapshots, index, answer) == Some(RemoveDuplicates(xs));
    AllEqualCollapse(xs);
  }

  /** A new term publishes the empty list, so every open item publisher of
      this variant traps on its subscript. */
  lemma NewTermTrapsOpenItem(f: Feed, name: string, offset: int, index: nat, answer: bool)
    requires index < |f.comics| && name != f.searchName
    ensures StaleItemStream([f.comics, SearchStep(f, name, offset).comics], index, answer).None?
  {
    assert index >= |[f.comics, SearchStep(f, name, offset).comics][1]|;
  }

  class ComicsCollectionViewModel {
    var state: State
    var comics: seq<ComicDTO>
    var totalCount: int
    var searchName: string
    var currentIndex: int
    /** The request whose completion is still to come. */
    var pending: Option<ComicsSearchRequest>
    /** How many times `comics` has been published. */
    var comicsEmissions: nat
    /** The shared read-flag store (`Storage.default`). */
    const store: Storage
    /** Which URL strings parse (`URL(string:)`). */
    const urlSyntax: UrlSyntax

    function Snapshot(): Feed
      reads this
    {
      Feed(state, comics, totalCount, searchName, pending)
    }

    ghost predicate Valid()
      reads this, store
    {
      store.Valid()
    }

    constructor (store: Storage, urlSyntax: UrlSyntax)
      requires store.Valid()
      ensures Valid() && Snapshot() == InitialFeed
      ensures currentIndex == 0 && comicsEmissions == 0
      ensures this.store == store && this.urlSyntax == urlSyntax
    {
      state := Loading;
      comics := [];
      totalCount := 0;
      searchName := "";
      currentIndex := 0;
      pending := None;
      comicsEmissions := 0;
      this.store := store;
      this.urlSyntax := urlSyntax;
    }

    function Count(): (r: int)
      reads this
      ensures r == CountFor(|comics|, totalCount)
    {
      FeedCore.Count(Snapshot())
    }

    method Search(name: string, offset: int)
      modifies this
      ensures Snapshot() == SearchStep(old(Snapshot()), name, offset)
      ensures comicsEmissions == old(comicsEmissions) + if name != old(searchName) then 1 else 0
      ensures currentIndex == old(currentIndex)
    {
      if searchName != name {
        state := Loading;
        searchName := name;
        comics := [];
        comicsEmissions := comicsEmissions + 1;
      } else if offset > 0 {
        state := LoadingMoreData;
      } else {
        state := Loading;
      }
      pending := Some(NewComicsSearchRequest(searchName, offset));
    }

    method OnSuccess(page: ComicDataWrapper)
      requires pending.Some?
      modifies this
      ensures Snapshot() == Succeed(old(Snapshot()), page)
      ensures comicsEmissions == old(comicsEmissions) + 1 && currentIndex == old(currentIndex)
    {
      totalCount := PageTotal(page).GetOr(|comics|);
      comics := comics + PageResults(page);
      comicsEmissions := comicsEmissions + 1;
      state := if comics == [] then NoData else Data;
      pending := None;
    }

    method OnFailure(message: string)
      requires pending.Some?
      modifies this
      ensures Snapshot() == Fail(old(Snapshot()), message)
      ensures comicsEmissions == old(comicsEmissions) && currentIndex == old(currentIndex)
    {
      state := Error(Some(message));
      pending := None;
    }

    method ComicAt(index: int) returns (r: Option<ComicDTO>)
      requires 0 <= index
      modifies this
      ensures old(SlotAt(Snapshot(), index)).Loaded? ==>
                r == Some(old(comics)[index]) && Snapshot() == old(Snapshot())
      ensures old(SlotAt(Snapshot(), index)).Placeholder? ==>
                r.None? && Snapshot() == SearchStep(old(Snapshot()), old(searchName), index)
      ensures old(SlotAt(Snapshot(), index)).Beyond? ==> r.None? && Snapshot() == old(Snapshot())
      ensures comicsEmissions == old(comicsEmissions) && currentIndex == old(currentIndex)
    {
      if index < |comics| {
        return Some(comics[index]);
      } else if index == |comics| && index < totalCount {
        Search(searchName, index);
      }
      return None;
    }

    method ItemAt(index: int) returns (r: Option<Item>)
      requires 0 <= index
      modifies this
      ensures old(SlotAt(Snapshot(), index)).Loaded? ==>
                r == Some(Item(old(comics)[index], store.IsMarkedAsRead(old(comics)[index].id))) &&
                Snapshot() == old(Snapshot())
      ensures old(SlotAt(Snapshot(), index)).Placeholder? ==>
                r.None? && Snapshot() == SearchStep(old(Snapshot()), old(searchName), index)
      ensures old(SlotAt(Snapshot(), index)).Beyond? ==> r.None? && Snapshot() == old(Snapshot())
      ensures comicsEmissions == old(comicsEmissions) && currentIndex == old(currentIndex)
    {
      if index < |comics| {
        return Some(Item(comics[index], store.IsMarkedAsRead(comics[index].id)));
      } else if index == |comics| && index < totalCount {
        Search(searchName, index);
      }
      return None;
    }

    method MarkAsRead(item: Item)
      requires Valid()
      modifies this, store
      ensures Valid()
      ensures store.records ==
                if store.available
                then Upsert(old(store.records), ReadRecord(item.comic.id, !item.markedAsRead))
                else old(store.records)
      ensures Snapshot() == old(Snapshot()) && comicsEmissions == old(comicsEmissions) + 1
      ensures currentIndex == old(currentIndex)
    {
      var model := new ComicModel.FromComic(item.comic, urlSyntax);
      model.isRead := !item.markedAsRead;
      var rec := ReadRecord(model.id, model.isRead);
      assert rec == ReadRecord(item.comic.id, !item.markedAsRead);
      store.Insert(model);
      comics := comics;
      comicsEmissions := comicsEmissions + 1;
    }
  }
}
