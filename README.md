# Marvel comics feed: a Dafny model

This project models the core of an iOS comics browser: the feed that
searches the Marvel comics API page by page, the records it shows, and the
local store of "read" flags it overlays on them.

- `ComicData` (`comic_data.dfy`): the comic record as decoded (`ComicDTO`),
  the page that carries it (`ComicDataWrapper`), and the derived fields: body
  text, header, texts, thumbnail URL (`path + "." + ext`) and public URLs.
  Swift's `compactMap` is one generic function with its own lemmas.
  Foundation's `URL(string:)` is a parameter `valid: string -> bool` that
  decides which strings parse. A parsed URL keeps its input string as its
  `absoluteString` (see "## Left out").
- `ComicModels` (`comic_model.dfy`): the persisted `ComicModel` class. All
  fields are `const` except `isRead`. Its `text` and `header` are derived
  differently from the record's. The lemmas `HeadersDisagree` and
  `NoTextHeaders` state when the two headers differ.
- `SearchRequests` (`search_request.dfy`): the search request. An empty name
  sends no parameters, so the offset is dropped.
- `ReadStore` (`storage.dfy`): the `Storage` class. It holds a sequence of
  `(id, isRead)` records and keeps ids unique as its invariant. Insert is a
  true replace by id. The query is synchronous. A store whose container
  could not be created ignores writes and answers `false`.
- `FeedCore` (`feed_core.dfy`): what both view models share. It holds the
  state, `Item` and its equality, the `count` formula, the slot an index
  falls into (loaded comic, placeholder, beyond), the success and failure
  completions, and `removeDuplicates`.
- `ComicsFeed` (`comics_view_model.dfy`) and `ComicsCollectionFeed`
  (`comics_collection_view_model.dfy`): the two view models as classes over
  their own fields. Each has a pure `SearchStep` that specifies `Search`.
  An asynchronous fetch is two steps. `Search` records the outstanding
  request in `pending`. `OnSuccess(page)` and `OnFailure(message)` play the
  completion closure. Assigning `requestCancellable` releases the previous
  subscription, which cancels it. So only the latest request can complete,
  and both completion methods require a request to be outstanding.
  `comicsEmissions` counts the publications of `comics`, including the one
  `markAsRead` makes by assigning the list to itself. In `ComicsViewModel`
  each publication makes every open item publisher ask the store again. In
  `ComicsCollectionViewModel` an item publisher asks the store once, when
  it is made, and re-reads `comics[index]` on each publication instead.

Behaviour of the code that the model keeps, where a reader might expect
otherwise:

- A search for the current term at offset 0 does not clear the list. The
  first page is therefore appended a second time
  (`RefreshAppendsSecondCopy`). A change of the search text is a new term
  and clears the list (names are compared code point by code point; see
  "## Left out"). The search bar sends a search for the current term
  only when it reports an update without a change of text, for example when
  it is activated while its text equals the current term (`""` at launch).
  Pull-to-refresh always searches for the empty term, so it hits this case
  only while the empty term is the current one; under any other term it
  starts afresh.
- In `ComicsCollectionViewModel`, an item publisher subscripts each new
  publication of the list at its index. A new term publishes the empty list,
  and every publisher opened on the old list then traps
  (`NewTermTrapsOpenItem`).
- Paging the empty search term sends no offset. The "next page" request is
  the first-page request again (`PullRequestsNextPage`, `FirstPageScenario`).
- A page without a total sets the total to the length before appending. The
  page just appended is then never counted (`CountHidesPageWithoutTotal`).
- `markAsRead` for a comic without an id still writes a record with a nil
  id. It replaces any other nil-id record. The query for a nil id stays
  `false`.
- A new search term empties the list but keeps the old total.

## Model

| member | source | states |
|---|---|---|
| ComicData.CompactMap | MarvelComics-ios/Sources/Core/DataModel/Comic.swift:46-48 | `compactMap` keeps at most as many values as it is given, every present result, and nothing that is not a present result |
| ComicData.CompactMapAppend | MarvelComics-ios/Sources/Core/DataModel/Comic.swift:57-64 | `compactMap` keeps order: the result for a concatenation is the concatenation of the results |
| ComicData.CompactMapFirst | MarvelComics-ios/Sources/Screens/ComicsFeed/ComicsViewModel.swift:25-27 | the result is non-empty iff some element maps to a value, and its first value comes from the first such element |
| ComicData.Text | MarvelComics-ios/Sources/Core/DataModel/Comic.swift:38-40 | the body text is the text of the first text object whenever there is one, and absent when there are no objects or that text is nil |
| ComicData.Header | MarvelComics-ios/Sources/Core/DataModel/Comic.swift:42-44 | the header is "The Story" iff the body text is present and non-empty, otherwise "" |
| ComicData.Texts | MarvelComics-ios/Sources/Core/DataModel/Comic.swift:46-48 | the texts are `[]` without text objects, no more than the objects, and exactly the present texts |
| ComicData.TextIsFirstOfTexts | MarvelComics-ios/Sources/Core/DataModel/Comic.swift:38-48 | a present body text is the first of the texts; no texts means no body text |
| ComicData.TextsWithoutText | MarvelComics-ios/Sources/Core/DataModel/Comic.swift:38-48 | a record whose first text object has no text has no body text and an empty header even though it has texts |
| ComicData.EmptyRecord | MarvelComics-ios-Tests/Core/DataModel/Comic_Tests.swift:42-51 | a record without text objects, thumbnail or urls has header "", no body text, no texts, no thumbnail URL and no public URLs, for any URL parser |
| ComicData.ThumbnailUrl | MarvelComics-ios/Sources/Core/DataModel/Comic.swift:50-55 | the thumbnail URL exists iff path and extension are both present and `path + "." + ext` parses, and it is that string |
| ComicData.ThumbnailUrlSplits | MarvelComics-ios/Sources/Core/DataModel/Comic.swift:50-55 | the thumbnail URL string splits at its last dot back into the path and the extension (for an extension without a dot) |
| ComicData.ParsedUrls | MarvelComics-ios/Sources/Core/DataModel/Comic.swift:57-64 | the public URLs are no more than the url entries, all parse, and are exactly the present, parseable url strings |
| ComicData.PublicUrls | MarvelComics-ios/Sources/Core/DataModel/Comic.swift:57-64 | no url list gives `[]`; otherwise the parsed list of the entries |
| ComicData.ParsedUrlsAppend | MarvelComics-ios/Sources/Core/DataModel/Comic.swift:57-64 | dropping unparseable entries keeps the order of the rest |
| ComicData.AntManRecord | MarvelComics-ios-Tests/Core/DataModel/Comic_Tests.swift:54-69 | the test record `Ant-Man (2003) #2` gets header "The Story", its full body text, thumbnail `...4bc69f33cafc0.jpg` and exactly its one public URL, given that both URLs parse |
| ComicModels.ComicModel.constructor | MarvelComics-ios/Sources/Core/DataModel/ComicModel.swift:24-38 | the designated initialiser stores every field as given |
| ComicModels.ComicModel.FromComic | MarvelComics-ios/Sources/Core/DataModel/ComicModel.swift:40-49 | `init(comic:)` copies id, title, texts, thumbnail URL and public URLs of the record and starts unread |
| ComicModels.ComicModel.Text | MarvelComics-ios/Sources/Core/DataModel/ComicModel.swift:9-11 | the model's text is present iff it has texts, and is the first of them |
| ComicModels.ComicModel.Header | MarvelComics-ios/Sources/Core/DataModel/ComicModel.swift:13-15 | the model's header is "" only for a present empty text, otherwise "The Story" |
| ComicModels.HeadersDisagree | MarvelComics-ios/Sources/Core/DataModel/ComicModel.swift:13-15 | a model built from a record has a different header than the record iff the record has no body text and its first surviving text is absent or non-empty |
| ComicModels.NoTextHeaders | MarvelComics-ios/Sources/Core/DataModel/ComicModel.swift:13-15 | for a record without text objects the record's header is "" and its model's header is "The Story" |
| SearchRequests.NewComicsSearchRequest | MarvelComics-ios/Sources/Core/APIRequests/ComicsSearchAPIRequest.swift:12-30 | a GET to the fixed comics path with Marvel auth, the name as given, no parameters iff the name is empty, else `(titleStartsWith: name, offset)` |
| SearchRequests.RequestsEqualIff | MarvelComics-ios/Sources/Core/APIRequests/ComicsSearchAPIRequest.swift:20-30 | two requests are equal iff the names are equal and, for a non-empty name, the offsets are; the empty name drops the offset |
| ReadStore.WithoutId | MarvelComics-ios/Sources/Core/DataModel/Storage.swift:25-28 | the batch delete keeps exactly the records with another id |
| ReadStore.Upsert | MarvelComics-ios/Sources/Core/DataModel/Storage.swift:23-31 | after an insert the new record is last, no other record has its id, records with other ids are unchanged in order, and unique ids stay unique |
| ReadStore.WithoutRecord | MarvelComics-ios/Sources/Core/DataModel/Storage.swift:33-36 | deleting a model keeps exactly the other records |
| ReadStore.WithoutRecordKeepsUnique | MarvelComics-ios/Sources/Core/DataModel/Storage.swift:33-36 | deleting keeps ids unique |
| ReadStore.Query | MarvelComics-ios/Sources/Core/DataModel/Storage.swift:38-54 | the query can only be true for a present id |
| ReadStore.QueryMeansReadRecord | MarvelComics-ios/Sources/Core/DataModel/Storage.swift:38-54 | the query is true iff the id is present and some record has that id and a set flag |
| ReadStore.QueryAfterUpsert | MarvelComics-ios/Sources/Core/DataModel/Storage.swift:23-49 | right after an insert the query for the inserted id gives the inserted flag (false for a nil id); other ids answer as before |
| ReadStore.UpsertTwice | MarvelComics-ios/Sources/Core/DataModel/Storage.swift:23-31 | two inserts for one id leave what the second alone leaves |
| ReadStore.QueryAfterDelete | MarvelComics-ios/Sources/Core/DataModel/Storage.swift:33-49 | deleting a read model clears its id's flag; deleting an unread one changes no answer |
| ReadStore.Storage.constructor | MarvelComics-ios/Sources/Core/DataModel/Storage.swift:11-21 | the store starts empty, available iff the container could be created |
| ReadStore.Storage.Insert | MarvelComics-ios/Sources/Core/DataModel/Storage.swift:23-31 | an available store replaces the records of the model's id with the model's record, after which the query gives the model's flag; an unavailable store is unchanged |
| ReadStore.Storage.Delete | MarvelComics-ios/Sources/Core/DataModel/Storage.swift:33-36 | an available store drops the model's record; an unavailable store is unchanged |
| ReadStore.Storage.IsMarkedAsRead | MarvelComics-ios/Sources/Core/DataModel/Storage.swift:38-54 | a true answer needs an available store and a present id |
| ReadStore.UnavailableAnswersFalse | MarvelComics-ios/Sources/Core/DataModel/Storage.swift:11-54 | a store without a container answers false for every id |
| FeedCore.ItemEq | MarvelComics-ios/Sources/Screens/ComicsFeed/ComicsViewModel.swift:14-16 | `Item.==`: equal comic ids and equal flags (no contract of its own; stated by the next row) |
| FeedCore.ItemEqIgnoresContent | MarvelComics-ios/Sources/Screens/ComicsFeed/ComicsViewModel.swift:14-16 | items are equal when the comic ids and the flags are, whatever else differs, and unequal when the flags differ |
| FeedCore.ItemPublicUrl | MarvelComics-ios/Sources/Screens/ComicsFeed/ComicsViewModel.swift:25-27 | an item's public URL is the earliest url entry that is present and parses, absent iff there is none |
| FeedCore.CountFor | MarvelComics-ios/Sources/Screens/ComicsFeed/ComicsViewModel.swift:74-81 | count is 0 for an empty list, otherwise at most loaded+1 and at most the total, and equal to one of them |
| FeedCore.SlotAt | MarvelComics-ios/Sources/Screens/ComicsFeed/ComicsViewModel.swift:53-72 | an index is a loaded comic iff below the list length, and the placeholder iff it equals the length and is below the total |
| FeedCore.PlaceholderIffTrigger | MarvelComics-ios/Sources/Screens/ComicsFeed/ComicsViewModel.swift:53-81 | for a non-empty list, count reserves the extra slot iff that slot is the one that pulls the next page |
| FeedCore.CountSlots | MarvelComics-ios/Sources/Screens/ComicsFeed/ComicsViewModel.swift:53-81 | every slot below count is a loaded comic or, as the last slot, the placeholder |
| FeedCore.Succeed | MarvelComics-ios/Sources/Screens/ComicsFeed/ComicsViewModel.swift:135-141 | a page sets the total (pre-append length if absent), appends its results in order after the existing ones, and sets noData iff the list is empty, else data |
| FeedCore.Fail | MarvelComics-ios/Sources/Screens/ComicsFeed/ComicsViewModel.swift:105-111 | a failure sets error(message) and leaves list, total and name alone |
| FeedCore.CountHidesPageWithoutTotal | MarvelComics-ios/Sources/Screens/ComicsFeed/ComicsViewModel.swift:74-141 | after a page without a total, count equals the length before the page, so the appended page is never counted |
| FeedCore.RemoveDuplicates | MarvelComics-ios/Sources/Screens/ComicsFeed/ComicsViewModel.swift:65 | `removeDuplicates` keeps the first item, emits no two equal neighbours and never grows the stream |
| FeedCore.RemoveDuplicatesSnoc | MarvelComics-ios/Sources/Screens/ComicsFeed/ComicsViewModel.swift:65 | fed one more element, `removeDuplicates` emits it exactly when it differs from the element received just before it (or is the first), and otherwise emits nothing more |
| FeedCore.RemoveDuplicatesInventsNothing | MarvelComics-ios/Sources/Screens/ComicsFeed/ComicsViewModel.swift:65 | every emitted item was received |
| FeedCore.RemoveDuplicatesLosesNothing | MarvelComics-ios/Sources/Screens/ComicsFeed/ComicsViewModel.swift:65 | every received item equals an emitted one |
| FeedCore.NoRepeatsPassThrough | MarvelComics-ios/Sources/Screens/ComicsFeed/ComicsViewModel.swift:65 | a stream without equal neighbours passes unchanged |
| FeedCore.RemoveDuplicatesIdempotent | MarvelComics-ios/Sources/Screens/ComicsFeed/ComicsViewModel.swift:65 | deduplicating twice is deduplicating once |
| ComicsFeed.SearchStep | MarvelComics-ios/Sources/Screens/ComicsFeed/ComicsViewModel.swift:92-102 | a new name sets loading, the name and an empty list but keeps the total; the same name sets loadingMoreData for offset > 0 and changes nothing for offset 0; one request for (name, offset) is outstanding |
| ComicsFeed.PullRequestsNextPage | MarvelComics-ios/Sources/Screens/ComicsFeed/ComicsViewModel.swift:53-102 | pulling the placeholder keeps the list and requests offset = length; for the empty term the request carries no offset and equals the first-page request |
| ComicsFeed.PullAgainIsIdempotent | MarvelComics-ios/Sources/Screens/ComicsFeed/ComicsViewModel.swift:92-102 | pulling the same slot again before the page arrives changes nothing |
| ComicsFeed.RefreshAppendsSecondCopy | MarvelComics-ios/Sources/Screens/ComicsFeed/ComicsViewModel.swift:92-141 | a same-term search at offset 0 keeps the list, so the first page delivered again is appended a second time |
| ComicsFeed.NewTermStartsAfresh | MarvelComics-ios/Sources/Screens/ComicsFeed/ComicsViewModel.swift:93-97 | after a new term's first page the list is exactly that page |
| ComicsFeed.FirstPageScenario | MarvelComics-ios/Sources/Screens/ComicsFeed/ComicsViewModel.swift:53-141 | first unfiltered page of 20 out of 59992: count 21, slot 20 is the placeholder, pulling it shows loadingMoreData and sends no offset |
| ComicsFeed.ItemStream | MarvelComics-ios/Sources/Screens/ComicsFeed/ComicsViewModel.swift:56-65 | the items a publisher emits: never more than the publications, the first answer first, always the captured comic, and each emitted flag the opposite of the one before |
| ComicsFeed.ItemStreamFollowsStore | MarvelComics-ios/Sources/Screens/ComicsFeed/ComicsViewModel.swift:56-65 | for any non-empty run of store answers the publisher emits exactly one item more than the number of changes between consecutive answers, and its last item carries the latest answer |
| ComicsFeed.ToggleEmitsOnce | MarvelComics-ios/Sources/Screens/ComicsFeed/ComicsViewModel.swift:53-67 | an item publisher re-asks the store on every publication: mark, idle republish, mark back emits each toggle once and the idle one not at all |
| ComicsFeed.MarkTwiceRestores | MarvelComics-ios/Sources/Screens/ComicsFeed/ComicsViewModel.swift:128-133 | marking an item, then marking the item the store now reports, restores the original flag and equals a single write of it |
| ComicsFeed.ComicsViewModel.constructor | MarvelComics-ios/Sources/Screens/ComicsFeed/ComicsViewModel.swift:42-51 | starts loading, empty, total 0, name "", index 0, nothing outstanding |
| ComicsFeed.ComicsViewModel.Count | MarvelComics-ios/Sources/Screens/ComicsFeed/ComicsViewModel.swift:74-81 | the count of the current fields |
| ComicsFeed.ComicsViewModel.Search | MarvelComics-ios/Sources/Screens/ComicsFeed/ComicsViewModel.swift:92-115 | the new fields are `SearchStep` of the old; a new name also clears the prefetches and publishes the list once |
| ComicsFeed.ComicsViewModel.OnSuccess | MarvelComics-ios/Sources/Screens/ComicsFeed/ComicsViewModel.swift:109-141 | the new fields are `Succeed` of the old, and the list is published once |
| ComicsFeed.ComicsViewModel.OnFailure | MarvelComics-ios/Sources/Screens/ComicsFeed/ComicsViewModel.swift:105-111 | the new fields are `Fail` of the old; nothing is published |
| ComicsFeed.ComicsViewModel.ComicAt | MarvelComics-ios/Sources/Screens/ComicsFeed/ComicsViewModel.swift:83-90 | a loaded slot returns its comic and changes nothing; the placeholder returns nothing and performs `search(searchName, offset: index)`; beyond it nothing happens |
| ComicsFeed.ComicsViewModel.ItemAt | MarvelComics-ios/Sources/Screens/ComicsFeed/ComicsViewModel.swift:53-72 | as `ComicAt`, the loaded comic paired with the store's answer for its id |
| ComicsFeed.ComicsViewModel.Prefetch | MarvelComics-ios/Sources/Screens/ComicsFeed/ComicsViewModel.swift:117-126 | a loaded slot adds its thumbnail fetch (if it has a thumbnail URL) and changes nothing else; the placeholder pulls the next page instead |
| ComicsFeed.ComicsViewModel.MarkAsRead | MarvelComics-ios/Sources/Screens/ComicsFeed/ComicsViewModel.swift:128-133 | the store gets the toggled flag for the item's id (nothing when unavailable), the feed is unchanged and the list is published once more |
| ComicsCollectionFeed.SearchStep | MarvelComics-ios/Sources/Screens/ComicsFeed/ComicsCollectionViewModel.swift:88-99 | a new name sets loading, the name and an empty list; the same name sets loadingMoreData for offset > 0 and loading otherwise, keeping the list; one request for (name, offset) is outstanding |
| ComicsCollectionFeed.VariantsDifferOnlyOnRefresh | MarvelComics-ios/Sources/Screens/ComicsFeed/ComicsCollectionViewModel.swift:88-99 | the two variants' searches agree except on a same-name offset-0 search, where only this one sets loading |
| ComicsCollectionFeed.RefreshShowsLoadingAndAppends | MarvelComics-ios/Sources/Screens/ComicsFeed/ComicsCollectionViewModel.swift:88-127 | a same-term search at offset 0 shows loading and still appends the first page after the kept list |
| ComicsCollectionFeed.StaleItemStream | MarvelComics-ios/Sources/Screens/ComicsFeed/ComicsCollectionViewModel.swift:52-68 | this variant's publisher re-reads `comics[index]` on every publication and pairs it with the store's answer at creation: it traps (`None`) iff some publication is too short for `index`; otherwise every emitted item carries that one answer and a comic found at `index` in some publication, the first item is the first publication's comic, and it never emits more than the publications |
| ComicsCollectionFeed.MarkNeverReachesOpenItem | MarvelComics-ios/Sources/Screens/ComicsFeed/ComicsCollectionViewModel.swift:52-68 | while every publication has a comic with the same id at `index` (the republication after a mark, pages appended behind it), the publisher emits its first item and nothing more, whatever the store now answers |
| ComicsCollectionFeed.NewTermTrapsOpenItem | MarvelComics-ios/Sources/Screens/ComicsFeed/ComicsCollectionViewModel.swift:52-63 | after a new-term search publishes the empty list, every item publisher opened on the old list traps on its subscript |
| ComicsCollectionFeed.ComicsCollectionViewModel.constructor | MarvelComics-ios/Sources/Screens/ComicsFeed/ComicsCollectionViewModel.swift:42-50 | starts loading, empty, total 0, name "", index 0, nothing outstanding |
| ComicsCollectionFeed.ComicsCollectionViewModel.Count | MarvelComics-ios/Sources/Screens/ComicsFeed/ComicsCollectionViewModel.swift:70-77 | the count of the current fields |
| ComicsCollectionFeed.ComicsCollectionViewModel.Search | MarvelComics-ios/Sources/Screens/ComicsFeed/ComicsCollectionViewModel.swift:88-112 | the new fields are `SearchStep` of the old; a new name publishes the list once |
| ComicsCollectionFeed.ComicsCollectionViewModel.OnSuccess | MarvelComics-ios/Sources/Screens/ComicsFeed/ComicsCollectionViewModel.swift:109-127 | the new fields are `Succeed` of the old, and the list is published once |
| ComicsCollectionFeed.ComicsCollectionViewModel.OnFailure | MarvelComics-ios/Sources/Screens/ComicsFeed/ComicsCollectionViewModel.swift:102-108 | the new fields are `Fail` of the old |
| ComicsCollectionFeed.ComicsCollectionViewModel.ComicAt | MarvelComics-ios/Sources/Screens/ComicsFeed/ComicsCollectionViewModel.swift:79-86 | a loaded slot returns its comic; the placeholder returns nothing and performs `search(searchName, offset: index)`; beyond it nothing happens |
| ComicsCollectionFeed.ComicsCollectionViewModel.ItemAt | MarvelComics-ios/Sources/Screens/ComicsFeed/ComicsCollectionViewModel.swift:52-68 | as `ComicAt`, the loaded comic paired with the store's answer for its id |
| ComicsCollectionFeed.ComicsCollectionViewModel.MarkAsRead | MarvelComics-ios/Sources/Screens/ComicsFeed/ComicsCollectionViewModel.swift:114-119 | the store gets the toggled flag for the item's id, the feed is unchanged and the list is published once more |

## Left out

- Combine plumbing: the publishers, `receive(on:)`, `switchToLatest`, `eraseToAnyPublisher` and the main-queue hand-off. `item(at:)` returns the first item its publisher would emit. The later emissions are modelled separately as `ItemStream` and `StaleItemStream`, functions of the store's answers and of the published lists.
- The `count` publisher's own `removeDuplicates`: `Count()` is the value at a moment, not the deduplicated stream of values.
- Networking, HTTP status checks and JSON decoding (`APIService`): a fetch is the external event that calls `OnSuccess` with a decoded page or `OnFailure` with a message.
- Prefetch downloads and image caching: a prefetch is recorded as the thumbnail URL it fetches. Its result is discarded by the source too.
- SwiftData persistence: the store keeps a snapshot `(id, isRead)` of the model at the moment of insertion. SwiftData would keep tracking the inserted object, so a later write to its `isRead` would reach the store. The view models never write it after inserting. For the same reason `Delete` removes the records equal to the model's snapshot, not one object by identity. The background queue of the query is left out; the query is answered synchronously.
- `URL(string:)`: which strings parse is the `valid` parameter; the model does not fix Foundation's grammar.
- ComicData.ParseUrl: a parsed URL's `absoluteString` is exactly its input string. Foundation on iOS 17 and later percent-encodes characters such as spaces instead of rejecting the string, so its `absoluteString` can differ from the input. `ComicData.ThumbnailUrl`, `ComicData.ThumbnailUrlSplits` and `ComicData.ParsedUrls` state their results in terms of the input strings and rely on this.
- Request signing (`APIKeys`, MD5), query encoding (`Encodable`), `ComicThumbnailAPIRequest`, colours, fonts and all UIKit code are not part of this model.
- `Item`'s `thumbnailImageUrl`, `name`, `title` and `text` (ComicsViewModel.swift:21-39) forward to the comic's `ThumbnailUrl`, `Header`, `title` and `Text`; the model states those on the comic record and has no separate accessors.
- ReadStore.Storage.Insert: assumes SwiftData's batch delete and `save()` succeed. The source ignores their errors with `try?`. After a failed delete, two records would share the id, and the query would answer true if either is read. `Upsert`'s "no other record has its id" and the `UniqueIds` invariant hold only under this assumption.
- ReadStore.Storage.IsMarkedAsRead: assumes the fetch succeeds. A failed fetch answers `false` in the source whatever is stored.
- ReadStore.Storage.Delete: assumes `save()` succeeds, as for `Insert`.
- ComicsFeed.SearchStep: compares the new name with the current one code point by code point. Swift's `String` comparison uses Unicode canonical equivalence, so a canonically equivalent name encoded differently (`"Café"` with a precomposed or a combining accent) is the same term in the source and a new term in the model: the model then resets the list, sets `loading` and sends the new spelling, where the source keeps the list and sends the stored spelling.
- ComicsFeed.ComicsViewModel.Search: inherits the code-point comparison of `ComicsFeed.SearchStep`.
- ComicsCollectionFeed.SearchStep: compares names code point by code point, as `ComicsFeed.SearchStep` does, with the same consequence for canonically equivalent names.
- ComicsCollectionFeed.ComicsCollectionViewModel.Search: inherits the code-point comparison of `ComicsCollectionFeed.SearchStep`.
- `currentIndex` is a plain field with no operation of its own.
- `[weak self]` captures: the view model is assumed alive when a completion arrives.
- Integers are unbounded; Swift's `Int` overflow traps are not modelled.
