/** The comic record as the remote API delivers it (`ComicDTO`), the page
    that carries a batch of them (`ComicDataWrapper`), and the presentation
    fields derived from a record. */
module ComicData {
  import opened Wrappers

  /** An absolute URL, kept as the string it was parsed from. */
  datatype Url = Url(absoluteString: string)

  /** Foundation's `URL(string:)` acceptance test, left abstract: which
      strings parse is a parameter. A parsed URL keeps its input string. */
  type UrlSyntax = string -> bool

  function ParseUrl(s: string, valid: UrlSyntax): (r: Option<Url>)
    ensures r.Some? <==> valid(s)
    ensures r.Some? ==> r.value.absoluteString == s
  {
    if valid(s) then Some(Url(s)) else None
  }

  datatype TextObject = TextObject(text: Option<string>)
  datatype Image = Image(path: Option<string>, ext: Option<string>)
  datatype UrlObject = UrlObject(url: Option<string>)

  datatype ComicDTO = ComicDTO(
    id: Option<int>,
    title: Option<string>,
    textObjects: Option<seq<TextObject>>,
    thumbnail: Option<Image>,
    urls: Option<seq<UrlObject>>)

  datatype ComicDataContainer = ComicDataContainer(
    offset: Option<int>,
    limit: Option<int>,
    total: Option<int>,
    count: Option<int>,
    results: Option<seq<ComicDTO>>)

  datatype ComicDataWrapper = ComicDataWrapper(data: Option<ComicDataContainer>)

  /** The comics a page delivers; none when the page has no data or no
      results. */
  function PageResults(page: ComicDataWrapper): seq<ComicDTO>
  {
    match page.data
    case Some(d) => d.results.GetOr([])
    case None => []
  }

  /** The total number of matches a page reports, if any. */
  function PageTotal(page: ComicDataWrapper): Option<int>
  {
    match page.data
    case Some(d) => d.total
    case None => None
  }

  const StoryHeader: string := "The Story"

  // ---------------------------------------------------------------------
  // compactMap

  /** Swift's `compactMap`: apply `f` and keep the present results in order. */
  function CompactMap<A, B>(xs: seq<A>, f: A -> Option<B>): (r: seq<B>)
    ensures |r| <= |xs|
    ensures forall i :: 0 <= i < |xs| && f(xs[i]).Some? ==> f(xs[i]).value in r
    ensures forall y :: y in r ==> exists i :: 0 <= i < |xs| && f(xs[i]) == Some(y)
  {
    if xs == [] then []
    else
      var rest := CompactMap(xs[1..], f);
      assert forall y :: y in rest ==> exists i :: 0 <= i < |xs| && f(xs[i]) == Some(y) by {
        forall y | y in rest ensures exists i :: 0 <= i < |xs| && f(xs[i]) == Some(y) {
          var i :| 0 <= i < |xs[1..]| && f(xs[1..][i]) == Some(y);
          assert f(xs[i + 1]) == Some(y);
        }
      }
      match f(xs[0])
      case Some(y) => [y] + rest
      case None => rest
  }

  /** compactMap is a homomorphism of concatenation: it keeps the relative
      order of what it keeps. */
  lemma {:induction false} CompactMapAppend<A, B>(xs: seq<A>, ys: seq<A>, f: A -> Option<B>)
    ensures CompactMap(xs + ys, f) == CompactMap(xs, f) + CompactMap(ys, f)
  {
    if xs == [] {
      assert xs + ys == ys;
    } else {
      assert (xs + ys)[1..] == xs[1..] + ys;
      CompactMapAppend(xs[1..], ys, f);
    }
  }

  /** The first kept value comes from the first element `f` keeps. */
  lemma {:induction false} CompactMapFirst<A, B>(xs: seq<A>, f: A -> Option<B>)
    ensures CompactMap(xs, f) != [] <==> exists i :: 0 <= i < |xs| && f(xs[i]).Some?
    ensures CompactMap(xs, f) != [] ==>
      exists i :: 0 <= i < |xs| && f(xs[i]) == Some(CompactMap(xs, f)[0]) &&
        forall k :: 0 <= k < i ==> f(xs[k]).None?
  {
    if xs != [] {
      CompactMapFirst(xs[1..], f);
      if f(xs[0]).None? && CompactMap(xs, f) != [] {
        var i :| 0 <= i < |xs[1..]| && f(xs[1..][i]) == Some(CompactMap(xs[1..], f)[0]) &&
          forall k :: 0 <= k < i ==> f(xs[1..][k]).None?;
        assert f(xs[i + 1]) == Some(CompactMap(xs, f)[0]);
        forall k | 0 <= k < i + 1 ensures f(xs[k]).None? {
          if k > 0 { assert f(xs[1..][k - 1]).None?; }
        }
      }
      if f(xs[0]).None? && CompactMap(xs, f) == [] {
        forall i | 0 <= i < |xs| ensures f(xs[i]).None? {
          if i > 0 { assert xs[i] == xs[1..][i - 1]; }
        }
      }
    }
  }

  // ---------------------------------------------------------------------
  // ComicDTO's computed properties (Comic.swift)

  /** The body text: the text of the first text object, absent when there
      are no text objects or the first one has no text. */
  function Text(c: ComicDTO): (r: Option<string>)
    ensures c.textObjects.Some? && c.textObjects.value != [] ==> r == c.textObjects.value[0].text
    ensures r.Some? ==> c.textObjects.Some? && |c.textObjects.value| > 0 &&
                        c.textObjects.value[0].text == r
  {
    match c.textObjects
    case Some(objs) => if objs == [] then None else objs[0].text
    case None => None
  }

  /** The header: "The Story" when the body text is present and not empty,
      the empty string otherwise. */
  function Header(c: ComicDTO): (r: string)
    ensures r == StoryHeader <==> Text(c).Some? && Text(c).value != ""
    ensures r != StoryHeader ==> r == ""
  {
    if Text(c).Some? && Text(c).value != "" then StoryHeader else ""
  }

  function TextOf(o: TextObject): Option<string>
  {
    o.text
  }

  /** All texts: the present texts of the text objects, in order; none when
      there are no text objects. */
  function Texts(c: ComicDTO): (r: seq<string>)
    ensures c.textObjects.None? ==> r == []
    ensures c.textObjects.Some? ==> |r| <= |c.textObjects.value|
    ensures forall t :: t in r <==>
      c.textObjects.Some? &&
      (exists i :: 0 <= i < |c.textObjects.value| && c.textObjects.value[i].text == Some(t))
  {
    match c.textObjects
    case Some(objs) => CompactMap(objs, TextOf)
    case None => []
  }

  /** The body text is the first of the texts whenever it is present; the
      converse fails when the first text object has no text. */
  lemma TextIsFirstOfTexts(c: ComicDTO)
    ensures Text(c).Some? ==> Texts(c) != [] && Texts(c)[0] == Text(c).value
    ensures Texts(c) == [] ==> Text(c).None?
  {
  }

  /** The first text object decides the body text alone: when it has no
      text, the body text is absent and the header empty even though later
      objects have texts. */
  lemma TextsWithoutText()
    ensures var c := ComicDTO(None, None, Some([TextObject(None), TextObject(Some("x"))]), None, None);
            Text(c).None? && Texts(c) == ["x"] && Header(c) == ""
  {
    var c := ComicDTO(None, None, Some([TextObject(None), TextObject(Some("x"))]), None, None);
    assert c.textObjects.value[1..] == [TextObject(Some("x"))];
  }

  /** The test record with empty data (`Marvel Previews (2017)`): no text
      objects, no thumbnail and no urls give an empty header, no body text,
      no texts, no thumbnail URL and no public URLs, whatever the parser. */
  lemma EmptyRecord(c: ComicDTO, valid: UrlSyntax)
    requires c.textObjects.None? || c.textObjects == Some([])
    requires c.thumbnail.None?
    requires c.urls.None? || c.urls == Some([])
    ensures Header(c) == "" && Text(c).None? && Texts(c) == []
    ensures ThumbnailUrl(c, valid).None? && PublicUrls(c, valid) == []
  {
  }

  /** The thumbnail URL: the path, a dot and the extension, parsed, when the
      thumbnail has both parts. */
  function ThumbnailUrl(c: ComicDTO, valid: UrlSyntax): (r: Option<Url>)
    ensures r.Some? <==>
      c.thumbnail.Some? && c.thumbnail.value.path.Some? && c.thumbnail.value.ext.Some? &&
      valid(c.thumbnail.value.path.value + "." + c.thumbnail.value.ext.value)
    ensures r.Some? ==>
      r.value.absoluteString == c.thumbnail.value.path.value + "." + c.thumbnail.value.ext.value
  {
    match c.thumbnail
    case Some(Image(Some(path), Some(ext))) => ParseUrl(path + "." + ext, valid)
    case _ => None
  }

  /** The URL string splits back into the path and the extension it was
      built from, whenever the extension has no dot. */
  lemma {:induction false} ThumbnailUrlSplits(c: ComicDTO, valid: UrlSyntax)
    requires ThumbnailUrl(c, valid).Some?
    requires '.' !in c.thumbnail.value.ext.value
    ensures var s := ThumbnailUrl(c, valid).value.absoluteString;
            var path := c.thumbnail.value.path.value;
            var ext := c.thumbnail.value.ext.value;
            LastDot(s) == |path| && s[..|path|] == path && s[|path| + 1..] == ext
  {
    var s := ThumbnailUrl(c, valid).value.absoluteString;
    var path := c.thumbnail.value.path.value;
    var ext := c.thumbnail.value.ext.value;
    assert s == path + "." + ext;
    assert s[..|path|] == path;
    assert s[|path| + 1..] == ext;
    LastDotAfterPrefix(path, ext);
  }

  /** Index of the last '.' of `s` (or -1). */
  function LastDot(s: string): (r: int)
    ensures -1 <= r < |s|
    ensures r >= 0 ==> s[r] == '.'
    ensures forall k :: r < k < |s| ==> s[k] != '.'
  {
    if s == [] then -1
    else if s[|s| - 1] == '.' then |s| - 1
    else LastDot(s[..|s| - 1])
  }

  lemma {:induction false} LastDotAfterPrefix(path: string, ext: string)
    requires '.' !in ext
    ensures LastDot(path + "." + ext) == |path|
  {
    var s := path + "." + ext;
    var r := LastDot(s);
    assert s[|path|] == '.';
  }

  function UrlFrom(u: UrlObject, valid: UrlSyntax): Option<Url>
  {
    match u.url
    case Some(s) => ParseUrl(s, valid)
    case None => None
  }

  /** The public URLs of a url list: every entry whose string is present and
      parses, in order. */
  function ParsedUrls(objs: seq<UrlObject>, valid: UrlSyntax): (r: seq<Url>)
    ensures |r| <= |objs|
    ensures forall u :: u in r ==> valid(u.absoluteString)
    ensures forall u :: u in r <==>
      exists i :: 0 <= i < |objs| && objs[i].url == Some(u.absoluteString) && valid(u.absoluteString)
  {
    var r := CompactMap(objs, u => UrlFrom(u, valid));
    assert forall i :: 0 <= i < |objs| ==> UrlFrom(objs[i], valid) == (u => UrlFrom(u, valid))(objs[i]);
    r
  }

  function PublicUrls(c: ComicDTO, valid: UrlSyntax): (r: seq<Url>)
    ensures c.urls.None? ==> r == []
    ensures c.urls.Some? ==> r == ParsedUrls(c.urls.value, valid)
  {
    match c.urls
    case Some(objs) => ParsedUrls(objs, valid)
    case None => []
  }

  /** Dropping unparseable entries keeps the order of the rest: the URLs of a
      concatenated list are the URLs of each part, in turn. */
  lemma ParsedUrlsAppend(xs: seq<UrlObject>, ys: seq<UrlObject>, valid: UrlSyntax)
    ensures ParsedUrls(xs + ys, valid) == ParsedUrls(xs, valid) + ParsedUrls(ys, valid)
  {
    CompactMapAppend(xs, ys, u => UrlFrom(u, valid));
  }

  /** The test record with all data (`Ant-Man (2003) #2`): header, body
      text, thumbnail URL and the one public URL its url entry gives. */
  lemma AntManRecord(valid: UrlSyntax)
    requires valid("http://i.annihil.us/u/prod/marvel/i/mg/f/20/4bc69f33cafc0.jpg")
    requires valid(AntManUrl)
    ensures var c := ComicDTO(Some(323), Some("Ant-Man (2003) #2"), Some([TextObject(Some(AntManText))]),
                              Some(Image(Some("http://i.annihil.us/u/prod/marvel/i/mg/f/20/4bc69f33cafc0"), Some("jpg"))),
                              Some([UrlObject(Some(AntManUrl))]));
            Header(c) == StoryHeader && Text(c) == Some(AntManText) &&
            ThumbnailUrl(c, valid) == Some(Url("http://i.annihil.us/u/prod/marvel/i/mg/f/20/4bc69f33cafc0.jpg")) &&
            PublicUrls(c, valid) == [Url(AntManUrl)]
  {
    assert "http://i.annihil.us/u/prod/marvel/i/mg/f/20/4bc69f33cafc0" + "." + "jpg"
        == "http://i.annihil.us/u/prod/marvel/i/mg/f/20/4bc69f33cafc0.jpg";
  }

  const AntManText := "Ant-Man digs deeper to find out who is leaking secret information that threatens our national security.\r\n32 pgs./PARENTAL ADVISORY...$2.99"
  const AntManUrl := "http://marvel.com/comics/issue/323/ant-man_2003_2?utm_campaign=apiRef&utm_source=25a07f7adccf7328d3153451c26bd992"
}
