/** `ComicModel`: the persisted form of a comic. Every field is fixed at
    construction except the read flag, which callers set afterwards. */
module ComicModels {
  import opened Wrappers
  import opened ComicData

  class ComicModel {
    const id: Option<int>
    const title: Option<string>
    const texts: seq<string>
    const thumbnailUrl: Option<Url>
    const publicUrls: seq<Url>
    var isRead: bool

    constructor (id: Option<int>, title: Option<string>, texts: seq<string>,
                 thumbnailUrl: Option<Url>, publicUrls: seq<Url>, isRead: bool)
      ensures this.id == id && this.title == title && this.texts == texts
      ensures this.thumbnailUrl == thumbnailUrl && this.publicUrls == publicUrls
      ensures this.isRead == isRead
    {
      this.id := id;
      this.title := title;
      this.texts := texts;
      this.thumbnailUrl := thumbnailUrl;
      this.publicUrls := publicUrls;
      this.isRead := isRead;
    }

    /** Builds the model of a record: copies its derived fields, unread. */
    constructor FromComic(comic: ComicDTO, valid: UrlSyntax)
      ensures id == comic.id && title == comic.title && texts == Texts(comic)
      ensures thumbnailUrl == ThumbnailUrl(comic, valid) && publicUrls == PublicUrls(comic, valid)
      ensures !isRead
    {
      id := comic.id;
      title := comic.title;
      texts := Texts(comic);
      thumbnailUrl := ThumbnailUrl(comic, valid);
      publicUrls := PublicUrls(comic, valid);
      isRead := false;
    }

    /** The body text: the first stored text, absent when none is stored. */
    function Text(): (r: Option<string>)
      ensures r.Some? <==> texts != []
      ensures r.Some? ==> r.value == texts[0]
    {
      if texts == [] then None else Some(texts[0])
    }

    /** The header: only a present, empty text gives the empty header; any
        other text, and no text at all, gives "The Story". */
    function Header(): (r: string)
      ensures r == "" <==> Text() == Some("")
      ensures r != "" ==> r == StoryHeader
    {
      if Text() == Some("") then "" else StoryHeader
    }
  }

  /** A model built from a record disagrees with the record on the header
      exactly when the record has no body text and its first surviving text
      (if any) is not empty; in particular for a record with no texts. */
  lemma HeadersDisagree(m: ComicModel, c: ComicDTO)
    requires m.texts == Texts(c)
    ensures m.Header() != Header(c) <==>
            Text(c).None? && (Texts(c) == [] || Texts(c)[0] != "")
  {
    TextIsFirstOfTexts(c);
  }

  /** The record without text objects: its own header is empty, the header
      of the model built from it is "The Story". */
  lemma NoTextHeaders(m: ComicModel, c: ComicDTO)
    requires c.textObjects.None? && m.texts == Texts(c)
    ensures Header(c) == "" && m.Header() == StoryHeader
  {
  }
}
