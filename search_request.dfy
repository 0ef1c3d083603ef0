/** `ComicsSearchAPIRequest`: the request the feed sends for a search term
    and an offset. */
module SearchRequests {
  import opened Wrappers

  datatype HttpMethod = Get

  datatype ComicsSearchParameters = ComicsSearchParameters(titleStartsWith: string, offset: int)

  datatype ComicsSearchRequest = ComicsSearchRequest(
    path: string,
    httpMethod: HttpMethod,
    marvelAuth: bool,
    parameters: Option<ComicsSearchParameters>,
    name: string)

  const ComicsPath: string := "https://gateway.marvel.com:443/v1/public/comics"

  /** `init(name:offset:)`: an empty name sends no parameters at all, so
      the offset is dropped with it. */
  function NewComicsSearchRequest(name: string, offset: int): (r: ComicsSearchRequest)
    ensures r.name == name
    ensures r.path == ComicsPath && r.httpMethod == Get && r.marvelAuth
    ensures r.parameters.None? <==> name == ""
    ensures r.parameters.Some? ==> r.parameters.value.titleStartsWith == name &&
                                   r.parameters.value.offset == offset
  {
    ComicsSearchRequest(
      ComicsPath, Get, true,
      if name == "" then None else Some(ComicsSearchParameters(name, offset)),
      name)
  }

  /** Two requests are the same exactly when the names agree and, for a
      non-empty name, the offsets agree too: for the empty name every offset
      gives the same request. */
  lemma RequestsEqualIff(n1: string, o1: int, n2: string, o2: int)
    ensures NewComicsSearchRequest(n1, o1) == NewComicsSearchRequest(n2, o2) <==>
            n1 == n2 && (n1 == "" || o1 == o2)
  {
    if NewComicsSearchRequest(n1, o1) == NewComicsSearchRequest(n2, o2) && n1 != "" {
      assert NewComicsSearchRequest(n1, o1).parameters.value.offset == o1;
    }
  }
}
