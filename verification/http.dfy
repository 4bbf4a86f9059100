/** The responses the route handlers send, reduced to what distinguishes them. */
module Http {
  import opened Wrappers
  import opened Strings
  import opened JsValues

  /** A handler's response; the fixed message texts of the error responses are not modelled. */
  datatype Response =
    | BadRequest                 // 400: a required parameter is missing
    | Forbidden                  // 403: the caller may not see the record
    | NotFound                   // 404: no record matches
    | ServerError                // 500: a file, store or remote call failed
    | Redirect(location: string) // 302
    | Html(body: string)         // 200, an HTML page
    | PdfDocument(html: string)  // 200, the PDF the renderer makes of `html`

  /** The HTTP status code of a response. */
  function StatusCode(r: Response): int {
    match r
    case BadRequest => 400
    case Forbidden => 403
    case NotFound => 404
    case ServerError => 500
    case Redirect(_) => 302
    case Html(_) => 200
    case PdfDocument(_) => 200
  }

  /** `!!req.query.x`: the parameter was sent and is not empty. */
  predicate Present(q: Option<string>) {
    q.Some? && q.value != ""
  }

  // ----- the query of a redirect location -----

  /** The query string of a location: the text after its first `?`, empty when there is none. */
  function QueryString(location: string): (q: string)
    ensures |q| < |location| || q == ""
  {
    var path := Split(location, "?")[0];
    if |path| < |location| then location[|path| + 1..] else ""
  }

  /** One `name=value` piece of a query; a piece without `=` has the empty value. */
  function Parameter(piece: string): (p: (string, string))
    ensures StartsWith(piece, p.0)
  {
    var name := Split(piece, "=")[0];
    (name, if |name| < |piece| then piece[|name| + 1..] else "")
  }

  /** The parameters of a location's query, in order, without percent-decoding. */
  function QueryParams(location: string): (ps: Entries<string>)
    ensures QueryString(location) == "" ==> ps == []
  {
    var q := QueryString(location);
    if q == "" then []
    else
      var pieces := Split(q, "&");
      seq(|pieces|, i requires 0 <= i < |pieces| => Parameter(pieces[i]))
  }

  /** The query of `path?q` is `q` when the path holds no `?`. */
  lemma QueryOf(path: string, q: string)
    requires !Contains(path, "?")
    ensures QueryString(path + "?" + q) == q
  {
    FirstPieceBeforeSeparator(path, q, '?');
    assert (path + "?" + q)[|path| + 1..] == q;
  }

  /** The piece `name=value` is the parameter `name` with the value `value` when the name holds no `=`. */
  lemma ParameterOf(name: string, value: string)
    requires !Contains(name, "=")
    ensures Parameter(name + "=" + value) == (name, value)
  {
    FirstPieceBeforeSeparator(name, value, '=');
    assert (name + "=" + value)[|name| + 1..] == value;
  }

  /** A location `path?name=value` carries exactly the one parameter. */
  lemma OneParameter(path: string, name: string, value: string)
    requires !Contains(path, "?") && !Contains(name, "=") && !Contains(name, "&") && !Contains(value, "&")
    ensures QueryParams(path + "?" + name + "=" + value) == [(name, value)]
  {
    var q := name + "=" + value;
    assert path + "?" + name + "=" + value == path + "?" + q;
    QueryOf(path, q);
    OtherCharWithout('=', '&');
    ConcatWithout(name, "=", '&');
    ConcatWithout(name + "=", value, '&');
    SplitWithout(q, "&");
    ParameterOf(name, value);
  }
}
