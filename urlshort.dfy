/**
 * The redirect handler of `urlshort`: a route table built from an ordered
 * list of path/URL records (the last record for a path wins), and the
 * decision each request gets: a 302 redirect when its path is in the table,
 * the fallback handler with the request untouched otherwise.
 */
module UrlShort {
  import opened Wrappers

  /** A byte of the route document. */
  newtype byte = b: int | 0 <= b < 256

  /** One route record of the document: a request path and its destination URL. */
  datatype PathURL = PathURL(path: string, url: string)

  /** The error the document decoder reports for a malformed document. */
  datatype ParseError = ParseError(message: string)

  /**
   * An incoming request: the path of its URL, and everything else about it
   * (method, headers, body) as one opaque value that the handler passes on.
   */
  datatype Request = Request(urlPath: string, rest: string)

  /** HTTP status 302 Found, the status of every redirect the handler issues. */
  const StatusFound: int := 302

  /** What serving one request amounts to. */
  datatype Outcome =
    | Redirect(url: string, status: int)  // a redirect response is written
    | ServeFallback(request: Request)     // the fallback handler serves the request

  /** The handler `MapHandler` returns: a route table from request path to URL. */
  datatype Handler = MapHandler(pathsToUrls: map<string, string>)

  /** The paths the records mention. */
  ghost function Paths(records: seq<PathURL>): set<string>
  {
    set i | 0 <= i < |records| :: records[i].path
  }

  /** Record `i` is the last record whose path is `p`. */
  ghost predicate IsLastFor(records: seq<PathURL>, p: string, i: int)
  {
    && 0 <= i < |records|
    && records[i].path == p
    && forall j :: i < j < |records| ==> records[j].path != p
  }

  /** The route table the records give when written into a map one after the other. */
  function Fold(records: seq<PathURL>): map<string, string>
  {
    if records == [] then map[]
    else
      var last := records[|records| - 1];
      Fold(records[..|records| - 1])[last.path := last.url]
  }

  /** The keys of the table are exactly the paths of the records. */
  lemma {:induction false} FoldKeys(records: seq<PathURL>)
    ensures Fold(records).Keys == Paths(records)
  {
    if records != [] {
      var n := |records|;
      var init := records[..n - 1];
      FoldKeys(init);
      forall p | p in Paths(records) ensures p in Paths(init) + {records[n - 1].path} {
        var i :| 0 <= i < n && records[i].path == p;
        if i < n - 1 { assert init[i] == records[i]; }
      }
      forall p | p in Paths(init) ensures p in Paths(records) {
        var i :| 0 <= i < n - 1 && init[i].path == p;
        assert records[i] == init[i];
      }
    }
  }

  /** The table maps a path to the URL of the last record with that path. */
  lemma {:induction false} FoldLastWins(records: seq<PathURL>, p: string, i: int)
    requires IsLastFor(records, p, i)
    ensures p in Fold(records) && Fold(records)[p] == records[i].url
  {
    var n := |records|;
    if i < n - 1 {
      var init := records[..n - 1];
      assert IsLastFor(init, p, i) by {
        forall j | i < j < n - 1 ensures init[j].path != p { assert init[j] == records[j]; }
      }
      FoldLastWins(init, p, i);
    }
  }

  /** Every path of the records has a last record. */
  lemma {:induction false} LastExists(records: seq<PathURL>, p: string)
    requires p in Paths(records)
    ensures exists i :: IsLastFor(records, p, i)
  {
    var n := |records|;
    if records[n - 1].path == p {
      assert IsLastFor(records, p, n - 1);
    } else {
      var init := records[..n - 1];
      var k :| 0 <= k < n && records[k].path == p;
      assert init[k] == records[k];
      LastExists(init, p);
      var i :| IsLastFor(init, p, i);
      assert records[i] == init[i];
      assert IsLastFor(records, p, i);
    }
  }

  /** The table has no more entries than there are records. */
  lemma {:induction false} FoldSize(records: seq<PathURL>)
    ensures |Fold(records)| <= |records|
  {
    if records != [] {
      FoldSize(records[..|records| - 1]);
    }
  }

  /**
   * `buildMap`: writes each record into a fresh map in order, so a later
   * record for the same path overwrites an earlier one.
   */
  method BuildMap(pathURLs: seq<PathURL>) returns (pathsToUrls: map<string, string>)
    ensures pathsToUrls == Fold(pathURLs)
    ensures pathsToUrls.Keys == Paths(pathURLs)
    ensures forall p, i :: IsLastFor(pathURLs, p, i) ==> pathsToUrls[p] == pathURLs[i].url
    ensures pathURLs == [] ==> pathsToUrls == map[]
  {
    pathsToUrls := map[];
    for k := 0 to |pathURLs|
      invariant pathsToUrls == Fold(pathURLs[..k])
    {
      assert pathURLs[..k + 1][..k] == pathURLs[..k];
      pathsToUrls := pathsToUrls[pathURLs[k].path := pathURLs[k].url];
    }
    assert pathURLs[..|pathURLs|] == pathURLs;
    FoldKeys(pathURLs);
    forall p, i | IsLastFor(pathURLs, p, i) ensures pathsToUrls[p] == pathURLs[i].url {
      FoldLastWins(pathURLs, p, i);
    }
  }

  /**
   * The anonymous handler function `MapHandler` returns, applied to one
   * request: a path in the table redirects to its URL with 302 Found;
   * any other request goes to the fallback exactly as it came in.
   */
  function Serve(h: Handler, r: Request): (o: Outcome)
    ensures o.Redirect? <==> r.urlPath in h.pathsToUrls
    ensures o.Redirect? ==> o.url == h.pathsToUrls[r.urlPath] && o.status == StatusFound
    ensures o.ServeFallback? ==> o.request == r
  {
    if r.urlPath in h.pathsToUrls then Redirect(h.pathsToUrls[r.urlPath], StatusFound)
    else ServeFallback(r)
  }

  /**
   * A handler built from records redirects a request to the URL of the
   * last record for its path, and hands it to the fallback when no record
   * has its path.
   */
  lemma RoutesOfRecords(records: seq<PathURL>, r: Request)
    ensures forall i :: IsLastFor(records, r.urlPath, i) ==>
              Serve(MapHandler(Fold(records)), r) == Redirect(records[i].url, StatusFound)
    ensures r.urlPath in Paths(records) ==> Serve(MapHandler(Fold(records)), r).Redirect?
    ensures r.urlPath !in Paths(records) ==> Serve(MapHandler(Fold(records)), r) == ServeFallback(r)
  {
    FoldKeys(records);
    forall i | IsLastFor(records, r.urlPath, i)
      ensures Serve(MapHandler(Fold(records)), r) == Redirect(records[i].url, StatusFound)
    {
      FoldLastWins(records, r.urlPath, i);
    }
  }

  /**
   * `YAMLHandler`: decodes the document with `parseYaml` (handed in, since
   * the decoder is a library), returns its error when it fails, and
   * otherwise the map handler over the records' table.
   */
  method YAMLHandler(yamlBytes: seq<byte>, parseYaml: seq<byte> -> Result<seq<PathURL>, ParseError>)
    returns (h: Result<Handler, ParseError>)
    ensures parseYaml(yamlBytes).Failure? ==> h == Failure(parseYaml(yamlBytes).error)
    ensures parseYaml(yamlBytes).Success? ==> h == Success(MapHandler(Fold(parseYaml(yamlBytes).value)))
    ensures h.Success? ==> forall r: Request, i ::
              IsLastFor(parseYaml(yamlBytes).value, r.urlPath, i) ==>
                Serve(h.value, r) == Redirect(parseYaml(yamlBytes).value[i].url, StatusFound)
    ensures h.Success? ==> forall r: Request ::
              r.urlPath !in Paths(parseYaml(yamlBytes).value) ==> Serve(h.value, r) == ServeFallback(r)
  {
    var parsed := parseYaml(yamlBytes);
    if parsed.Failure? {
      return Failure(parsed.error);
    }
    var pathsToUrls := BuildMap(parsed.value);
    h := Success(MapHandler(pathsToUrls));
    forall r: Request ensures
      && (forall i :: IsLastFor(parsed.value, r.urlPath, i) ==>
            Serve(h.value, r) == Redirect(parsed.value[i].url, StatusFound))
      && (r.urlPath !in Paths(parsed.value) ==> Serve(h.value, r) == ServeFallback(r))
    {
      RoutesOfRecords(parsed.value, r);
    }
  }

  /** The document `[{path: /a, url: http://x}, {path: /a, url: http://y}]` routes `/a` to `http://y`. */
  lemma DuplicatePathLastWins()
    ensures Fold([PathURL("/a", "http://x"), PathURL("/a", "http://y")]) == map["/a" := "http://y"]
  {
    var records := [PathURL("/a", "http://x"), PathURL("/a", "http://y")];
    assert records[..1] == [PathURL("/a", "http://x")];
    assert records[..1][..0] == [];
  }
}
