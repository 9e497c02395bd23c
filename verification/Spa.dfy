/** Serving a single-page app: which request gets which file, and what may be cached. */
module Spa {
  import opened Options
  import opened Segments

  const INDEX: string := "/index.html"
  const IMMUTABLE: string := "max-age=31536000, immutable"
  const NO_CACHE: string := "no-cache"
  const MEDIUM: string := "max-age=604800"

  datatype Method = Get | Head | Other

  /** A file of the build; `path` is its route. */
  datatype Asset = Asset(route: string, html: bool)

  datatype Config = Config(excludePrefixes: seq<string>, assetsPrefix: string, noCache: seq<string>)

  /** `matches` is whether `If-None-Match` names the file that would be served. */
  datatype Request = Request(method_: Method, path: string, matches: bool)

  datatype Status = Ok200 | NotModified304 | NotFound404 | NotAllowed405

  /** `file` is the build file in the body. */
  datatype Response = Response(status: Status, file: Option<Asset>, cacheControl: Option<string>)

  function TrimEndSlashes(prefix: string): (r: string)
    ensures r <= prefix && (r == "" || r[|r| - 1] != '/')
    ensures forall i | |r| <= i < |prefix| :: prefix[i] == '/'
  {
    if prefix != "" && prefix[|prefix| - 1] == '/' then TrimEndSlashes(prefix[..|prefix| - 1]) else prefix
  }

  /** `path` is `prefix` or below it. */
  predicate Under(path: string, prefix: string) {
    var p := TrimEndSlashes(prefix);
    p <= path && (|path| == |p| || path[|p|] == '/')
  }

  /** Being under a prefix is a matter of whole segments. */
  lemma UnderIffSegments(path: string, prefix: string)
    ensures Under(path, prefix) <==> Split(TrimEndSlashes(prefix), '/') <= Split(path, '/')
  {
    WithinIffSegments(path, TrimEndSlashes(prefix), '/');
  }

  /** The build's file at a route; `/` is an alias of the index. */
  function FileAt(assets: seq<Asset>, path: string): Option<Asset> {
    if assets == [] then None
    else if assets[0].route == path || (path == "/" && assets[0].route == INDEX) then Some(assets[0])
    else FileAt(assets[1..], path)
  }

  /** A found file is of the build, at that very route unless the route is the index's alias. */
  lemma {:induction false} FileAtIsThere(assets: seq<Asset>, path: string)
    ensures FileAt(assets, path).Some? ==>
              FileAt(assets, path).value in assets
              && (FileAt(assets, path).value.route == path || (path == "/" && FileAt(assets, path).value.route == INDEX))
    ensures FileAt(assets, path).None? ==> forall a | a in assets :: a.route != path
  {
    if assets != [] {
      FileAtIsThere(assets[1..], path);
    }
  }

  /** memory-serve's routes: every file of the build, for `GET` and `HEAD`. */
  function Files(assets: seq<Asset>, embedded: bool, req: Request): Option<Response> {
    match FileAt(assets, req.path)
    case None => None
    case Some(file) =>
      if req.method_.Other? then Some(Response(NotAllowed405, None, None))
      else
        var cache := if file.html || !embedded then NO_CACHE else MEDIUM;
        if req.matches then Some(Response(NotModified304, None, Some(cache))) else Some(Response(Ok200, Some(file), Some(cache)))
  }

  predicate Excluded(cfg: Config, path: string) {
    exists prefix | prefix in cfg.excludePrefixes + [cfg.assetsPrefix] :: Under(path, prefix)
  }

  const NOT_FOUND: Response := Response(NotFound404, None, None)

  /** The fallback for a path that is not a file: the index, if it may be a client-side route. */
  function ClientRoute(assets: seq<Asset>, embedded: bool, cfg: Config, req: Request): Response {
    if Excluded(cfg, req.path) || req.method_.Other? then NOT_FOUND
    else match Files(assets, embedded, req.(path := INDEX)) case Some(r) => r case None => NOT_FOUND
  }

  function Unlayered(assets: seq<Asset>, embedded: bool, cfg: Config, req: Request): Response {
    match Files(assets, embedded, req) case Some(r) => r case None => ClientRoute(assets, embedded, cfg, req)
  }

  /** A response on its way out, whose headers the cache layer rewrites. */
  class Outgoing {
    const status: Status
    const file: Option<Asset>
    var cacheControl: Option<string>

    constructor (r: Response)
      ensures status == r.status && file == r.file && cacheControl == r.cacheControl
    {
      status, file, cacheControl := r.status, r.file, r.cacheControl;
    }

    method CacheHeaders(path: string, cfg: Config, embedded: bool)
      modifies this
      ensures cacheControl == Cached(Response(status, file, old(cacheControl)), path, cfg, embedded).cacheControl
      ensures status != Ok200 ==> cacheControl == old(cacheControl)
      ensures var inAssets := embedded && Split(TrimEndSlashes(cfg.assetsPrefix), '/') <= Split(path, '/');
              status == Ok200 ==>
                cacheControl == if path in cfg.noCache then Some(NO_CACHE) else if inAssets then Some(IMMUTABLE) else old(cacheControl)
    {
      UnderIffSegments(path, cfg.assetsPrefix);
      if status != Ok200 {
        return;
      }
      var value;
      if path in cfg.noCache {
        value := NO_CACHE;
      } else if embedded && Under(path, cfg.assetsPrefix) {
        value := IMMUTABLE;
      } else {
        return;
      }
      cacheControl := Some(value);
    }
  }

  function Cached(r: Response, path: string, cfg: Config, embedded: bool): Response {
    if r.status != Ok200 then r
    else if path in cfg.noCache then r.(cacheControl := Some(NO_CACHE))
    else if embedded && Under(path, cfg.assetsPrefix) then r.(cacheControl := Some(IMMUTABLE))
    else r
  }

  /** The whole fallback router. */
  function Handled(assets: seq<Asset>, embedded: bool, cfg: Config, req: Request): Response {
    Cached(Unlayered(assets, embedded, cfg, req), req.path, cfg, embedded)
  }

  method Handle(assets: seq<Asset>, embedded: bool, cfg: Config, req: Request) returns (response: Outgoing)
    ensures fresh(response)
    ensures Response(response.status, response.file, response.cacheControl) == Handled(assets, embedded, cfg, req)
  {
    response := new Outgoing(Unlayered(assets, embedded, cfg, req));
    response.CacheHeaders(req.path, cfg, embedded);
  }

  /** The plugin only serves a build that has an index page. */
  ghost predicate HasIndexPage(assets: seq<Asset>) {
    FileAt(assets, INDEX).Some? && FileAt(assets, INDEX).value.html
  }

  /** The path's segments start with those of an excluded prefix or of the assets prefix. */
  ghost predicate ServerPath(cfg: Config, path: string) {
    exists prefix | prefix in cfg.excludePrefixes + [cfg.assetsPrefix] ::
      Split(TrimEndSlashes(prefix), '/') <= Split(path, '/')
  }

  lemma ExcludedIsServerPath(cfg: Config, path: string)
    ensures Excluded(cfg, path) <==> ServerPath(cfg, path)
  {
    forall prefix
      ensures Under(path, prefix) <==> Split(TrimEndSlashes(prefix), '/') <= Split(path, '/')
    {
      UnderIffSegments(path, prefix);
    }
  }

  /**
   A path that is no file of the build gets the index page exactly when it is read and is
   not a server path, and a plain 404 otherwise; the page is never left to a cache.
   */
  lemma IndexOnlyForClientRoutes(assets: seq<Asset>, embedded: bool, cfg: Config, req: Request)
    requires HasIndexPage(assets) && FileAt(assets, req.path).None?
    ensures var r := Handled(assets, embedded, cfg, req);
            if !req.method_.Other? && !ServerPath(cfg, req.path) then
              r.cacheControl == Some(NO_CACHE)
              && (if req.matches then r.status == NotModified304 else r.status == Ok200 && r.file == FileAt(assets, INDEX))
            else r == NOT_FOUND
  {
    ExcludedIsServerPath(cfg, req.path);
    assert Excluded(cfg, req.path) || !Under(req.path, cfg.assetsPrefix) by {
      assert cfg.assetsPrefix in cfg.excludePrefixes + [cfg.assetsPrefix];
    }
  }

  lemma HeadersDiffer()
    ensures IMMUTABLE != NO_CACHE && IMMUTABLE != MEDIUM && NO_CACHE != MEDIUM
  {
    assert |IMMUTABLE| == 27 && |NO_CACHE| == 8 && |MEDIUM| == 14;
  }

  lemma FallbackIsNotImmutable(assets: seq<Asset>, embedded: bool, cfg: Config, req: Request)
    requires FileAt(assets, req.path).None?
    ensures Handled(assets, embedded, cfg, req).cacheControl != Some(IMMUTABLE)
  {
    HeadersDiffer();
    assert Under(req.path, cfg.assetsPrefix) ==> Excluded(cfg, req.path) by {
      assert cfg.assetsPrefix in cfg.excludePrefixes + [cfg.assetsPrefix];
    }
  }

  lemma FileIsImmutableIff(assets: seq<Asset>, embedded: bool, cfg: Config, req: Request)
    requires FileAt(assets, req.path).Some?
    ensures var r := Handled(assets, embedded, cfg, req);
            && (r.cacheControl == Some(IMMUTABLE) <==>
                  embedded && r.status == Ok200 && Under(req.path, cfg.assetsPrefix) && req.path !in cfg.noCache)
            && (r.status == Ok200 ==> r.file == FileAt(assets, req.path))
  {
    HeadersDiffer();
  }

  /**
   A response may be kept forever exactly when it is a file of the build, at this path,
   under the assets prefix by whole segments, and not on the `no_cache` list.
   */
  lemma ImmutableIsABuildFile(assets: seq<Asset>, embedded: bool, cfg: Config, req: Request)
    ensures var r := Handled(assets, embedded, cfg, req);
            r.cacheControl == Some(IMMUTABLE) <==>
              && embedded && r.status == Ok200 && r.file.Some? && r.file == FileAt(assets, req.path)
              && Split(TrimEndSlashes(cfg.assetsPrefix), '/') <= Split(req.path, '/')
              && req.path !in cfg.noCache
  {
    UnderIffSegments(req.path, cfg.assetsPrefix);
    if FileAt(assets, req.path).Some? {
      FileIsImmutableIff(assets, embedded, cfg, req);
    } else {
      FallbackIsNotImmutable(assets, embedded, cfg, req);
    }
  }

  /**
   A path of the build is answered with its file, and the header says how long that may be
   kept: not at all when it is listed, a page, or read from disk, forever under the assets
   prefix of an embedded build, and a week otherwise.
   */
  lemma FileIsServed(assets: seq<Asset>, embedded: bool, cfg: Config, req: Request)
    requires FileAt(assets, req.path).Some?
    ensures var r, file := Handled(assets, embedded, cfg, req), FileAt(assets, req.path).value;
            var inAssets := Split(TrimEndSlashes(cfg.assetsPrefix), '/') <= Split(req.path, '/');
            && file in assets && (file.route == req.path || (req.path == "/" && file.route == INDEX))
            && (req.method_.Other? ==> r == Response(NotAllowed405, None, None))
            && (!req.method_.Other? && req.matches ==>
                  r == Response(NotModified304, None, Some(if file.html || !embedded then NO_CACHE else MEDIUM)))
            && (!req.method_.Other? && !req.matches ==>
                  r.status == Ok200 && r.file == Some(file)
                  && r.cacheControl == Some(if req.path in cfg.noCache then NO_CACHE
                                            else if embedded && inAssets then IMMUTABLE
                                            else if file.html || !embedded then NO_CACHE else MEDIUM))
  {
    FileAtIsThere(assets, req.path);
    UnderIffSegments(req.path, cfg.assetsPrefix);
  }

  /**
   A page of the build is revalidated every time exactly when its path is listed, or the
   build is not embedded, or the page is outside the assets prefix.
   */
  lemma HtmlRevalidatedIff(assets: seq<Asset>, embedded: bool, cfg: Config, req: Request)
    requires var r := Handled(assets, embedded, cfg, req); r.status == Ok200 && r.file.Some? && r.file.value.html
    ensures Handled(assets, embedded, cfg, req).cacheControl == Some(NO_CACHE)
            <==> req.path in cfg.noCache || !embedded || !(Split(TrimEndSlashes(cfg.assetsPrefix), '/') <= Split(req.path, '/'))
  {
    UnderIffSegments(req.path, cfg.assetsPrefix);
    HeadersDiffer();
  }

  /** With the whole site as assets prefix even the index page is kept forever. */
  lemma RootPrefixKeepsIndex(assets: seq<Asset>, cfg: Config, req: Request)
    requires HasIndexPage(assets) && cfg.assetsPrefix == "/" && INDEX !in cfg.noCache
    requires req.method_.Get? && req.path == INDEX && !req.matches
    ensures var r := Handled(assets, true, cfg, req);
            r.status == Ok200 && r.file.Some? && r.file.value.html && r.cacheControl == Some(IMMUTABLE)
  {
    assert TrimEndSlashes(cfg.assetsPrefix) == "" && INDEX[0] == '/';
  }
}
