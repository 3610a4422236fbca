/**
 * The static helpers of `WebViewClientHostApiImpl` and the local-file interception
 * rule of its web view clients: a request whose URL is mapped to a local file is
 * served from that file (with a permissive CORS header), an unmapped request is
 * left to the web view, and a mapped HTML request whose file cannot be read is
 * fetched over the network instead.
 *
 * The file system and the network are not modelled: `Disk` and `Network` are
 * oracles that say what opening a path or fetching a URL would do.
 */
module HostApi {
  import opened Wrappers
  import opened JavaStrings

  /** The header that every response served from a local file carries. */
  const AllowOrigin: string := "Access-Control-Allow-Origin"

  /** The extension-to-content-type table of `getMimeTypeMap`. */
  const MimeTypes: map<string, string> := map[
    "html" := "text/html",
    "gz" := "text/html",
    "css" := "text/css",
    "js" := "text/javascript",
    "png" := "image/png",
    "jpg" := "image/jpeg",
    "ico" := "image/x-icon",
    "svg" := "image/svg+xml",
    "webp" := "image/webp",
    "woff" := "application/x-font-opentype",
    "ttf" := "application/x-font-opentype",
    "eot" := "application/x-font-opentype"
  ]

  /** What the file system answers for a path. */
  datatype Disk = Disk(
    existing: set<string>,   // `new File(path).exists()`
    openable: set<string>,   // `new FileInputStream(file)` does not throw
    validGzip: set<string>)  // `new GZIPInputStream(...)` reads a valid header

  /** What opening a connection to a URL gives. */
  datatype Connection =
    | NotHttp   // a non-HTTP scheme (`file:`, `jar:`, `ftp:`): the cast to `HttpURLConnection` fails
    | Http(
        contentDisposition: Option<string>, // the `content-disposition` header field, null when absent
        bodyReadable: bool)                  // `getInputStream()` does not throw

  /** URLs absent from `connections` are malformed or fail to connect: exceptions that are caught. */
  datatype Network = Network(connections: map<string, Connection>)

  /** A call that returns a value, or throws a `ClassCastException` that no handler catches. */
  datatype Outcome<T> = Normal(value: T) | ClassCastThrown

  /** Where the bytes of a response come from. */
  datatype Body = FileStream(path: string) | GzipStream(path: string) | NetworkStream(url: string)

  /** The observable content of a `WebResourceResponse`. */
  datatype Response = Response(
    mimeType: Option<string>,
    encoding: string,
    body: Body,
    headers: Option<map<string, string>>)

  /** What `shouldInterceptRequest` returns. */
  datatype Interception =
    | Default                                  // `super.shouldInterceptRequest(view, request)`
    | FromFile(response: Response)             // the local file, headers patched
    | FromNetwork(fetched: Option<Response>)   // the HTML fallback; `None` is its null result
    | ThrowsClassCast                          // the fallback's cast failed and the exception escapes

  /** `HashMap.get`: a null or absent key gives null. */
  function Lookup(m: map<string, string>, key: Option<string>): (r: Option<string>)
    ensures r.Some? <==> key.Some? && key.value in m
    ensures r.Some? ==> r.value == m[key.value]
  {
    if key.Some? && key.value in m then Some(m[key.value]) else None
  }

  /** `getMimeTypeMap`: builds the table entry by entry. */
  method GetMimeTypeMap() returns (m: map<string, string>)
    ensures m == MimeTypes
    ensures |m| == 12
  {
    m := map[];
    m := m["html" := "text/html"];
    m := m["gz" := "text/html"];
    m := m["css" := "text/css"];
    m := m["js" := "text/javascript"];
    m := m["png" := "image/png"];
    m := m["jpg" := "image/jpeg"];
    m := m["ico" := "image/x-icon"];
    m := m["svg" := "image/svg+xml"];
    m := m["webp" := "image/webp"];
    m := m["woff" := "application/x-font-opentype"];
    m := m["ttf" := "application/x-font-opentype"];
    m := m["eot" := "application/x-font-opentype"];
  }

  /** Exactly "html" and "gz" are served as HTML. */
  lemma HtmlMimeTypeIff(ext: Option<string>)
    ensures Lookup(MimeTypes, ext) == Some("text/html") <==> ext == Some("html") || ext == Some("gz")
  {
  }

  /** Exactly the three font extensions are served as OpenType fonts. */
  lemma FontMimeTypeIff(ext: Option<string>)
    ensures Lookup(MimeTypes, ext) == Some("application/x-font-opentype")
            <==> ext == Some("woff") || ext == Some("ttf") || ext == Some("eot")
  {
  }

  /** An extension has no content type exactly when it is null or outside the twelve. */
  lemma UnknownExtensionHasNoMimeType(ext: Option<string>)
    ensures Lookup(MimeTypes, ext) == None
            <==> ext.None? || ext.value !in {"html", "gz", "css", "js", "png", "jpg", "ico", "svg", "webp", "woff", "ttf", "eot"}
  {
  }

  /** `getEncoding`: gzip for the "gz" extension and UTF-8 for anything else, null included. */
  function Encoding(ext: Option<string>): (r: string)
    ensures r == "gzip" <==> ext == Some("gz")
    ensures r != "gzip" ==> r == "UTF-8"
  {
    if ext == Some("gz") then "gzip" else "UTF-8"
  }

  /**
   * `getFileExtFromUrl`: everything after the last dot, query string included;
   * the whole URL when it has no dot; null for a null or empty URL.
   */
  function FileExtFromUrl(url: Option<string>): (r: Option<string>)
    ensures r.None? <==> url.None? || url.value == ""
    ensures r.Some? ==> '.' !in r.value && |r.value| <= |url.value|
    ensures r.Some? ==> r.value == url.value[|url.value| - |r.value|..]
    ensures r.Some? && '.' !in url.value ==> r.value == url.value
    ensures r.Some? && '.' in url.value ==>
              |r.value| < |url.value| && url.value == url.value[..|url.value| - |r.value| - 1] + "." + r.value
  {
    if url.None? || url.value == "" then None
    else
      var s := url.value;
      var lastIndexOfDot := LastIndexOf(s, '.');
      var ext := s[lastIndexOfDot + 1..|s|];
      assert |ext| == |s| - lastIndexOfDot - 1;
      assert s[lastIndexOfDot + 1..|s|] == s[lastIndexOfDot + 1..];
      assert ext == s[|s| - |ext|..];
      assert forall j :: 0 <= j < |ext| ==> ext[j] == s[lastIndexOfDot + 1 + j];
      assert '.' !in ext;
      assert lastIndexOfDot >= 0 ==> s == s[..lastIndexOfDot] + "." + ext;
      Some(ext)
  }

  /** A URL ending in a dot and a dot-free suffix has that suffix as its extension. */
  lemma {:induction false} FileExtOfJoined(base: string, ext: string)
    requires '.' !in ext
    ensures FileExtFromUrl(Some(base + "." + ext)) == Some(ext)
  {
    var s := base + "." + ext;
    var i := LastIndexOf(s, '.');
    assert s[|base|] == '.';
    assert s[i + 1..] == ext;
  }

  /** The query string is part of the extension, so "a.js?v=1" has no content type. */
  lemma QueryStringStaysInExtension()
    ensures FileExtFromUrl(Some("a.js?v=1")) == Some("js?v=1")
    ensures Lookup(MimeTypes, FileExtFromUrl(Some("a.js?v=1"))) == None
  {
  }

  /** The header map of a file response after the patch: null becomes empty, then the CORS header is put. */
  function PatchedHeaders(headers: Option<map<string, string>>): (r: map<string, string>)
    ensures AllowOrigin in r && r[AllowOrigin] == "*"
    ensures forall k :: k != AllowOrigin ==> (k in r <==> headers.Some? && k in headers.value)
    ensures forall k :: k != AllowOrigin && k in r ==> r[k] == headers.value[k]
  {
    headers.GetOr(map[])[AllowOrigin := "*"]
  }

  /** Patching twice is the same as patching once. */
  lemma PatchedHeadersIdempotent(headers: Option<map<string, string>>)
    ensures PatchedHeaders(Some(PatchedHeaders(headers))) == PatchedHeaders(headers)
  {
  }

  /**
   * `getWebResponseFromFile`: a response exists exactly when the path is non-null and
   * non-empty, the file exists, it opens, and (for the "gz" extension) it is valid gzip.
   */
  function ResponseFromFile(ext: Option<string>, path: Option<string>, mimeType: Option<string>,
                            encoding: string, disk: Disk): (r: Option<Response>)
    ensures r.Some? <==>
              && path.Some? && path.value != ""
              && path.value in disk.existing && path.value in disk.openable
              && (ext == Some("gz") ==> path.value in disk.validGzip)
    ensures r.Some? ==> r.value.mimeType == mimeType && r.value.encoding == encoding && r.value.headers.None?
    ensures r.Some? ==> r.value.body == if ext == Some("gz") then GzipStream(path.value) else FileStream(path.value)
  {
    if path.None? || path.value == "" then None
    else if path.value !in disk.existing then None
    else if path.value !in disk.openable then None
    else if ext == Some("gz") then
      if path.value in disk.validGzip then Some(Response(mimeType, encoding, GzipStream(path.value), None)) else None
    else Some(Response(mimeType, encoding, FileStream(path.value), None))
  }

  /**
   * `getHtmlMimeTypeWebResourceResponse`: a non-HTTP URL makes the cast throw; otherwise a
   * response exists exactly when the URL connects over HTTP, its `content-disposition`
   * contains "attachment" and its body can be read.
   */
  function HtmlResponse(url: string, mimeType: Option<string>, net: Network): (r: Outcome<Option<Response>>)
    ensures r.ClassCastThrown? <==> url in net.connections && net.connections[url].NotHttp?
    ensures r.Normal? && r.value.Some? <==>
              && url in net.connections && net.connections[url].Http?
              && net.connections[url].contentDisposition.Some?
              && (exists i: nat :: OccursAt(net.connections[url].contentDisposition.value, "attachment", i))
              && net.connections[url].bodyReadable
    ensures r.Normal? && r.value.Some? ==> r.value.value == Response(mimeType, "UTF-8", NetworkStream(url), None)
  {
    if url !in net.connections then Normal(None)
    else
      match net.connections[url]
      case NotHttp => ClassCastThrown
      case Http(contentDisposition, bodyReadable) =>
        if contentDisposition.None? || !Contains(contentDisposition.value, "attachment") then Normal(None)
        else if !bodyReadable then Normal(None)
        else Normal(Some(Response(mimeType, "UTF-8", NetworkStream(url), None)))
  }

  /** The decision `shouldInterceptRequest` takes for a request URL (None: null). */
  function Intercept(fileToUrlMap: map<string, Option<string>>, requestUrl: Option<string>,
                     disk: Disk, net: Network): (r: Interception)
    ensures requestUrl.None? || requestUrl.value !in fileToUrlMap ==> r == Default
    ensures r.FromFile? ==> r.response.headers == Some(map[AllowOrigin := "*"])
    ensures r.FromNetwork? || r.ThrowsClassCast? ==> Lookup(MimeTypes, FileExtFromUrl(requestUrl)) == Some("text/html")
  {
    if requestUrl.None? || requestUrl.value !in fileToUrlMap then Default
    else
      var fileExt := FileExtFromUrl(requestUrl);
      var mimeType := Lookup(MimeTypes, fileExt);
      var encoding := Encoding(fileExt);
      match ResponseFromFile(fileExt, fileToUrlMap[requestUrl.value], mimeType, encoding, disk)
      case Some(response) => FromFile(response.(headers := Some(PatchedHeaders(response.headers))))
      case None =>
        if mimeType == Some("text/html") then
          match HtmlResponse(requestUrl.value, mimeType, net)
          case ClassCastThrown => ThrowsClassCast
          case Normal(fetched) => FromNetwork(fetched)
        else Default
  }

  /** A request whose URL is not mapped gets the default, whatever the disk and the network say. */
  lemma UnmappedUrlIsDefault(fileToUrlMap: map<string, Option<string>>, requestUrl: Option<string>)
    requires requestUrl.None? || requestUrl.value !in fileToUrlMap
    ensures forall disk, net :: Intercept(fileToUrlMap, requestUrl, disk, net) == Default
  {
  }

  /**
   * A request is served from a file exactly when it is mapped to a readable file; that
   * response carries the content type and encoding of its extension and only the CORS header.
   */
  lemma FileResponseIff(fileToUrlMap: map<string, Option<string>>, url: string, disk: Disk, net: Network)
    ensures var r := Intercept(fileToUrlMap, Some(url), disk, net);
            var ext := FileExtFromUrl(Some(url));
            && (r.FromFile? <==>
                  url in fileToUrlMap && ResponseFromFile(ext, fileToUrlMap[url], Lookup(MimeTypes, ext), Encoding(ext), disk).Some?)
            && (r.FromFile? ==>
                  && r.response == ResponseFromFile(ext, fileToUrlMap[url], Lookup(MimeTypes, ext), Encoding(ext), disk).value
                                     .(headers := Some(map[AllowOrigin := "*"]))
                  && r.response.headers == Some(map[AllowOrigin := "*"])
                  && r.response.mimeType == Lookup(MimeTypes, ext)
                  && (r.response.encoding == "gzip" <==> ext == Some("gz")))
  {
  }

  /**
   * The network is consulted exactly when a mapped request has no readable file and its
   * extension is "html" or "gz"; the answer is the fetch of the request URL, unless the URL
   * is not HTTP and the cast throws. Every other failure gets the default.
   */
  lemma NetworkFallbackIff(fileToUrlMap: map<string, Option<string>>, url: string, disk: Disk, net: Network)
    requires url in fileToUrlMap
    ensures var r := Intercept(fileToUrlMap, Some(url), disk, net);
            var ext := FileExtFromUrl(Some(url));
            var noFile := ResponseFromFile(ext, fileToUrlMap[url], Lookup(MimeTypes, ext), Encoding(ext), disk).None?;
            && (r.FromNetwork? || r.ThrowsClassCast? <==> noFile && (ext == Some("html") || ext == Some("gz")))
            && (r == Default <==> noFile && ext != Some("html") && ext != Some("gz"))
            && (r.ThrowsClassCast? <==>
                  noFile && (ext == Some("html") || ext == Some("gz"))
                  && url in net.connections && net.connections[url].NotHttp?)
            && (r.FromNetwork? ==> r.fetched == HtmlResponse(url, Some("text/html"), net).value)
  {
    HtmlMimeTypeIff(FileExtFromUrl(Some(url)));
  }

  /** A mapped request with a null or empty path, or a missing file, is never served from a file. */
  lemma MissingFileNeverServed(fileToUrlMap: map<string, Option<string>>, url: string, disk: Disk, net: Network)
    requires url in fileToUrlMap
    requires var path := fileToUrlMap[url]; path.None? || path.value == "" || path.value !in disk.existing
    ensures !Intercept(fileToUrlMap, Some(url), disk, net).FromFile?
  {
  }

  /** A mapped font file that can be read is served as an OpenType font with the CORS header. */
  lemma FontServedWithCors(fileToUrlMap: map<string, Option<string>>, base: string, disk: Disk, net: Network)
    requires base + ".woff" in fileToUrlMap
    requires var path := fileToUrlMap[base + ".woff"];
             path.Some? && path.value != "" && path.value in disk.existing && path.value in disk.openable
    ensures var r := Intercept(fileToUrlMap, Some(base + ".woff"), disk, net);
            && r.FromFile?
            && r.response.mimeType == Some("application/x-font-opentype")
            && r.response.encoding == "UTF-8"
            && r.response.body == FileStream(fileToUrlMap[base + ".woff"].value)
            && r.response.headers == Some(map[AllowOrigin := "*"])
  {
    var url := base + ".woff";
    assert url == base + "." + "woff";
    FileExtOfJoined(base, "woff");
    var ext := FileExtFromUrl(Some(url));
    assert Lookup(MimeTypes, ext) == Some("application/x-font-opentype");
    var file := ResponseFromFile(ext, fileToUrlMap[url], Lookup(MimeTypes, ext), Encoding(ext), disk);
    assert file == Some(Response(Some("application/x-font-opentype"), "UTF-8", FileStream(fileToUrlMap[url].value), None));
    FileResponseIff(fileToUrlMap, url, disk, net);
  }

  /** A mapped gzip file that can be read is decompressed and served as HTML with gzip encoding. */
  lemma GzipServedAsHtml(fileToUrlMap: map<string, Option<string>>, base: string, disk: Disk, net: Network)
    requires base + ".gz" in fileToUrlMap
    requires var path := fileToUrlMap[base + ".gz"];
             path.Some? && path.value != "" && path.value in disk.existing && path.value in disk.openable
             && path.value in disk.validGzip
    ensures var r := Intercept(fileToUrlMap, Some(base + ".gz"), disk, net);
            && r.FromFile?
            && r.response.mimeType == Some("text/html")
            && r.response.encoding == "gzip"
            && r.response.body == GzipStream(fileToUrlMap[base + ".gz"].value)
            && r.response.headers == Some(map[AllowOrigin := "*"])
  {
    FileExtOfJoined(base, "gz");
    assert base + ".gz" == base + "." + "gz";
  }

  /**
   * As written, a mapped HTML URL with a non-HTTP scheme whose file is missing makes
   * `shouldInterceptRequest` throw: the failed cast to `HttpURLConnection` is not among
   * the exceptions the fallback catches.
   */
  lemma NonHttpFallbackThrows(fileToUrlMap: map<string, Option<string>>, base: string, disk: Disk, net: Network)
    requires base + ".html" in fileToUrlMap
    requires var path := fileToUrlMap[base + ".html"]; path.None? || path.value == "" || path.value !in disk.existing
    requires base + ".html" in net.connections && net.connections[base + ".html"].NotHttp?
    ensures Intercept(fileToUrlMap, Some(base + ".html"), disk, net) == ThrowsClassCast
  {
    var url := base + ".html";
    assert url == base + "." + "html";
    FileExtOfJoined(base, "html");
    var ext := FileExtFromUrl(Some(url));
    assert Lookup(MimeTypes, ext) == Some("text/html");
    assert ResponseFromFile(ext, fileToUrlMap[url], Lookup(MimeTypes, ext), Encoding(ext), disk).None?;
    assert HtmlResponse(url, Some("text/html"), net).ClassCastThrown?;
  }

  /**
   * The decision with the fallback's failed cast caught like its other exceptions, so that
   * every failure of the fallback degrades to a null response.
   */
  function InterceptCatchingCast(fileToUrlMap: map<string, Option<string>>, requestUrl: Option<string>,
                                 disk: Disk, net: Network): (r: Interception)
    ensures !r.ThrowsClassCast?
    ensures Intercept(fileToUrlMap, requestUrl, disk, net).ThrowsClassCast? ==> r == FromNetwork(None)
  {
    match Intercept(fileToUrlMap, requestUrl, disk, net)
    case ThrowsClassCast => FromNetwork(None)
    case other => other
  }

  /**
   * With the cast caught, a mapped HTML request without a readable file always gets a
   * network answer, and every other request is decided as before.
   */
  lemma CatchingCastKeepsDecision(fileToUrlMap: map<string, Option<string>>, url: string, disk: Disk, net: Network)
    requires url in fileToUrlMap
    ensures var ext := FileExtFromUrl(Some(url));
            var noFile := ResponseFromFile(ext, fileToUrlMap[url], Lookup(MimeTypes, ext), Encoding(ext), disk).None?;
            var r := InterceptCatchingCast(fileToUrlMap, Some(url), disk, net);
            && (r.FromNetwork? <==> noFile && (ext == Some("html") || ext == Some("gz")))
            && (!r.FromNetwork? ==> r == Intercept(fileToUrlMap, Some(url), disk, net))
  {
    NetworkFallbackIff(fileToUrlMap, url, disk, net);
  }

  /** The in-memory `WebResourceResponse` built by the three-argument constructor. */
  class WebResourceResponse {
    const mimeType: Option<string>
    const encoding: string
    const body: Body
    var responseHeaders: Option<map<string, string>>

    /** The constructor leaves the header map null. */
    constructor (mimeType: Option<string>, encoding: string, body: Body)
      ensures Value() == Response(mimeType, encoding, body, None)
    {
      this.mimeType := mimeType;
      this.encoding := encoding;
      this.body := body;
      this.responseHeaders := None;
    }

    function Value(): Response
      reads this
    {
      Response(mimeType, encoding, body, responseHeaders)
    }

    method SetResponseHeaders(headers: Option<map<string, string>>)
      modifies this`responseHeaders
      ensures Value() == old(Value()).(headers := headers)
    {
      responseHeaders := headers;
    }
  }

  /** `getWebResponseFromFile`, allocating the response. */
  method GetWebResponseFromFile(fileExt: Option<string>, filePath: Option<string>, mimeType: Option<string>,
                                encoding: string, disk: Disk) returns (r: WebResourceResponse?)
    ensures r == null <==> ResponseFromFile(fileExt, filePath, mimeType, encoding, disk).None?
    ensures r != null ==> fresh(r) && r.Value() == ResponseFromFile(fileExt, filePath, mimeType, encoding, disk).value
  {
    if filePath.None? || filePath.value == "" { return null; }
    var path := filePath.value;
    if path !in disk.existing { return null; }
    if path !in disk.openable { return null; }
    if fileExt == Some("gz") {
      if path !in disk.validGzip { return null; }
      r := new WebResourceResponse(mimeType, encoding, GzipStream(path));
      return;
    }
    r := new WebResourceResponse(mimeType, encoding, FileStream(path));
  }

  /** `getHtmlMimeTypeWebResourceResponse`, allocating the response; `threw` reports the escaping cast failure. */
  method GetHtmlMimeTypeWebResourceResponse(requestUrl: string, mimeType: Option<string>, net: Network)
    returns (r: WebResourceResponse?, threw: bool)
    ensures threw <==> HtmlResponse(requestUrl, mimeType, net).ClassCastThrown?
    ensures !threw ==> (r == null <==> HtmlResponse(requestUrl, mimeType, net).value.None?)
    ensures !threw && r != null ==> fresh(r) && r.Value() == HtmlResponse(requestUrl, mimeType, net).value.value
  {
    r, threw := null, false;
    if requestUrl !in net.connections { return; }
    var urlConnection := net.connections[requestUrl];
    if urlConnection.NotHttp? { threw := true; return; }
    var contentDisposition := urlConnection.contentDisposition;
    if contentDisposition.None? || !Contains(contentDisposition.value, "attachment") { return; }
    if !urlConnection.bodyReadable { return; }
    r := new WebResourceResponse(mimeType, "UTF-8", NetworkStream(requestUrl));
  }
}
