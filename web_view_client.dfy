/**
 * The web view clients (`WebViewClientImpl` and `WebViewClientCompatImpl`, whose
 * logic is the same): while attached they forward callbacks to the Dart side
 * through a message channel, and `release` detaches them for good.
 */
module WebViewClients {
  import opened Wrappers
  import opened HostApi

  /** The messages a client sends to the Dart side. */
  datatype Message =
    | RequestLoading(client: object, url: string)   // `shouldOverrideUrlLoading(view, request)`
    | UrlLoading(client: object, url: string)       // `shouldOverrideUrlLoading(view, url)`
    | Dispose(client: object)                       // `release`

  /** The channel to the Dart side, recorded as the messages sent over it. */
  class FlutterApi {
    var sent: seq<Message>

    constructor ()
      ensures sent == []
    {
      sent := [];
    }

    method Send(message: Message)
      modifies this
      ensures sent == old(sent) + [message]
    {
      sent := sent + [message];
    }
  }

  class WebViewClient {
    var flutterApi: FlutterApi?
    const shouldOverrideUrlLoading: bool
    const fileToUrlMap: map<string, Option<string>>

    /** A client starts attached to a (non-null) channel. */
    constructor (flutterApi: FlutterApi, shouldOverrideUrlLoading: bool, fileToUrlMap: map<string, Option<string>>)
      ensures this.flutterApi == flutterApi
      ensures this.shouldOverrideUrlLoading == shouldOverrideUrlLoading
      ensures this.fileToUrlMap == fileToUrlMap
    {
      this.flutterApi := flutterApi;
      this.shouldOverrideUrlLoading := shouldOverrideUrlLoading;
      this.fileToUrlMap := fileToUrlMap;
    }

    /** The channel this client may still write to: none once released. */
    function Channel(): set<object>
      reads this
    {
      if flutterApi == null then {} else {flutterApi}
    }

    /** Request form: reports the request while attached; the answer is always the constructor's flag. */
    method ShouldOverrideRequestLoading(url: string) returns (b: bool)
      modifies Channel()
      ensures b == shouldOverrideUrlLoading
      ensures old(flutterApi) != null ==> flutterApi.sent == old(flutterApi.sent) + [RequestLoading(this, url)]
    {
      if flutterApi != null {
        flutterApi.Send(RequestLoading(this, url));
      }
      b := shouldOverrideUrlLoading;
    }

    /** URL form: reports the URL while attached; the answer is always the constructor's flag. */
    method ShouldOverrideUrlLoading(url: string) returns (b: bool)
      modifies Channel()
      ensures b == shouldOverrideUrlLoading
      ensures old(flutterApi) != null ==> flutterApi.sent == old(flutterApi.sent) + [UrlLoading(this, url)]
    {
      if flutterApi != null {
        flutterApi.Send(UrlLoading(this, url));
      }
      b := shouldOverrideUrlLoading;
    }

    /** Sends one dispose message while attached, then detaches; releasing again sends nothing. */
    method Release()
      modifies this, Channel()
      ensures flutterApi == null
      ensures old(flutterApi) != null ==> old(flutterApi).sent == old(flutterApi.sent) + [Dispose(this)]
    {
      if flutterApi != null {
        flutterApi.Send(Dispose(this));
      }
      flutterApi := null;
    }

    /**
     * Serves a mapped request from its file, patching the response's header map in
     * place; the decision is the one `Intercept` specifies.
     */
    method ShouldInterceptRequest(requestUrl: Option<string>, disk: Disk, net: Network) returns (r: Interception)
      ensures r == Intercept(fileToUrlMap, requestUrl, disk, net)
    {
      if requestUrl.None? || requestUrl.value !in fileToUrlMap { return Default; }
      var fileExt := FileExtFromUrl(requestUrl);
      var mimeTypes := GetMimeTypeMap();
      var mimeType := Lookup(mimeTypes, fileExt);
      var encoding := Encoding(fileExt);
      var filePath := fileToUrlMap[requestUrl.value];
      var webResponseFromFile := GetWebResponseFromFile(fileExt, filePath, mimeType, encoding, disk);
      if webResponseFromFile != null {
        var responseHeaders := webResponseFromFile.responseHeaders;
        var resHeaders := responseHeaders.GetOr(map[]);
        resHeaders := resHeaders[AllowOrigin := "*"];
        webResponseFromFile.SetResponseHeaders(Some(resHeaders));
        return FromFile(webResponseFromFile.Value());
      }
      if mimeType == Some("text/html") {
        var fetched, threw := GetHtmlMimeTypeWebResourceResponse(requestUrl.value, mimeType, net);
        if threw { return ThrowsClassCast; }
        return FromNetwork(if fetched == null then None else Some(fetched.Value()));
      }
      return Default;
    }
  }

  /**
   * A client's whole life: one URL check while attached, two releases, one check
   * afterwards. Both answers are the flag, the channel sees exactly one dispose,
   * and nothing reaches it after the first release.
   */
  method Lifecycle(flag: bool, url: string) returns (before: bool, after: bool, sent: seq<Message>)
    ensures before == flag && after == flag
    ensures |sent| == 2 && sent[0].UrlLoading? && sent[1].Dispose?
  {
    var api := new FlutterApi();
    var client := new WebViewClient(api, flag, map[]);
    before := client.ShouldOverrideUrlLoading(url);
    client.Release();
    client.Release();
    after := client.ShouldOverrideUrlLoading(url);
    sent := api.sent;
  }
}
