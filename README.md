# Local-file interception of the Android web view clients

A Dafny model of the logic in `WebViewClientHostApiImpl`, part of the Android side of a
Flutter web view plugin. When the Dart side creates a web view client, it passes a map from
request URLs to local file paths. The client then intercepts every resource request:

- an unmapped URL is left to the web view (`super.shouldInterceptRequest`);
- a mapped URL is served from its file, with a content type picked by the URL's
  extension, a `gzip` encoding (and a decompressing stream) for `.gz`, and the header
  `Access-Control-Allow-Origin: *` added so that fonts loaded from the cache pass CORS checks;
- a mapped URL whose file is missing or unreadable is fetched over the network when its
  content type is `text/html`. That fetch answers only when the server sends a
  `content-disposition` naming an attachment; otherwise the request is left to the web view.

A client also forwards navigation callbacks to the Dart side until it is released.

Files:

- `wrappers.dfy`: `Option`, standing for a Java reference that may be null.
- `java_strings.dfy`: `String.lastIndexOf` and `String.contains`, proved against their definitions.
- `host_api.dfy`: the static helpers (`getFileExtFromUrl`, `getMimeTypeMap`, `getEncoding`,
  `getWebResponseFromFile`, `getHtmlMimeTypeWebResourceResponse`) and the pure decision
  `Intercept`, with the lemmas about it. It also models the response object whose header map is
  patched in place.
- `web_view_client.dfy`: the client class. It holds the nullable channel to Dart, the override
  flag and the file map, and has the `shouldInterceptRequest`, `shouldOverrideUrlLoading` and
  `release` methods.

The file system and the network are oracles, not I/O:

- `Disk` says which paths exist, which open, and which hold a valid gzip header.
- `Network` says, per URL, whether the connection succeeds and whether it is an HTTP
  connection. For an HTTP connection it also gives the `content-disposition` field and
  whether the body can be read.

The null request URL (what `shouldInterceptRequest` has on Android versions before Lollipop)
is `None`. So is a null file path in the map.

A mapped request whose file cannot be served is not always fetched. Only `text/html`
requests (extensions `html` and `gz`) go to the network. That fetch answers only for
attachments; otherwise the result is null. A non-HTTP URL (`file:`, `jar:`, `ftp:`) makes
the fetch throw an exception that nothing catches (see "## Findings").

## Model

| member | source | states |
|---|---|---|
| `JavaStrings.LastIndexOf` | packages/webview_flutter/whatfix_flutter_webview_android/android/src/main/java/io/flutter/plugins/webviewflutter/WebViewClientHostApiImpl.java:403 | -1 exactly when the character is absent; otherwise an index holding it with no occurrence after it |
| `JavaStrings.Contains` | packages/webview_flutter/whatfix_flutter_webview_android/android/src/main/java/io/flutter/plugins/webviewflutter/WebViewClientHostApiImpl.java:349 | true exactly when some window of the string equals the searched text |
| `HostApi.Lookup` | packages/webview_flutter/whatfix_flutter_webview_android/android/src/main/java/io/flutter/plugins/webviewflutter/WebViewClientHostApiImpl.java:75 | a map lookup gives a value exactly for a non-null key present in the map, and that key's value |
| `HostApi.GetMimeTypeMap` | packages/webview_flutter/whatfix_flutter_webview_android/android/src/main/java/io/flutter/plugins/webviewflutter/WebViewClientHostApiImpl.java:379-394 | the twelve successive puts build the extension table, which has exactly 12 keys |
| `HostApi.HtmlMimeTypeIff` | packages/webview_flutter/whatfix_flutter_webview_android/android/src/main/java/io/flutter/plugins/webviewflutter/WebViewClientHostApiImpl.java:381-382 | an extension's content type is `text/html` if and only if the extension is `html` or `gz` |
| `HostApi.FontMimeTypeIff` | packages/webview_flutter/whatfix_flutter_webview_android/android/src/main/java/io/flutter/plugins/webviewflutter/WebViewClientHostApiImpl.java:390-392 | an extension's content type is `application/x-font-opentype` if and only if it is `woff`, `ttf` or `eot` |
| `HostApi.UnknownExtensionHasNoMimeType` | packages/webview_flutter/whatfix_flutter_webview_android/android/src/main/java/io/flutter/plugins/webviewflutter/WebViewClientHostApiImpl.java:379-394 | an extension has no content type if and only if it is null or outside the twelve |
| `HostApi.Encoding` | packages/webview_flutter/whatfix_flutter_webview_android/android/src/main/java/io/flutter/plugins/webviewflutter/WebViewClientHostApiImpl.java:396-399 | `gzip` if and only if the extension is `gz`; `UTF-8` for every other extension, null included |
| `HostApi.FileExtFromUrl` | packages/webview_flutter/whatfix_flutter_webview_android/android/src/main/java/io/flutter/plugins/webviewflutter/WebViewClientHostApiImpl.java:401-406 | null exactly for a null or empty URL; otherwise a dot-free suffix of the URL: the whole URL when it has no dot, else the part after the last dot, with prefix + "." + result == URL |
| `HostApi.FileExtOfJoined` | packages/webview_flutter/whatfix_flutter_webview_android/android/src/main/java/io/flutter/plugins/webviewflutter/WebViewClientHostApiImpl.java:403-405 | for any base and dot-free suffix, the extension of base + "." + suffix is that suffix (the inverse of the decomposition above) |
| `HostApi.QueryStringStaysInExtension` | packages/webview_flutter/whatfix_flutter_webview_android/android/src/main/java/io/flutter/plugins/webviewflutter/WebViewClientHostApiImpl.java:74-75 | query strings are not stripped: `a.js?v=1` has extension `js?v=1`, which has no content type |
| `HostApi.PatchedHeaders` | packages/webview_flutter/whatfix_flutter_webview_android/android/src/main/java/io/flutter/plugins/webviewflutter/WebViewClientHostApiImpl.java:85-87 | the patched header map sets `Access-Control-Allow-Origin` to `*`; every other header is present and unchanged exactly when it was before; a null map counts as empty |
| `HostApi.PatchedHeadersIdempotent` | packages/webview_flutter/whatfix_flutter_webview_android/android/src/main/java/io/flutter/plugins/webviewflutter/WebViewClientHostApiImpl.java:85-88 | patching an already patched header map changes nothing |
| `HostApi.ResponseFromFile` | packages/webview_flutter/whatfix_flutter_webview_android/android/src/main/java/io/flutter/plugins/webviewflutter/WebViewClientHostApiImpl.java:363-377 | a file response exists exactly when the path is non-null and non-empty, the file exists and opens, and a `gz` file has a valid gzip header; it carries the given type and encoding, no headers, and a gzip stream exactly for `gz` |
| `HostApi.HtmlResponse` | packages/webview_flutter/whatfix_flutter_webview_android/android/src/main/java/io/flutter/plugins/webviewflutter/WebViewClientHostApiImpl.java:343-361 | throws exactly when the URL connects with a non-HTTP connection (the cast at line 347); a response exists exactly when the URL connects over HTTP, its `content-disposition` contains `attachment` and its body is readable; it is then UTF-8 with the given type |
| `HostApi.GetWebResponseFromFile` | packages/webview_flutter/whatfix_flutter_webview_android/android/src/main/java/io/flutter/plugins/webviewflutter/WebViewClientHostApiImpl.java:363-377 | returns null exactly when `ResponseFromFile` has none, otherwise a fresh response object holding that response |
| `HostApi.GetHtmlMimeTypeWebResourceResponse` | packages/webview_flutter/whatfix_flutter_webview_android/android/src/main/java/io/flutter/plugins/webviewflutter/WebViewClientHostApiImpl.java:343-361 | reports a throw exactly when `HtmlResponse` throws; otherwise returns null exactly when `HtmlResponse` has no response, and else a fresh response object holding it |
| `HostApi.Intercept` | packages/webview_flutter/whatfix_flutter_webview_android/android/src/main/java/io/flutter/plugins/webviewflutter/WebViewClientHostApiImpl.java:62-96 | the decision: an unmapped or null URL gets the default, a file response carries exactly the CORS header, and the network is reached only for `text/html`; the full characterization is in `UnmappedUrlIsDefault`, `FileResponseIff`, `NetworkFallbackIff` and `MissingFileNeverServed` |
| `HostApi.UnmappedUrlIsDefault` | packages/webview_flutter/whatfix_flutter_webview_android/android/src/main/java/io/flutter/plugins/webviewflutter/WebViewClientHostApiImpl.java:71-72 | a null or unmapped request URL gets the default result for every disk and network state |
| `HostApi.FileResponseIff` | packages/webview_flutter/whatfix_flutter_webview_android/android/src/main/java/io/flutter/plugins/webviewflutter/WebViewClientHostApiImpl.java:74-89 | a request is served from a file exactly when it is mapped to a readable file; that response is the mapped file's response (its path, its extension's type, `gzip` encoding and stream exactly for `gz`) with exactly the header `Access-Control-Allow-Origin: *` |
| `HostApi.NetworkFallbackIff` | packages/webview_flutter/whatfix_flutter_webview_android/android/src/main/java/io/flutter/plugins/webviewflutter/WebViewClientHostApiImpl.java:92-95 | for a mapped URL, the network is consulted exactly when no file response exists and the extension is `html` or `gz`; its answer is the fetch of the request URL as `text/html`, or the escaping exception exactly when that URL is not HTTP; the default is returned exactly when no file response exists and the extension is anything else |
| `HostApi.MissingFileNeverServed` | packages/webview_flutter/whatfix_flutter_webview_android/android/src/main/java/io/flutter/plugins/webviewflutter/WebViewClientHostApiImpl.java:364-366 | a null or empty path, or a nonexistent file, never yields a file response |
| `HostApi.FontServedWithCors` | packages/webview_flutter/whatfix_flutter_webview_android/android/src/main/java/io/flutter/plugins/webviewflutter/WebViewClientHostApiImpl.java:82-89 | a mapped, readable `.woff` URL is served from its file as an OpenType font in UTF-8 with the CORS header |
| `HostApi.GzipServedAsHtml` | packages/webview_flutter/whatfix_flutter_webview_android/android/src/main/java/io/flutter/plugins/webviewflutter/WebViewClientHostApiImpl.java:369-372 | a mapped `.gz` URL whose file is valid gzip is served decompressed, as `text/html`, with encoding `gzip` and exactly the CORS header |
| `HostApi.NonHttpFallbackThrows` | packages/webview_flutter/whatfix_flutter_webview_android/android/src/main/java/io/flutter/plugins/webviewflutter/WebViewClientHostApiImpl.java:346-347 | as written: a mapped `.html` URL with no file and a non-HTTP connection makes the decision throw |
| `HostApi.InterceptCatchingCast` | packages/webview_flutter/whatfix_flutter_webview_android/android/src/main/java/io/flutter/plugins/webviewflutter/WebViewClientHostApiImpl.java:343-361 | with the failed cast caught, the decision never throws, and where the original throws it returns a null network answer |
| `HostApi.CatchingCastKeepsDecision` | packages/webview_flutter/whatfix_flutter_webview_android/android/src/main/java/io/flutter/plugins/webviewflutter/WebViewClientHostApiImpl.java:92-95 | with the cast caught, a mapped HTML request without a readable file always gets a network answer, and every other outcome is the original decision |
| `WebViewClients.WebViewClient.constructor` | packages/webview_flutter/whatfix_flutter_webview_android/android/src/main/java/io/flutter/plugins/webviewflutter/WebViewClientHostApiImpl.java:104-109 | a new client is attached to the given channel and keeps the override flag and file map |
| `WebViewClients.WebViewClient.ShouldInterceptRequest` | packages/webview_flutter/whatfix_flutter_webview_android/android/src/main/java/io/flutter/plugins/webviewflutter/WebViewClientHostApiImpl.java:62-96 | the imperative body (response object allocated, its header map patched in place, an escaping exception reported) returns exactly the decision `Intercept` specifies |
| `WebViewClients.WebViewClient.ShouldOverrideRequestLoading` | packages/webview_flutter/whatfix_flutter_webview_android/android/src/main/java/io/flutter/plugins/webviewflutter/WebViewClientHostApiImpl.java:142-147 | answers the constructor's flag; while attached, sends exactly one request-loading message |
| `WebViewClients.WebViewClient.ShouldOverrideUrlLoading` | packages/webview_flutter/whatfix_flutter_webview_android/android/src/main/java/io/flutter/plugins/webviewflutter/WebViewClientHostApiImpl.java:150-155 | answers the constructor's flag; while attached, sends exactly one URL-loading message |
| `WebViewClients.WebViewClient.Release` | packages/webview_flutter/whatfix_flutter_webview_android/android/src/main/java/io/flutter/plugins/webviewflutter/WebViewClientHostApiImpl.java:164-169 | afterwards the channel is null; a dispose message is sent only when the client was still attached, so a second release sends nothing |
| `WebViewClients.Lifecycle` | packages/webview_flutter/whatfix_flutter_webview_android/android/src/main/java/io/flutter/plugins/webviewflutter/WebViewClientHostApiImpl.java:150-169 | check, release, release, check: both answers are the flag and the channel receives exactly one URL-loading and one dispose message |

## Findings

| source | as written | input that shows it | evidently intended | confidence | as-written member | corrected member |
|---|---|---|---|---|---|---|
| packages/webview_flutter/whatfix_flutter_webview_android/android/src/main/java/io/flutter/plugins/webviewflutter/WebViewClientHostApiImpl.java:347 | `(HttpURLConnection) url.openConnection()` throws `ClassCastException` for non-HTTP schemes; only `MalformedURLException` and `IOException` are caught (lines 353-356), so it escapes `shouldInterceptRequest` | `file:///sdcard/page.html` mapped to a path that does not exist | every failure of the fallback yields null, like the caught exceptions | medium, not executed | `HostApi.NonHttpFallbackThrows` | `HostApi.InterceptCatchingCast` |

The client class models the code as written, so its `ShouldInterceptRequest` can return `ThrowsClassCast`.

## Left out

- `WebViewClientCompatImpl` (lines 176-292) is not modelled separately: its interception, override and release logic is the same as `WebViewClientImpl`'s, apart from the logging lines (69-70 against 200), so one class models both.
- The callbacks `onPageStarted`, `onPageFinished` and both `onReceivedError` forms are not modelled. They only forward their arguments to Dart when the channel is non-null and carry no logic of their own. `onUnhandledKeyEvent` is empty on purpose.
- File reading and gzip decoding: `Disk` only says whether a path exists, opens, and has a valid gzip header. The bytes of a response are not modelled.
- Network access in `getHtmlMimeTypeWebResourceResponse`: `Network` says, per URL, whether it connects, whether the connection is HTTP, its `content-disposition` field, and whether its body is readable. Malformed URLs and I/O errors are folded into "does not connect".
- Disconnecting is not modelled. The `finally` at line 358 disconnects the connection whose input stream the returned response wraps (lines 351-352), so that body may be unreadable when the web view reads it; the model treats the body as readable.
- A null `fileToUrlMap`, which `create` (line 337) does not forbid, makes `shouldInterceptRequest` throw a `NullPointerException`. In `WebViewClientImpl` this happens at the logging line 70 (`new JSONObject(fileToUrlMap)`), and in `WebViewClientCompatImpl` at line 197. The model's map is never null.
- Null keys in the file map: keys are `string`, as the Dart side sends them. In `WebViewClientCompatImpl`, a Java map holding a null key would make a null request URL count as mapped at line 197. In `WebViewClientImpl`, the logging line 70 comes first and hands that map to `JSONObject`, which is outside this model. `UnmappedUrlIsDefault` covers only maps without a null key.
- Other unchecked exceptions (for example from the platform's `File` or stream classes) are not modelled; only the failed cast at line 347 is.
- `super.shouldInterceptRequest` is platform code; the model returns the tag `Default` for it.
- `WebResourceResponse` is an Android class: the model assumes that its three-argument constructor leaves the header map null. The header patch is still modelled for any map, including a non-null one.
- Aliasing of the header map: the Java code puts the CORS header into the response's own `HashMap` and then sets it back. The model copies the map as a value and sets the patched copy, which ends in the same state.
- `WebViewClientCreator` (choice between the two client classes by SDK version), `create` and `InstanceManager` registration are platform plumbing and are not modelled.
- Logging (`System.out.println`, `Log.d`, the `JSONObject` dump of the file map) is left out.
- Reply callbacks of the Dart channel are not modelled: a sent message is recorded and nothing is received.
