# APK download server: a Dafny model

The system is a small HTTP daemon. It serves the newest `.apk` file of one
directory, `/var/www/apk-downloads`, and it answers two paths:

- `GET /xiazai` sends the newest package as a download;
- `GET /` renders an HTML landing page that describes the newest package, or
  says that no package is available.

Every other path is answered 404. The daemon scans the directory again for
every request.

This project models the decision logic of `SimpleAPKHandler` in Dafny and
proves properties of it. The filesystem is an input, not something the model calls.

- `Scanner` (scanner.dfy) models `get_latest_apk`. It is a method with the
  source's loop: it appends one record per `.apk` entry, then sorts the list
  and takes its head. The method is proved equal to the specification function
  `Latest`. Python's stable `list.sort(key=..., reverse=True)` is modelled as a
  functional insertion sort. The lemmas say what the selection means:
  - the result is `None` exactly when the directory is missing or unlistable,
    an `.apk` entry cannot be stat'ed, or no name ends in `.apk`;
  - otherwise the result is an `.apk` entry whose `modified` string is at least
    that of every `.apk` entry;
  - among entries with equal keys, the first one in listing order wins.
- `Text` (text.dfy) holds the helpers the scanner and the handlers use:
  - Python's ordering of `str` values, with its order lemmas;
  - `str.endswith`, slicing, and single-character `str.replace`;
  - `str(n)` for sizes, with a round-trip lemma against reading the digits back.
- `Routing` (routing.dfy) models `do_GET`'s dispatch. The path component is
  computed the way `urllib.parse.urlparse` does it for origin-form targets:
  - the text is cut at the first `?` or `#`;
  - `;params` are cut off the last path segment.

  The lemmas list exactly which targets download, which show the landing page,
  and which get 404. Another lemma shows that a query string or a fragment
  never changes the outcome.
- `Handlers` (handlers.dfy) models `handle_download` and
  `send_simple_response` as functions. Each returns the sequence of replies it
  writes to the connection: status, headers, and body or page. It also models
  the timestamp display `modified[:19].replace('T', ' ')`.
- `Server` (server.dfy) composes the modules for one request, `DoGet`. It
  also states worked examples: a directory holding only `app-v2.apk`, a
  directory whose one package has a name outside Latin-1, and an empty or
  missing directory.

Inputs the model takes in place of I/O:

- `Directory`: `Missing` (`os.path.exists` is false), `Unlistable`
  (`os.listdir` raises), or `Listed(entries)` in enumeration order. Each entry
  carries its name, its `st_size`, the ISO-format string of its modification
  time, and a flag saying that `os.stat` raises for it.
- `fileExists`: what `os.path.exists` says of the selected file when the
  download handler checks it.
- `bodyFails`: producing the body raises. For a download this is opening or
  reading the file. For the landing page it is encoding the artifact page as
  UTF-8, which fails for a name `os.listdir` decoded with surrogate escapes.
  The "no APK" page is a fixed text that always encodes, so the flag has no
  effect there. Writing to the connection is assumed to succeed.

Three behaviours of the code are worth stating because a quick reading of it
suggests otherwise:

- Among `.apk` files with equal timestamps, the first in listing order wins,
  because `list.sort` is stable even with `reverse=True`
  (`Scanner.LatestIsFirstInListing`).
- `urlparse` drops a fragment as well as a query string, and it also cuts
  `;params` off the last path segment, so `/xiazai;v=2` downloads
  (`Routing.ParamsIgnored`).
- An exception inside a handler does not give the client a clean 500. The 500
  comes after a 200 status line that has already gone out or been queued (see
  "## Findings").

## Model

| member | source | states |
|---|---|---|
| `Text.Less` | apk-server.py:185 | Python's `<` on `str`, the order of the sort key; `LessIrreflexive`, `LessTransitive`, `LessTotal` and `LessAsymmetric` make it a strict total order |
| `Text.EndsWith` | apk-server.py:170 | `str.endswith`: the last `|suffix|` characters equal `suffix`; pinned down by `Scanner.SuffixTestExamples` and `Scanner.ApkRecordsFromEntries` |
| `Text.NatToDecimal` | apk-server.py:51 | `str(size)` is a non-empty string of decimal digits with no leading zero |
| `Text.DecimalRoundTrip` | apk-server.py:51 | reading back the digits of `str(n)` gives `n`, so Content-Length carries the scanned size exactly |
| `Text.Take` | apk-server.py:114 | `s[:19]` is the prefix of `s` of length `min(19, |s|)` |
| `Text.ReplaceChar` | apk-server.py:114 | `str.replace` of one character keeps the length, and every occurrence is replaced while the other characters are kept |
| `Text.IsLatin1` | apk-server.py:49-51 | the strings `send_header` can encode (`encode('latin-1')`): every code point below 256 |
| `Text.Latin1Concat` | apk-server.py:50 | a concatenation encodes as Latin-1 exactly when both parts do |
| `Text.DigitsAreLatin1` | apk-server.py:51 | `str(size)` always encodes as Latin-1 |
| `Scanner.IsApkName` | apk-server.py:170 | `filename.endswith('.apk')`; `SuffixTestExamples` shows it is exact and case-sensitive |
| `Scanner.ApkRecords` | apk-server.py:168-179 | the `apk_files` list the loop builds; `ApkRecordsFromEntries` and `ApkRecordsPrefix` pin down its contents and order |
| `Scanner.InsertByModified` | apk-server.py:185 | inserting one record into the sorted list adds exactly that record |
| `Scanner.SortByModified` | apk-server.py:185 | the sort returns a permutation of `apk_files` |
| `Scanner.SortIsDescendingPermutation` | apk-server.py:185 | `sort(key=modified, reverse=True)` leaves the records in non-increasing order of the ISO string and is a permutation |
| `Scanner.InsertKeepsDescending` | apk-server.py:185 | inserting a record keeps a descending list descending |
| `Scanner.SortHeadStep` | apk-server.py:185 | a later record displaces the head of the sorted list only when its key is strictly greater (stability) |
| `Scanner.FirstLatestExists` | apk-server.py:185-186 | a non-empty list has a first position holding a greatest `modified` string |
| `Scanner.SortHeadIsFirstLatest` | apk-server.py:185-186 | `apk_files[0]` after the stable reverse sort is the first record with the greatest key |
| `Scanner.LatestOfIsFirstLatest` | apk-server.py:181-186 | `LatestOf` (lines 181-186: None for an empty list, else the head of the sort) is None exactly for an empty `apk_files`, and otherwise the first record with the greatest key |
| `Scanner.SortHeadIn` | apk-server.py:185-186 | the head of the sorted list is one of the scanned records |
| `Scanner.FirstLatestInPrefix` | apk-server.py:185-186 | a first greatest record before the last one stays first and greatest when the last record is dropped |
| `Scanner.Latest` | apk-server.py:162-190 | what `get_latest_apk` returns; `LatestIsNone`, `LatestIsNewestApk` and `LatestIsFirstInListing` say what it means, and `GetLatestApk` is proved equal to it |
| `Scanner.GetLatestApk` | apk-server.py:162-190 | the scanning loop, the sort and the `[0]` compute `Latest(dir)`, with every exception mapped to None |
| `Scanner.ApkRecordsFromEntries` | apk-server.py:168-179 | `apk_files` holds a record for every entry whose name ends in `.apk` and for no other entry |
| `Scanner.ApkRecordsPrefix` | apk-server.py:168-179 | the records of a prefix of the listing are a prefix of `apk_files`, so listing order is kept |
| `Scanner.LatestIsNone` | apk-server.py:162-190 | None exactly when the directory is missing or unlistable, an `.apk` entry cannot be stat'ed, or no name ends in `.apk` |
| `Scanner.LatestIsNewestApk` | apk-server.py:169-186 | a result is the record of an `.apk` entry of the listing, and its `modified` string is at least that of every `.apk` entry |
| `Scanner.LatestIsFirstInListing` | apk-server.py:185-186 | the `.apk` entry with a greatest key and strictly smaller keys before it is selected, whatever later entries share its key |
| `Scanner.SuffixTestExamples` | apk-server.py:170 | the `.apk` test is exact and case-sensitive (`.APK` and `.apk.bak` do not match; `.apk` alone does) |
| `Routing.Route` | apk-server.py:22-29 | the `do_GET` dispatch; `RouteDownload`, `RouteLanding` and `RouteNotFound` say exactly which targets take each branch, and `QueryIgnored` that a query or fragment never matters |
| `Routing.PathOf` | apk-server.py:22 | `urlparse(target).path` for origin-form targets; `PathOfSimple` characterises the targets with a given simple path |
| `Routing.StripParams` | apk-server.py:22 | `_splitparams`: cut at the first `;` after the last `/`, found with `RFind` (`str.rfind`) and `FindFrom` (`str.find`), whose own ensures characterise them; `ParamsAreStripped` and `ParamsIgnored` state its effect |
| `Routing.CutQueryAndFragment` | apk-server.py:22 | `urlsplit` keeps the longest prefix of the target without `?` or `#` |
| `Routing.ParamsAreStripped` | apk-server.py:22 | `urlparse` cuts `;params` after a simple path, giving back the path |
| `Routing.PathOfSimple` | apk-server.py:22-26 | `urlparse(t).path` equals a simple path `p` exactly when `t` is `p` followed by nothing, by a query, by a fragment, or by `;params` without a further `/` |
| `Routing.RouteDownload` | apk-server.py:24-25 | a target downloads if and only if its path component is `/xiazai` |
| `Routing.RouteLanding` | apk-server.py:26-27 | a target gets the landing page if and only if its path component is `/` |
| `Routing.RouteNotFound` | apk-server.py:28-29 | every other target is answered 404 |
| `Routing.QueryIgnored` | apk-server.py:22-29 | appending a query string or fragment never changes the routing outcome |
| `Routing.ParamsIgnored` | apk-server.py:22-25 | `/xiazai;...` without a further `/` still downloads |
| `Routing.DownloadExample` | apk-server.py:24-25 | `/xiazai` downloads |
| `Routing.DownloadQueryExample` | apk-server.py:22-25 | `/xiazai?v=2` downloads |
| `Routing.LandingExamples` | apk-server.py:26-27 | `/` and `/?from=qr` get the landing page |
| `Routing.NotFoundExample` | apk-server.py:28-29 | a target that leaves both fixed paths at some character other than `?`, `#` or `;` is answered 404 |
| `Routing.NotFoundExamples` | apk-server.py:28-29 | `/xiazai/` is answered 404 |
| `Routing.CaseSensitiveExample` | apk-server.py:24 | `/XIAZAI` is answered 404: the path match is case-sensitive |
| `Routing.OtherPathExample` | apk-server.py:28-29 | `/index.html` is answered 404 |
| `Handlers.DownloadHeaders` | apk-server.py:49-51 | the three download headers in the order they are sent, the disposition built by `Disposition` (the f-string of line 50); `DownloadHeaderValues`, `DispositionRoundTrip` and `DownloadHeadersEncodable` say what they carry |
| `Handlers.Encodable` | apk-server.py:49-51 | a header line `send_header` can encode: field and value are Latin-1 |
| `Handlers.EncodablePrefix` | apk-server.py:49-51 | how many headers are queued before `send_header` raises: all before it encode, the next does not |
| `Handlers.ContentTypeEncodable` | apk-server.py:49 | the Content-Type line always encodes |
| `Handlers.ContentLengthEncodable` | apk-server.py:51 | the Content-Length line always encodes |
| `Handlers.DispositionEncodable` | apk-server.py:50 | the Content-Disposition line encodes exactly when the file name is Latin-1 |
| `Handlers.DownloadHeadersEncodable` | apk-server.py:49-51 | all three headers go out for a Latin-1 name; otherwise `send_header` raises on the second one, after Content-Type |
| `Handlers.DispositionRoundTrip` | apk-server.py:50 | the file name can be read back from the `attachment; filename="..."` value |
| `Handlers.DownloadHeaderValues` | apk-server.py:49-51 | a download is sent as `application/vnd.android.package-archive`, as an attachment with the scanned name, with Content-Length the decimal scanned size |
| `Handlers.HandleDownloadAsWritten` | apk-server.py:31-61 | `handle_download` as written, failure paths included; `DownloadFailureAfterHeaders`, `NonLatin1NameAfterStatusLine` and `DownloadHandlersAgree` pin down how it differs from `HandleDownload` |
| `Handlers.DownloadFailureAfterHeaders` | apk-server.py:48-61 | as written, for a Latin-1 name, a file that fails after the checks yields a 200 header block and then a second, 500 reply |
| `Handlers.NonLatin1NameAfterStatusLine` | apk-server.py:48-61 | as written, a file name outside Latin-1 yields a 200 status line with only Content-Type, then a 500 reply, whether or not the file is readable |
| `Handlers.ChineseNameIsNotLatin1` | apk-server.py:50 | a Chinese file name such as `应用.apk` is outside Latin-1 |
| `Handlers.HandleDownload` | apk-server.py:37-61 | one reply: 404 when nothing was selected or the file is gone; 500 when the file name is not Latin-1 or the file fails; otherwise, for a Latin-1 name, 200 with the three download headers and the file |
| `Handlers.DownloadHandlersAgree` | apk-server.py:37-61 | the source's download handler and the corrected one differ exactly when the file name is not Latin-1 or the file fails after the checks |
| `Handlers.LandingPage` | apk-server.py:68-121 | which document is rendered, and the name, size and display timestamp it interpolates; `SendSimpleResponse` states it |
| `Handlers.DisplayTime` | apk-server.py:114 | the display timestamp has length `min(19, |modified|)`, contains no `T`, turns each `T` into a space and keeps every other character |
| `Handlers.DisplayTimeOfIso` | apk-server.py:114 | `YYYY-MM-DDTHH:MM:SS` followed by anything is shown as `YYYY-MM-DD HH:MM:SS` |
| `Handlers.DisplayTimeExamples` | apk-server.py:114 | `2024-03-01T12:00:00`, with or without fractional seconds, is shown as `2024-03-01 12:00:00` |
| `Handlers.SendSimpleResponseAsWritten` | apk-server.py:63-160 | `send_simple_response` as written; `LandingFailureAfterHeaders` and `LandingHandlersAgree` pin down how it differs from `SendSimpleResponse` |
| `Handlers.LandingFailureAfterHeaders` | apk-server.py:153-160 | as written, an artifact page that fails to encode yields a 200 header block and then a second, 500 reply |
| `Handlers.SendSimpleResponse` | apk-server.py:65-160 | one reply: 500 exactly when the artifact page fails to encode; otherwise 200 with `text/html; charset=utf-8`, the artifact page exactly when the scan found an artifact, embedding its name, size and display timestamp; without an artifact always 200 with the "no APK" page |
| `Handlers.LandingHandlersAgree` | apk-server.py:153-160 | the source's landing handler and the corrected one differ exactly when the artifact page fails to encode |
| `Server.DoGet` | apk-server.py:20-29 | every GET is answered with exactly one reply, with status 200, 404 or 500 |
| `Server.OtherPathsNotFound` | apk-server.py:28-29 | a target outside `/xiazai` and `/` gets 404 whatever the directory holds |
| `Server.QueryDoesNotChangeReply` | apk-server.py:20-29 | a query string or fragment never changes the reply |
| `Server.NothingToDownload` | apk-server.py:35-39 | with no directory, an unreadable one, or no `.apk` name, the download answers 404 "No APK file available" |
| `Server.NoApkLandingPage` | apk-server.py:120-155 | with nothing to offer, the landing page answers 200 with the "no APK" document, whatever the failure flag says |
| `Server.SingleApkIsLatest` | apk-server.py:168-186 | a directory with one `.apk` entry offers that entry |
| `Server.SingleApkDownload` | apk-server.py:41-55 | any download target for such a directory, with a Latin-1 file name, sends that file with the download headers |
| `Server.NonLatin1Download` | apk-server.py:41-61 | for a single file whose name is not Latin-1, the corrected download answers one 500 reply |
| `Server.DownloadOfLatest` | apk-server.py:24-55 | whenever the scan offers a file with a Latin-1 name, `/xiazai` sends it with the download headers |
| `Server.SampleIsLatest` | apk-server.py:168-186 | the scan of the directory holding only `app-v2.apk` returns that file |
| `Server.SampleNameLatin1` | apk-server.py:50 | `app-v2.apk` encodes as Latin-1 |
| `Server.SampleDownload` | apk-server.py:48-55 | for the directory holding only `app-v2.apk` the download is a 200 carrying that file |
| `Server.SampleDownloadHeaders` | apk-server.py:49-51 | the headers for `app-v2.apk` of 10485760 bytes carry `filename="app-v2.apk"` and `Content-Length: 10485760` |
| `Server.SingleApkLanding` | apk-server.py:66-114 | the landing page for such a directory describes that file, with its display timestamp |
| `Server.SampleSizeDecimal` | apk-server.py:51 | `str(10485760)` is `10485760` |
| `Server.SampleLanding` | apk-server.py:112-114 | the landing page for that directory shows `app-v2.apk`, its size and `2024-03-01 12:00:00` |

## Left out

- Sockets, `HTTPServer`, `serve_forever` and the `KeyboardInterrupt` shutdown (apk-server.py:203-227) are network and process plumbing.
- `os.listdir`, `os.stat`, `os.path.exists`, file reads and `wfile.write` are I/O. Their results are inputs: `Directory`, `fileExists` and `bodyFails`.
- `datetime.fromtimestamp(...).isoformat()` (apk-server.py:177) is a foreign time conversion. The ISO string is part of each entry; its failure is the entry's `statFails` flag.
- `size_mb = round(size / 1048576, 2)` (apk-server.py:178) is floating-point rounding. The landing page carries the byte size instead, and the download log line that prints it is not modelled.
- Logging setup and log calls (apk-server.py:16-18, 57, 60, 159, 189, 192-201) only have side effects.
- The HTML and CSS template text is not modelled byte for byte. The model records which page is chosen and which fields are interpolated.
- The headers and error page that `send_response` and `send_error` add on their own (Server, Date, Connection) are not modelled. So is the error body, which contains the message the model records.
- `send_header` is modelled only through its Latin-1 encoding failure. `end_headers` is assumed not to raise. HTTP/0.9 requests, which get no status line or headers, are not modelled.
- A failure of the connection itself is not modelled, so writing the file or the page is assumed to succeed. After such a failure, `send_error` would fail as well.
- The race between the scan, the existence check and the file read (apk-server.py:41-55) is left out. The model cannot see a file that changes size after the scan.
- `Routing.Route`: targets outside origin form are excluded by its precondition `OriginForm`. `urlparse` on its own reads a network location from a target starting with `//`. Whether such a target reaches `do_GET` unchanged depends on the Python version: releases that collapse a leading `//` to `/` in `parse_request` route `//xiazai` as `/xiazai`. An absolute-form target carries a scheme. Tab, CR and LF cannot occur in a target.
- `Handlers.HandleDownload` answers a file name outside Latin-1 with a single 500. It does not send the name in the `filename*` form of section 4.3 of RFC 6266, which would let such a file download; that would be a new feature, not a correction.
- Methods other than GET, which `BaseHTTPRequestHandler` answers 501, are not modelled.
- `Server.DoGet` uses the corrected handlers `HandleDownload` and `SendSimpleResponse`. The source's behaviour is `HandleDownloadAsWritten` and `SendSimpleResponseAsWritten`, which differ only on the failure paths described under "## Findings".

## Findings

| source | as written | input that shows it | evidently intended | confidence | as-written member | corrected member |
|---|---|---|---|---|---|---|
| apk-server.py:48-61 | `send_response(200)`, the three headers and `end_headers()` are written before the file is opened and read; an exception there leads to `send_error(500)` after the 200 header block | a selected file that exists but is unreadable (permissions) or vanishes before `open` | the client receives a 500 and no 200 header block promising the file | not executed; medium | `Handlers.DownloadFailureAfterHeaders` | `Handlers.HandleDownload` |
| apk-server.py:153-160 | `end_headers()` is written before the page is encoded; an encoding error leads to `send_error(500)` after the 200 header block | a file name holding surrogate-escaped bytes that UTF-8 cannot encode | the client receives a 500 and no second status line | not executed; medium | `Handlers.LandingFailureAfterHeaders` | `Handlers.SendSimpleResponse` |
| apk-server.py:48-50 | `send_response(200)` queues the status line and `send_header('Content-Type', ...)` queues a header line before `send_header('Content-Disposition', ...)` encodes the file name as Latin-1; for any other name it raises, and `send_error(500)` queues its reply behind the 200 status line and sends both | a newest `.apk` named `应用.apk` (any name with a character above U+00FF) | the client receives one reply, and does not get a 200 status line followed by a 500 | not executed; high | `Handlers.NonLatin1NameAfterStatusLine` | `Server.NonLatin1Download` |
