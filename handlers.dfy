/** The two request handlers of the APK server: `handle_download` (the raw
    package file) and `send_simple_response` (the HTML landing page).

    A handler's result is the sequence of replies it writes to the connection,
    in order. `BaseHTTPRequestHandler` sends a status line, header lines and the
    blank line (`send_response`, `send_header`, `end_headers`) before any body
    is written, and `send_error` writes a complete reply of its own. Both
    handlers in the source catch exceptions raised after their 200 status line
    was queued, so the source can write two replies on one connection. Those
    functions are the `...AsWritten` ones below; the functions without the suffix
    put the failing steps before the status line and always write one reply. */
module Handlers {
  import opened Text
  import opened Scanner

  datatype Header = Header(field: string, value: string)

  /** Which HTML document the landing page renders, with the fields it interpolates. */
  datatype Page = ArtifactPage(name: string, size: nat, updated: string) | NoApkPage

  datatype Body = FileContents(file: string) | Html(page: Page)

  /** One reply as it appears on the connection: a complete response, a status
      line with the header lines that went out before a failure (the reply is
      abandoned there), or a `send_error` reply. */
  datatype Reply =
    | Response(status: nat, headers: seq<Header>, body: Body)
    | HeadersOnly(status: nat, headers: seq<Header>)
    | Error(code: nat, message: string)

  function StatusOf(r: Reply): nat {
    match r
    case Response(status, _, _) => status
    case HeadersOnly(status, _) => status
    case Error(code, _) => code
  }

  /** The value of the first header named `field`. */
  function Lookup(hs: seq<Header>, field: string): (v: Option<string>)
    ensures v.Some? <==> exists i :: 0 <= i < |hs| && hs[i].field == field
    ensures v.Some? ==> exists i :: 0 <= i < |hs| && hs[i] == Header(field, v.value)
  {
    if hs == [] then None
    else if hs[0].field == field then Some(hs[0].value)
    else
      var v := Lookup(hs[1..], field);
      assert forall i :: 1 <= i < |hs| ==> hs[i] == hs[1..][i - 1];
      v
  }

  const ApkContentType := "application/vnd.android.package-archive"
  const HtmlContentType := "text/html; charset=utf-8"
  const DispositionPrefix := "attachment; filename=\""
  const NoApkMessage := "No APK file available"
  const MissingFileMessage := "APK file not found"
  const InternalErrorMessage := "Internal Server Error"

  /** The Content-Disposition value for a file name. The name is quoted as is. */
  function Disposition(name: string): string {
    DispositionPrefix + name + "\""
  }

  /** Reads the file name back out of a Content-Disposition value. */
  function DispositionFileName(value: string): Option<string> {
    if |value| > |DispositionPrefix| && value[..|DispositionPrefix|] == DispositionPrefix && value[|value| - 1] == '"'
    then Some(value[|DispositionPrefix|..|value| - 1])
    else None
  }

  lemma DispositionRoundTrip(name: string)
    ensures DispositionFileName(Disposition(name)) == Some(name)
  {
    var v := Disposition(name);
    assert v[..|DispositionPrefix|] == DispositionPrefix;
    assert v[|DispositionPrefix|..|v| - 1] == name;
  }

  /** `send_header` encodes the line `field: value` as Latin-1 and raises on
      any other character; the separator and line end are ASCII. */
  predicate Encodable(h: Header) {
    IsLatin1(h.field) && IsLatin1(h.value)
  }

  /** How many of `hs` are queued before a `send_header` call raises. */
  function EncodablePrefix(hs: seq<Header>): (n: nat)
    ensures n <= |hs|
    ensures forall i :: 0 <= i < n ==> Encodable(hs[i])
    ensures n < |hs| ==> !Encodable(hs[n])
  {
    if hs == [] || !Encodable(hs[0]) then 0 else 1 + EncodablePrefix(hs[1..])
  }

  /** The headers of a successful download, in the order they are sent. */
  function DownloadHeaders(apk: Apk): seq<Header> {
    [ Header("Content-Type", ApkContentType),
      Header("Content-Disposition", Disposition(apk.name)),
      Header("Content-Length", NatToDecimal(apk.size)) ]
  }

  /** A download is served as a package archive, as an attachment carrying the
      scanned file name, with a Content-Length that reads back as the scanned size. */
  lemma DownloadHeaderValues(apk: Apk)
    ensures Lookup(DownloadHeaders(apk), "Content-Type") == Some(ApkContentType)
    ensures var d := Lookup(DownloadHeaders(apk), "Content-Disposition");
      d.Some? && DispositionFileName(d.value) == Some(apk.name)
    ensures var len := Lookup(DownloadHeaders(apk), "Content-Length");
      len.Some? && IsDigits(len.value) && DecimalValue(len.value) == apk.size
  {
    var hs := DownloadHeaders(apk);
    assert Lookup(hs, "Content-Length") == Lookup(hs[1..], "Content-Length") == Lookup(hs[2..], "Content-Length") by {
      assert hs[1..][1..] == hs[2..];
    }
    DispositionRoundTrip(apk.name);
    DecimalRoundTrip(apk.size);
  }

  lemma EncodablePrefixCons(h: Header, t: seq<Header>)
    ensures EncodablePrefix([h] + t) == if Encodable(h) then 1 + EncodablePrefix(t) else 0
  {
    assert ([h] + t)[1..] == t;
  }

  // The fixed parts of the download headers are ASCII, one literal at a time.
  lemma ContentTypeFieldLatin1() ensures IsLatin1("Content-Type") {}
  lemma ApkContentTypeLatin1() ensures IsLatin1(ApkContentType) {}
  lemma DispositionFieldLatin1() ensures IsLatin1("Content-Disposition") {}
  lemma DispositionPrefixLatin1() ensures IsLatin1(DispositionPrefix) {}
  lemma QuoteLatin1() ensures IsLatin1("\"") {}
  lemma LengthFieldLatin1() ensures IsLatin1("Content-Length") {}

  lemma ContentTypeEncodable()
    ensures Encodable(Header("Content-Type", ApkContentType))
  {
    ContentTypeFieldLatin1();
    ApkContentTypeLatin1();
  }

  lemma ContentLengthEncodable(size: nat)
    ensures Encodable(Header("Content-Length", NatToDecimal(size)))
  {
    LengthFieldLatin1();
    DigitsAreLatin1(NatToDecimal(size));
  }

  /** The Content-Disposition line encodes exactly when the file name is Latin-1. */
  lemma DispositionEncodable(name: string)
    ensures Encodable(Header("Content-Disposition", Disposition(name))) <==> IsLatin1(name)
  {
    DispositionFieldLatin1();
    DispositionPrefixLatin1();
    QuoteLatin1();
    Latin1Concat(DispositionPrefix, name);
    Latin1Concat(DispositionPrefix + name, "\"");
  }

  /** The download headers fail to encode exactly when the file name is not
      Latin-1: the content type and the length are ASCII. */
  lemma DownloadHeadersEncodable(apk: Apk)
    ensures EncodablePrefix(DownloadHeaders(apk)) == if IsLatin1(apk.name) then 3 else 1
  {
    var h0, h1, h2 := DownloadHeaders(apk)[0], DownloadHeaders(apk)[1], DownloadHeaders(apk)[2];
    assert DownloadHeaders(apk) == [h0] + ([h1] + ([h2] + []));
    ContentTypeEncodable();
    DispositionEncodable(apk.name);
    ContentLengthEncodable(apk.size);
    EncodablePrefixCons(h2, []);
    EncodablePrefixCons(h1, [h2]);
    EncodablePrefixCons(h0, [h1] + [h2]);
  }

  /** `handle_download` as the source writes it. `latest` is what the scan
      returned, `fileExists` what `os.path.exists` says of the selected file at
      response time, and `bodyFails` that opening or reading the file raises;
      that happens after `end_headers` has sent the 200 header block. A header
      that does not encode raises inside `send_header`, after the status line
      and the earlier header lines were queued; `send_error` then queues its
      own reply behind them and sends everything. */
  function HandleDownloadAsWritten(latest: Option<Apk>, fileExists: bool, bodyFails: bool): seq<Reply> {
    match latest
    case None => [Error(404, NoApkMessage)]
    case Some(apk) =>
      var hs := DownloadHeaders(apk);
      var n := EncodablePrefix(hs);
      if !fileExists then [Error(404, MissingFileMessage)]
      else if n < |hs| then [HeadersOnly(200, hs[..n]), Error(500, InternalErrorMessage)]
      else if bodyFails then [HeadersOnly(200, hs), Error(500, InternalErrorMessage)]
      else [Response(200, hs, FileContents(apk.name))]
  }

  /** As written, a file that cannot be read after the checks reaches the client
      as a 200 header block promising the file, followed by a second, 500 reply. */
  lemma DownloadFailureAfterHeaders(apk: Apk)
    requires IsLatin1(apk.name)
    ensures var r := HandleDownloadAsWritten(Some(apk), true, true);
      |r| == 2 && StatusOf(r[0]) == 200 && r[0].headers == DownloadHeaders(apk) && StatusOf(r[1]) == 500
  {
    DownloadHeadersEncodable(apk);
  }

  /** As written, a file name outside Latin-1 reaches the client as a 200
      status line with only the Content-Type header, followed by a 500 reply,
      whether or not the file could be read. */
  lemma NonLatin1NameAfterStatusLine(apk: Apk, bodyFails: bool)
    requires !IsLatin1(apk.name)
    ensures HandleDownloadAsWritten(Some(apk), true, bodyFails) ==
      [HeadersOnly(200, [Header("Content-Type", ApkContentType)]), Error(500, InternalErrorMessage)]
  {
    DownloadHeadersEncodable(apk);
    assert DownloadHeaders(apk)[..1] == [Header("Content-Type", ApkContentType)];
  }

  /** A Chinese file name such as "应用.apk" is such a name. */
  lemma ChineseNameIsNotLatin1()
    ensures !IsLatin1("\U{5e94}\U{7528}.apk")
  {
    assert "\U{5e94}\U{7528}.apk"[0] as int == 0x5e94;
  }

  /** `handle_download` with the headers encoded and the file read before the
      status line is sent: one reply; 404 without an artifact or without its
      file, 500 when the file name is not Latin-1 or the file cannot be read,
      otherwise 200 with the download headers and the file. */
  function HandleDownload(latest: Option<Apk>, fileExists: bool, bodyFails: bool): (r: seq<Reply>)
    ensures |r| == 1
    ensures StatusOf(r[0]) == 404 <==> latest.None? || !fileExists
    ensures StatusOf(r[0]) == 500 <==>
      latest.Some? && fileExists && (bodyFails || !IsLatin1(latest.value.name))
    ensures StatusOf(r[0]) == 200 <==>
      latest.Some? && fileExists && !bodyFails && IsLatin1(latest.value.name)
    ensures StatusOf(r[0]) == 200 ==>
      r[0] == Response(200, DownloadHeaders(latest.value), FileContents(latest.value.name))
  {
    match latest
    case None => [Error(404, NoApkMessage)]
    case Some(apk) =>
      var hs := DownloadHeaders(apk);
      DownloadHeadersEncodable(apk);
      if !fileExists then [Error(404, MissingFileMessage)]
      else if EncodablePrefix(hs) < |hs| || bodyFails then [Error(500, InternalErrorMessage)]
      else [Response(200, hs, FileContents(apk.name))]
  }

  /** The two download handlers differ exactly when the file name does not
      encode or the file fails after the checks. */
  lemma DownloadHandlersAgree(latest: Option<Apk>, fileExists: bool, bodyFails: bool)
    ensures HandleDownloadAsWritten(latest, fileExists, bodyFails) == HandleDownload(latest, fileExists, bodyFails)
      <==> !(latest.Some? && fileExists && (bodyFails || !IsLatin1(latest.value.name)))
  {
    if latest.Some? {
      DownloadHeadersEncodable(latest.value);
    }
  }

  // ---------------------------------------------------------------------------
  // The landing page.

  /** `modified[:19].replace('T', ' ')`: the ISO string up to the seconds, with
      the date/time separator turned into a space. */
  function DisplayTime(modified: string): (r: string)
    ensures |r| == if |modified| < 19 then |modified| else 19
    ensures forall i :: 0 <= i < |r| ==> r[i] == (if modified[i] == 'T' then ' ' else modified[i])
    ensures 'T' !in r
  {
    ReplaceChar(Take(modified, 19), 'T', ' ')
  }

  /** For an ISO string `YYYY-MM-DDTHH:MM:SS` followed by anything (fractional
      seconds, an offset), the display form is `YYYY-MM-DD HH:MM:SS`. */
  lemma DisplayTimeOfIso(date: string, time: string, rest: string)
    requires |date| == 10 && |time| == 8 && 'T' !in date && 'T' !in time
    ensures DisplayTime(date + "T" + time + rest) == date + " " + time
  {
    var m := date + "T" + time + rest;
    var r, want := DisplayTime(m), date + " " + time;
    forall i | 0 <= i < 19 ensures r[i] == want[i] {
      if i < 10 {
        assert m[i] == date[i] && want[i] == date[i];
      } else if 10 < i {
        assert m[i] == time[i - 11] && want[i] == time[i - 11];
      }
    }
  }

  lemma DisplayTimeExamples()
    ensures DisplayTime("2024-03-01T12:00:00") == "2024-03-01 12:00:00"
    ensures DisplayTime("2024-03-01T12:00:00.250000") == "2024-03-01 12:00:00"
  {
    var date, time := "2024-03-01", "12:00:00";
    assert date + "T" + time + "" == "2024-03-01T12:00:00";
    assert date + "T" + time + ".250000" == "2024-03-01T12:00:00.250000";
    assert date + " " + time == "2024-03-01 12:00:00";
    DisplayTimeOfIso(date, time, "");
    DisplayTimeOfIso(date, time, ".250000");
  }

  /** The document the landing page renders for a scan result. */
  function LandingPage(latest: Option<Apk>): Page {
    match latest
    case Some(apk) => ArtifactPage(apk.name, apk.size, DisplayTime(apk.modified))
    case None => NoApkPage
  }

  const LandingHeaders := [Header("Content-type", HtmlContentType)]

  /** `send_simple_response` as the source writes it. `bodyFails` says that
      encoding the artifact page as UTF-8 raises (a name `os.listdir` decoded
      with surrogate escapes); that happens after `end_headers` has sent the
      200 header block. The "no APK" page is a fixed text and always encodes,
      and the one header is ASCII. */
  function SendSimpleResponseAsWritten(latest: Option<Apk>, bodyFails: bool): seq<Reply> {
    if bodyFails && latest.Some? then [HeadersOnly(200, LandingHeaders), Error(500, InternalErrorMessage)]
    else [Response(200, LandingHeaders, Html(LandingPage(latest)))]
  }

  /** As written, an artifact page that cannot be encoded reaches the client
      as a 200 header block followed by a second, 500 reply. */
  lemma LandingFailureAfterHeaders(latest: Option<Apk>)
    requires latest.Some?
    ensures var r := SendSimpleResponseAsWritten(latest, true);
      |r| == 2 && StatusOf(r[0]) == 200 && StatusOf(r[1]) == 500
  {
  }

  /** `send_simple_response` with the page encoded before the status line is
      sent: one reply; 500 when the artifact page fails to encode, otherwise
      200 with an HTML content type and the artifact page exactly when the scan
      found an artifact. Without an artifact the answer is always 200. */
  function SendSimpleResponse(latest: Option<Apk>, bodyFails: bool): (r: seq<Reply>)
    ensures |r| == 1
    ensures StatusOf(r[0]) == (if bodyFails && latest.Some? then 500 else 200)
    ensures latest.None? ==> r[0] == Response(200, LandingHeaders, Html(NoApkPage))
    ensures !bodyFails ==> r[0].Response? && Lookup(r[0].headers, "Content-type") == Some(HtmlContentType)
    ensures !bodyFails ==> r[0].body.Html? && (r[0].body.page.ArtifactPage? <==> latest.Some?)
    ensures !bodyFails && latest.Some? ==>
      var page := r[0].body.page;
      page.name == latest.value.name && page.size == latest.value.size &&
      page.updated == DisplayTime(latest.value.modified)
  {
    if bodyFails && latest.Some? then [Error(500, InternalErrorMessage)]
    else [Response(200, LandingHeaders, Html(LandingPage(latest)))]
  }

  /** The two landing handlers differ exactly when the artifact page fails. */
  lemma LandingHandlersAgree(latest: Option<Apk>, bodyFails: bool)
    ensures SendSimpleResponseAsWritten(latest, bodyFails) == SendSimpleResponse(latest, bodyFails)
      <==> !(bodyFails && latest.Some?)
  {
  }
}
