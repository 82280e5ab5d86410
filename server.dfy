/** One GET request end to end (`SimpleAPKHandler.do_GET`): route the target,
    scan the artifact directory when a handler needs it, and answer. The
    filesystem is an input: `dir` is the directory at scan time, `fileExists`
    whether the selected file still exists when the handler checks, and
    `bodyFails` whether producing the body raises. */
module Server {
  import opened Text
  import opened Scanner
  import opened Routing
  import opened Handlers

  const NotFoundMessage := "Not Found"

  /** Every request is answered with exactly one reply, whose status is 200, 404 or 500. */
  function DoGet(target: string, dir: Directory, fileExists: bool, bodyFails: bool): (r: seq<Reply>)
    requires OriginForm(target)
    ensures |r| == 1
    ensures StatusOf(r[0]) == 200 || StatusOf(r[0]) == 404 || StatusOf(r[0]) == 500
  {
    match Route(target)
    case Download => HandleDownload(Latest(dir), fileExists, bodyFails)
    case Landing => SendSimpleResponse(Latest(dir), bodyFails)
    case NotFound => [Error(404, NotFoundMessage)]
  }

  /** Any target outside "/xiazai" and "/" gets 404, whatever the directory holds. */
  lemma OtherPathsNotFound(target: string, dir: Directory, fileExists: bool, bodyFails: bool)
    requires OriginForm(target)
    requires !TargetOfPath(target, DownloadPath) && !TargetOfPath(target, LandingPath)
    ensures DoGet(target, dir, fileExists, bodyFails) == [Error(404, NotFoundMessage)]
  {
    RouteNotFound(target);
  }

  /** Appending a query string or fragment to a target changes nothing in the answer. */
  lemma QueryDoesNotChangeReply(p: string, sep: char, q: string, dir: Directory, fileExists: bool, bodyFails: bool)
    requires OriginForm(p) && OriginForm(p + [sep] + q)
    requires EndsPath(sep) && forall i :: 0 <= i < |p| ==> !EndsPath(p[i])
    ensures DoGet(p + [sep] + q, dir, fileExists, bodyFails) == DoGet(p, dir, fileExists, bodyFails)
  {
    QueryIgnored(p, sep, q);
  }

  /** With no package to offer (no directory, an unreadable one, or no ".apk"
      name in it) the download answers 404 rather than failing. */
  lemma NothingToDownload(dir: Directory, fileExists: bool, bodyFails: bool)
    requires !dir.Listed? || forall i :: 0 <= i < |dir.entries| ==> !IsApkName(dir.entries[i].name)
    ensures DoGet(DownloadPath, dir, fileExists, bodyFails) == [Error(404, NoApkMessage)]
  {
    LatestIsNone(dir);
    RouteDownload(DownloadPath);
  }

  /** With no package to offer the landing page answers 200 with the "no APK"
      document; that fixed text cannot fail to encode. */
  lemma NoApkLandingPage(dir: Directory, fileExists: bool, bodyFails: bool)
    requires !dir.Listed? || forall i :: 0 <= i < |dir.entries| ==> !IsApkName(dir.entries[i].name)
    ensures DoGet(LandingPath, dir, fileExists, bodyFails) == [Response(200, LandingHeaders, Html(NoApkPage))]
  {
    LatestIsNone(dir);
    RouteLanding(LandingPath);
  }

  /** A directory whose one entry is an ".apk" file offers that file. */
  lemma SingleApkIsLatest(name: string, size: nat, modified: string)
    requires IsApkName(name)
    ensures Latest(Listed([DirEntry(name, size, modified, false)])) == Some(Apk(name, size, modified))
  {
    LessIrreflexive(modified);
    LatestIsFirstInListing([DirEntry(name, size, modified, false)], 0);
  }

  /** The directory holding only "app-v2.apk" (10485760 bytes, modified
      2024-03-01T12:00:00). */
  const SampleApk := Apk("app-v2.apk", 10485760, "2024-03-01T12:00:00")
  const SampleDir := Listed([DirEntry(SampleApk.name, SampleApk.size, SampleApk.modified, false)])

  /** Downloading from a directory with one ".apk" entry whose name is
      Latin-1 sends that file with the download headers. */
  lemma SingleApkDownload(target: string, name: string, size: nat, modified: string)
    requires OriginForm(target) && Route(target) == Download
    requires IsApkName(name) && IsLatin1(name)
    ensures DoGet(target, Listed([DirEntry(name, size, modified, false)]), true, false) ==
      [Response(200, DownloadHeaders(Apk(name, size, modified)), FileContents(name))]
  {
    SingleApkIsLatest(name, size, modified);
  }

  /** When that one entry's name is not Latin-1, the download answers a single
      500 rather than a file. */
  lemma NonLatin1Download(target: string, name: string, size: nat, modified: string, bodyFails: bool)
    requires OriginForm(target) && Route(target) == Download
    requires IsApkName(name) && !IsLatin1(name)
    ensures DoGet(target, Listed([DirEntry(name, size, modified, false)]), true, bodyFails) ==
      [Error(500, InternalErrorMessage)]
  {
    SingleApkIsLatest(name, size, modified);
  }

  /** The scan of the sample directory offers the sample file. */
  lemma SampleIsLatest()
    ensures Latest(SampleDir) == Some(SampleApk)
  {
    assert IsApkName(SampleApk.name);
    SingleApkIsLatest(SampleApk.name, SampleApk.size, SampleApk.modified);
  }

  /** A scan that offers a file with a Latin-1 name makes "/xiazai" send it. */
  lemma DownloadOfLatest(dir: Directory, apk: Apk)
    requires Latest(dir) == Some(apk) && IsLatin1(apk.name)
    ensures DoGet(DownloadPath, dir, true, false) ==
      [Response(200, DownloadHeaders(apk), FileContents(apk.name))]
  {
    DownloadExample();
  }

  lemma SampleNameLatin1()
    ensures IsLatin1(SampleApk.name)
  {
  }

  /** Downloading from the sample directory sends the sample file. */
  lemma SampleDownload()
    ensures DoGet(DownloadPath, SampleDir, true, false) ==
      [Response(200, DownloadHeaders(SampleApk), FileContents("app-v2.apk"))]
  {
    SampleIsLatest();
    SampleNameLatin1();
    DownloadOfLatest(SampleDir, SampleApk);
  }

  /** `str(10485760)`, digit by digit. */
  lemma SampleSizeDecimal()
    ensures NatToDecimal(10485760) == "10485760"
  {
    assert NatToDecimal(10) == "10";
    assert NatToDecimal(104) == "104";
    assert NatToDecimal(1048) == "1048";
    assert NatToDecimal(10485) == "10485";
    assert NatToDecimal(104857) == "104857";
    assert NatToDecimal(1048576) == "1048576";
  }

  /** The sample file is sent with its name and its size in bytes. */
  lemma SampleDownloadHeaders()
    ensures DownloadHeaders(SampleApk) == [
      Header("Content-Type", "application/vnd.android.package-archive"),
      Header("Content-Disposition", "attachment; filename=\"app-v2.apk\""),
      Header("Content-Length", "10485760")]
  {
    assert Disposition("app-v2.apk") == "attachment; filename=\"app-v2.apk\"";
    SampleSizeDecimal();
  }

  /** The landing page for a directory with one ".apk" entry describes that file. */
  lemma SingleApkLanding(name: string, size: nat, modified: string)
    requires IsApkName(name)
    ensures DoGet(LandingPath, Listed([DirEntry(name, size, modified, false)]), true, false) ==
      [Response(200, LandingHeaders, Html(ArtifactPage(name, size, DisplayTime(modified))))]
  {
    var dir := Listed([DirEntry(name, size, modified, false)]);
    SingleApkIsLatest(name, size, modified);
    LandingExamples();
    assert DoGet(LandingPath, dir, true, false) == SendSimpleResponse(Latest(dir), false);
  }

  /** The landing page for the sample directory shows the name, the size and
      "2024-03-01 12:00:00". */
  lemma SampleLanding()
    ensures DoGet(LandingPath, SampleDir, true, false) ==
      [Response(200, LandingHeaders, Html(ArtifactPage("app-v2.apk", 10485760, "2024-03-01 12:00:00")))]
  {
    assert IsApkName(SampleApk.name);
    SingleApkLanding(SampleApk.name, SampleApk.size, SampleApk.modified);
    DisplayTimeExamples();
  }
}
