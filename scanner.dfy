/** The directory scan of the APK download server (`get_latest_apk`): keep the
    children of the artifact directory whose name ends in ".apk", sort them by
    their ISO-format modification string, newest first, and take the first. */
module Scanner {
  import opened Text

  datatype Option<T> = None | Some(value: T)

  /** One child of the artifact directory as `os.listdir` and `os.stat` report it.
      `modified` is the ISO-format string of the modification time; `statFails`
      says that `os.stat` (or the time conversion) raises for this entry. */
  datatype DirEntry = DirEntry(name: string, size: nat, modified: string, statFails: bool)

  /** The artifact directory at scan time: absent (`os.path.exists` is false),
      present but `os.listdir` raises, or listed in enumeration order. */
  datatype Directory = Missing | Unlistable | Listed(entries: seq<DirEntry>)

  /** The record the scan builds for one package file (the `size_mb` display
      field is not modelled). */
  datatype Apk = Apk(name: string, size: nat, modified: string)

  const ApkSuffix := ".apk"

  predicate IsApkName(name: string) {
    EndsWith(name, ApkSuffix)
  }

  function ToApk(e: DirEntry): Apk {
    Apk(e.name, e.size, e.modified)
  }

  /** The list `apk_files` that the scanning loop builds: one record per entry
      with an ".apk" name, in listing order. */
  function ApkRecords(es: seq<DirEntry>): seq<Apk> {
    if es == [] then []
    else
      var last := es[|es| - 1];
      ApkRecords(es[..|es| - 1]) + (if IsApkName(last.name) then [ToApk(last)] else [])
  }

  /** Some entry the loop has to stat raises. */
  predicate StatFails(es: seq<DirEntry>) {
    exists i :: 0 <= i < |es| && IsApkName(es[i].name) && es[i].statFails
  }

  // ---------------------------------------------------------------------------
  // `list.sort(key=lambda x: x['modified'], reverse=True)`: a stable sort into
  // non-increasing order of `modified`, where entries with equal keys keep their
  // original relative order.

  /** Inserts `x` (which came later in the original list than every element of
      `t`) behind every element whose key is not smaller than its own. */
  function InsertByModified(x: Apk, t: seq<Apk>): (r: seq<Apk>)
    ensures multiset(r) == multiset(t) + multiset{x}
    ensures |r| == |t| + 1
  {
    if t == [] then [x]
    else if Less(t[0].modified, x.modified) then [x] + t
    else
      assert t == [t[0]] + t[1..];
      [t[0]] + InsertByModified(x, t[1..])
  }

  function SortByModified(s: seq<Apk>): (r: seq<Apk>)
    ensures multiset(r) == multiset(s)
    ensures |r| == |s|
  {
    if s == [] then []
    else
      assert s == s[..|s| - 1] + [s[|s| - 1]];
      InsertByModified(s[|s| - 1], SortByModified(s[..|s| - 1]))
  }

  predicate DescendingByModified(s: seq<Apk>) {
    forall i, j :: 0 <= i < j < |s| ==> LessEq(s[j].modified, s[i].modified)
  }

  lemma {:induction false} InsertKeepsDescending(x: Apk, t: seq<Apk>)
    requires DescendingByModified(t)
    ensures DescendingByModified(InsertByModified(x, t))
  {
    if t == [] {
    } else if Less(t[0].modified, x.modified) {
      forall j | 0 <= j < |t| ensures LessEq(t[j].modified, x.modified) {
        if j == 0 {
          LessAsymmetric(t[0].modified, x.modified);
        } else {
          LessEqLessTransitive(t[j].modified, t[0].modified, x.modified);
          LessAsymmetric(t[j].modified, x.modified);
        }
      }
    } else {
      var rest := InsertByModified(x, t[1..]);
      assert DescendingByModified(t[1..]);
      InsertKeepsDescending(x, t[1..]);
      forall j | 0 <= j < |rest| ensures LessEq(rest[j].modified, t[0].modified) {
        assert rest[j] in multiset(rest);
        if rest[j] != x {
          assert rest[j] in multiset(t[1..]);
          var k :| 0 <= k < |t[1..]| && t[1..][k] == rest[j];
          assert t[k + 1] == rest[j];
        }
      }
    }
  }

  /** The sort model returns its input rearranged into non-increasing order. */
  lemma {:induction false} SortIsDescendingPermutation(s: seq<Apk>)
    ensures DescendingByModified(SortByModified(s))
    ensures multiset(SortByModified(s)) == multiset(s)
  {
    if s != [] {
      SortIsDescendingPermutation(s[..|s| - 1]);
      InsertKeepsDescending(s[|s| - 1], SortByModified(s[..|s| - 1]));
    }
  }

  /** Appending one record changes the head of the sorted list only when the new
      record's key is strictly greater (this is where stability shows). */
  lemma SortHeadStep(s: seq<Apk>, x: Apk)
    requires s != []
    ensures var h := SortByModified(s)[0];
      SortByModified(s + [x])[0] == if Less(h.modified, x.modified) then x else h
  {
    assert (s + [x])[..|s|] == s;
  }

  /** `k` is the first position holding a greatest key. */
  predicate IsFirstLatest(apks: seq<Apk>, k: int) {
    && 0 <= k < |apks|
    && (forall j :: 0 <= j < |apks| ==> LessEq(apks[j].modified, apks[k].modified))
    && (forall j :: 0 <= j < k ==> Less(apks[j].modified, apks[k].modified))
  }

  lemma {:induction false} FirstLatestExists(apks: seq<Apk>) returns (k: int)
    requires apks != []
    ensures IsFirstLatest(apks, k)
  {
    var n := |apks|;
    if n == 1 {
      k := 0;
      LessIrreflexive(apks[0].modified);
    } else {
      var p, x := apks[..n - 1], apks[n - 1];
      var k' := FirstLatestExists(p);
      if Less(p[k'].modified, x.modified) {
        k := n - 1;
        forall j | 0 <= j < n - 1 ensures Less(apks[j].modified, x.modified) {
          LessEqLessTransitive(p[j].modified, p[k'].modified, x.modified);
        }
        forall j | 0 <= j < n ensures LessEq(apks[j].modified, x.modified) {
          if j < n - 1 {
            LessAsymmetric(apks[j].modified, x.modified);
          } else {
            LessIrreflexive(x.modified);
          }
        }
      } else {
        k := k';
      }
    }
  }

  /** The head of a sorted non-empty list is one of its records. */
  lemma SortHeadIn(s: seq<Apk>) returns (j: int)
    requires s != []
    ensures 0 <= j < |s| && s[j] == SortByModified(s)[0]
  {
    assert SortByModified(s)[0] in multiset(SortByModified(s));
    j :| 0 <= j < |s| && s[j] == SortByModified(s)[0];
  }

  /** A first greatest position before the last one is also first and greatest
      in the list without its last record. */
  lemma FirstLatestInPrefix(apks: seq<Apk>, k: int)
    requires IsFirstLatest(apks, k) && k < |apks| - 1
    ensures IsFirstLatest(apks[..|apks| - 1], k)
  {
  }

  /** The head of the stable descending sort is the first record with the
      greatest key. */
  lemma {:induction false} SortHeadIsFirstLatest(apks: seq<Apk>, k: int)
    requires IsFirstLatest(apks, k)
    ensures SortByModified(apks)[0] == apks[k]
  {
    var n := |apks|;
    if n == 1 {
      assert apks[..0] == [];
    } else {
      var p, x := apks[..n - 1], apks[n - 1];
      assert apks == p + [x];
      SortHeadStep(p, x);
      if k == n - 1 {
        var j := SortHeadIn(p);
        assert apks[j] == p[j];
      } else {
        FirstLatestInPrefix(apks, k);
        SortHeadIsFirstLatest(p, k);
      }
    }
  }

  /** `apk_files[0]` after the sort, or None for an empty list. */
  function LatestOf(apks: seq<Apk>): Option<Apk> {
    if apks == [] then None else Some(SortByModified(apks)[0])
  }

  /** LatestOf is None exactly for an empty list and otherwise picks the first
      record with the greatest `modified` string. */
  lemma LatestOfIsFirstLatest(apks: seq<Apk>)
    ensures LatestOf(apks) == None <==> apks == []
    ensures apks != [] ==> exists k :: IsFirstLatest(apks, k) && LatestOf(apks) == Some(apks[k])
  {
    if apks != [] {
      var k := FirstLatestExists(apks);
      SortHeadIsFirstLatest(apks, k);
    }
  }

  /** What `get_latest_apk` returns for a directory. */
  function Latest(dir: Directory): Option<Apk> {
    match dir
    case Missing => None
    case Unlistable => None
    case Listed(es) => if StatFails(es) then None else LatestOf(ApkRecords(es))
  }

  /** `get_latest_apk`: builds `apk_files` entry by entry, then sorts it and
      takes the head. Every exception of the scan becomes None. */
  method GetLatestApk(dir: Directory) returns (latest: Option<Apk>)
    ensures latest == Latest(dir)
  {
    if dir.Missing? || dir.Unlistable? {
      return None;
    }
    var entries := dir.entries;
    var apkFiles: seq<Apk> := [];
    var i := 0;
    while i < |entries|
      invariant 0 <= i <= |entries|
      invariant apkFiles == ApkRecords(entries[..i])
      invariant !StatFails(entries[..i])
    {
      var e := entries[i];
      assert entries[..i + 1][..i] == entries[..i];
      if IsApkName(e.name) {
        if e.statFails {
          assert IsApkName(entries[i].name) && entries[i].statFails;
          return None;
        }
        apkFiles := apkFiles + [ToApk(e)];
      }
      i := i + 1;
    }
    assert entries[..i] == entries;
    if apkFiles == [] {
      return None;
    }
    var sorted := SortByModified(apkFiles);
    latest := Some(sorted[0]);
  }

  // ---------------------------------------------------------------------------
  // Properties stated on the directory listing itself.

  /** Every record comes from an ".apk" entry, and every ".apk" entry has a record. */
  lemma {:induction false} ApkRecordsFromEntries(es: seq<DirEntry>)
    ensures forall a :: a in ApkRecords(es) ==>
      exists i :: 0 <= i < |es| && IsApkName(es[i].name) && ToApk(es[i]) == a
    ensures forall i :: 0 <= i < |es| && IsApkName(es[i].name) ==> ToApk(es[i]) in ApkRecords(es)
  {
    if es != [] {
      var p := es[..|es| - 1];
      ApkRecordsFromEntries(p);
      forall a | a in ApkRecords(es)
        ensures exists i :: 0 <= i < |es| && IsApkName(es[i].name) && ToApk(es[i]) == a
      {
        if a in ApkRecords(p) {
          var i :| 0 <= i < |p| && IsApkName(p[i].name) && ToApk(p[i]) == a;
          assert es[i] == p[i];
        } else {
          assert ToApk(es[|es| - 1]) == a;
        }
      }
      forall i | 0 <= i < |es| && IsApkName(es[i].name) ensures ToApk(es[i]) in ApkRecords(es) {
        if i < |es| - 1 {
          assert es[i] == p[i];
        }
      }
    }
  }

  /** The records of a prefix of the listing are a prefix of the records. */
  lemma {:induction false} ApkRecordsPrefix(es: seq<DirEntry>, i: nat)
    requires i <= |es|
    ensures ApkRecords(es[..i]) <= ApkRecords(es)
    decreases |es| - i
  {
    if i == |es| {
      assert es[..i] == es;
    } else {
      ApkRecordsPrefix(es, i + 1);
      assert es[..i + 1][..i] == es[..i];
      var a, b, c := ApkRecords(es[..i]), ApkRecords(es[..i + 1]), ApkRecords(es);
      assert a <= b;
      assert b == c[..|b|];
      assert a == b[..|a|] == c[..|a|];
    }
  }

  /** `get_latest_apk` returns None exactly when the directory is missing or
      unlistable, some ".apk" entry cannot be stat'ed, or no name ends in ".apk". */
  lemma LatestIsNone(dir: Directory)
    ensures Latest(dir) == None <==>
      || !dir.Listed?
      || StatFails(dir.entries)
      || forall i :: 0 <= i < |dir.entries| ==> !IsApkName(dir.entries[i].name)
  {
    if dir.Listed? {
      var es := dir.entries;
      ApkRecordsFromEntries(es);
      LatestOfIsFirstLatest(ApkRecords(es));
      if ApkRecords(es) != [] {
        var a := ApkRecords(es)[0];
        assert a in ApkRecords(es);
      }
    }
  }

  /** A selected artifact is the record of an ".apk" entry of the listing whose
      `modified` string is at least that of every ".apk" entry. */
  lemma LatestIsNewestApk(dir: Directory)
    requires Latest(dir).Some?
    ensures dir.Listed? && !StatFails(dir.entries)
    ensures IsApkName(Latest(dir).value.name)
    ensures exists i :: 0 <= i < |dir.entries| && IsApkName(dir.entries[i].name) && ToApk(dir.entries[i]) == Latest(dir).value
    ensures forall i :: 0 <= i < |dir.entries| && IsApkName(dir.entries[i].name) ==>
      LessEq(dir.entries[i].modified, Latest(dir).value.modified)
  {
    var es := dir.entries;
    var apks := ApkRecords(es);
    ApkRecordsFromEntries(es);
    LatestOfIsFirstLatest(apks);
    var k :| IsFirstLatest(apks, k) && LatestOf(apks) == Some(apks[k]);
    assert apks[k] in apks;
    forall i | 0 <= i < |es| && IsApkName(es[i].name) ensures LessEq(es[i].modified, apks[k].modified) {
      assert ToApk(es[i]) in apks;
      var j :| 0 <= j < |apks| && apks[j] == ToApk(es[i]);
    }
  }

  /** Tie-break: when the ".apk" entry at position `i` has a greatest `modified`
      string and every earlier ".apk" entry a strictly smaller one, it is the
      entry selected, whatever later entries share its key. */
  lemma LatestIsFirstInListing(es: seq<DirEntry>, i: int)
    requires !StatFails(es)
    requires 0 <= i < |es| && IsApkName(es[i].name)
    requires forall j :: 0 <= j < |es| && IsApkName(es[j].name) ==> LessEq(es[j].modified, es[i].modified)
    requires forall j :: 0 <= j < i && IsApkName(es[j].name) ==> Less(es[j].modified, es[i].modified)
    ensures Latest(Listed(es)) == Some(ToApk(es[i]))
  {
    var apks := ApkRecords(es);
    var before := ApkRecords(es[..i]);
    var k := |before|;
    ApkRecordsPrefix(es, i + 1);
    assert es[..i + 1][..i] == es[..i];
    assert ApkRecords(es[..i + 1]) == before + [ToApk(es[i])];
    assert apks[k] == ToApk(es[i]);
    ApkRecordsFromEntries(es);
    ApkRecordsFromEntries(es[..i]);
    forall j | 0 <= j < |apks| ensures LessEq(apks[j].modified, apks[k].modified) {
      assert apks[j] in apks;
    }
    forall j | 0 <= j < k ensures Less(apks[j].modified, apks[k].modified) {
      assert apks[j] == before[j];
      assert before[j] in before;
      var j' :| 0 <= j' < i && IsApkName(es[..i][j'].name) && ToApk(es[..i][j']) == before[j];
      assert es[j'] == es[..i][j'];
    }
    assert IsFirstLatest(apks, k);
    SortHeadIsFirstLatest(apks, k);
  }

  /** The suffix test is exact and case-sensitive. */
  lemma SuffixTestExamples()
    ensures IsApkName("app-v2.apk") && IsApkName(".apk")
    ensures !IsApkName("app-v2.APK") && !IsApkName("app-v2.apk.bak") && !IsApkName("apk")
  {
  }
}
