/**
 * ExportAndroidFiles and ExportiOSFiles: extract the locale buckets, then for
 * every bucket in order make sure its folder exists and serialize the bucket
 * into `strings.xml` inside it.
 *
 * The file system is a parameter: the folders whose creation throws and the
 * files whose write throws. A folder that cannot be created aborts the rest of
 * the export (the exception is not caught); a file that cannot be written is
 * caught inside the serializer, and the export goes on with the next locale.
 */
module Export {
  import opened Wrappers
  import opened Catalog
  import opened Buckets
  import opened Extraction
  import opened Serializers

  datatype Platform = Android | Ios

  /** The file name both exporters write in every locale folder. */
  const FileName: string := "strings.xml"

  /** Path.Combine of a directory and a relative name, with "/" as the separator. */
  function Combine(dir: string, name: string): string
  {
    dir + "/" + name
  }

  /** The folder of a locale: `values` / `values-<code>` on Android, `Base.lproj` / `<code>.lproj` on iOS. */
  function Folder(platform: Platform, code: string): string
  {
    match platform
    case Android => if code == Neutral then "values" else "values-" + code
    case Ios => if code == Neutral then "Base.lproj" else code + ".lproj"
  }

  function FolderPath(platform: Platform, dir: string, code: string): string
  {
    Combine(dir, Folder(platform, code))
  }

  function FilePath(platform: Platform, dir: string, code: string): string
  {
    Combine(FolderPath(platform, dir, code), FileName)
  }

  /** A combined path is the directory, one separator, then the name. */
  lemma CombineShape(dir: string, name: string)
    ensures var path := Combine(dir, name);
      && |path| == |dir| + 1 + |name|
      && path[..|dir|] == dir && path[|dir|] == '/' && path[|dir| + 1..] == name
  {
  }

  /** Android folders are `values` plus `-<code>` for a culture; iOS folders are `<code>` or `Base`, then `.lproj`. */
  lemma FolderShape(platform: Platform, code: string)
    ensures var f := Folder(platform, code);
      platform == Android ==>
        && |f| >= 6 && f[..6] == "values"
        && (code == Neutral <==> |f| == 6)
        && (code != Neutral ==> f[6] == '-' && f[7..] == code)
    ensures var f := Folder(platform, code);
      platform == Ios ==>
        && |f| >= 6 && f[|f| - 6..] == ".lproj"
        && f[..|f| - 6] == if code == Neutral then "Base" else code
  {
  }

  /** A locale's file sits directly in its folder under the export directory. */
  lemma FilePathShape(platform: Platform, dir: string, code: string)
    ensures var folder := FolderPath(platform, dir, code);
      var path := FilePath(platform, dir, code);
      && |path| == |folder| + 1 + |FileName|
      && path[..|folder|] == folder && path[|folder| + 1..] == FileName
  {
  }

  /** The file system as the export meets it: folders whose creation throws, files whose write throws. */
  datatype Env = Env(blockedFolders: set<string>, failingFiles: set<string>)

  /** Why an export stopped early: the extraction threw, or a folder could not be created. */
  datatype Abort = ExtractionFailed(error: ExtractError) | FolderCreationFailed(folder: string)

  /** What an export did: its write attempts in order, and the exception that ended it, if any. */
  datatype Report = Report(attempts: seq<Attempt>, abort: Option<Abort>)

  /** What the platform's serializer writes for a bucket. */
  function Render(platform: Platform, pairs: seq<Pair>): Content
  {
    match platform
    case Android => Xml(AndroidDocument(pairs))
    case Ios => Text(IosText(pairs))
  }

  function AttemptFor(platform: Platform, dir: string, b: Bucket, env: Env): Attempt
  {
    var path := FilePath(platform, dir, b.code);
    Attempt(path, Render(platform, b.pairs), path !in env.failingFiles)
  }

  predicate Blocked(platform: Platform, dir: string, b: Bucket, env: Env)
  {
    FolderPath(platform, dir, b.code) in env.blockedFolders
  }

  /** The export of the buckets, one locale after the other. */
  function ExportOf(platform: Platform, d: seq<Bucket>, dir: string, env: Env): Report
  {
    if d == [] then Report([], None)
    else if Blocked(platform, dir, d[0], env) then
      Report([], Some(FolderCreationFailed(FolderPath(platform, dir, d[0].code))))
    else
      var rest := ExportOf(platform, d[1..], dir, env);
      Report([AttemptFor(platform, dir, d[0], env)] + rest.attempts, rest.abort)
  }

  /** The export of a catalog: nothing is written when the extraction throws. */
  function ExportReport(platform: Platform, cat: ResourceCatalog, dir: string, env: Env): Report
  {
    var data := Extract(cat);
    if data.Err? then Report([], Some(ExtractionFailed(data.error)))
    else ExportOf(platform, data.value, dir, env)
  }

  function Prepend(attempts: seq<Attempt>, r: Report): Report
  {
    Report(attempts + r.attempts, r.abort)
  }

  lemma ExportOfCons(platform: Platform, d: seq<Bucket>, i: nat, dir: string, env: Env)
    requires i < |d| && !Blocked(platform, dir, d[i], env)
    ensures ExportOf(platform, d[i..], dir, env)
      == Prepend([AttemptFor(platform, dir, d[i], env)], ExportOf(platform, d[i + 1..], dir, env))
  {
    assert d[i..][1..] == d[i + 1..];
  }

  lemma PrependSnoc(attempts: seq<Attempt>, a: Attempt, r: Report)
    ensures Prepend(attempts + [a], r) == Prepend(attempts, Prepend([a], r))
  {
    assert attempts + [a] + r.attempts == attempts + ([a] + r.attempts);
  }

  /** One more locale exported: the attempts so far, then this locale's attempt, then the rest. */
  lemma ExportOfStep(platform: Platform, d: seq<Bucket>, i: nat, dir: string, env: Env, attempts: seq<Attempt>)
    requires i < |d| && !Blocked(platform, dir, d[i], env)
    ensures Prepend(attempts, ExportOf(platform, d[i..], dir, env))
      == Prepend(attempts + [AttemptFor(platform, dir, d[i], env)], ExportOf(platform, d[i + 1..], dir, env))
  {
    ExportOfCons(platform, d, i, dir, env);
    PrependSnoc(attempts, AttemptFor(platform, dir, d[i], env), ExportOf(platform, d[i + 1..], dir, env));
  }

  lemma ExportOfBlocked(platform: Platform, d: seq<Bucket>, i: nat, dir: string, env: Env)
    requires i < |d| && Blocked(platform, dir, d[i], env)
    ensures ExportOf(platform, d[i..], dir, env) == Report([], Some(FolderCreationFailed(FolderPath(platform, dir, d[i].code))))
  {
  }

  lemma AndroidFolderOfLocale(code: string, destFolder: string)
    requires code != Neutral && destFolder == "values" + "-" + code
    ensures destFolder == Folder(Android, code)
  {
  }

  /**
   * The loop of ExportAndroidFiles: for every bucket, the folder `values` or
   * `values-<code>` is created when missing (a failure propagates), and the
   * bucket is serialized into its `strings.xml`.
   */
  method WriteAndroidLocales(buckets: seq<Bucket>, directoryPath: string, env: Env) returns (r: Report)
    ensures r == ExportOf(Android, buckets, directoryPath, env)
  {
    var attempts: seq<Attempt> := [];
    var i := 0;
    while i < |buckets|
      invariant 0 <= i <= |buckets|
      invariant Prepend(attempts, ExportOf(Android, buckets[i..], directoryPath, env))
        == ExportOf(Android, buckets, directoryPath, env)
    {
      var dict := buckets[i];
      var destFolder := "values";
      if dict.code != Neutral {
        destFolder := destFolder + "-" + dict.code;
        AndroidFolderOfLocale(dict.code, destFolder);
      }
      var folder := Combine(directoryPath, destFolder);
      if folder in env.blockedFolders {
        ExportOfBlocked(Android, buckets, i, directoryPath, env);
        return Report(attempts, Some(FolderCreationFailed(folder)));
      }
      var a := SerializeForAndroid(dict.pairs, Combine(folder, FileName), env.failingFiles);
      assert a == AttemptFor(Android, directoryPath, dict, env);
      ExportOfStep(Android, buckets, i, directoryPath, env, attempts);
      attempts := attempts + [a];
      i := i + 1;
    }
    assert buckets[i..] == [];
    r := Report(attempts, None);
  }

  /** ExportAndroidFiles: extract the buckets (an exception aborts), then write every locale. */
  method ExportAndroidFiles(cat: ResourceCatalog, directoryPath: string, env: Env) returns (r: Report)
    ensures r == ExportReport(Android, cat, directoryPath, env)
  {
    var data := ExtractData(cat);
    if data.Err? {
      return Report([], Some(ExtractionFailed(data.error)));
    }
    r := WriteAndroidLocales(data.value, directoryPath, env);
  }

  /**
   * The loop of ExportiOSFiles: for every bucket, the folder `Base.lproj` or
   * `<code>.lproj` is created when missing (a failure propagates), and the
   * bucket is serialized into its `strings.xml`.
   */
  method WriteiOSLocales(buckets: seq<Bucket>, directoryPath: string, env: Env) returns (r: Report)
    ensures r == ExportOf(Ios, buckets, directoryPath, env)
  {
    var attempts: seq<Attempt> := [];
    var i := 0;
    while i < |buckets|
      invariant 0 <= i <= |buckets|
      invariant Prepend(attempts, ExportOf(Ios, buckets[i..], directoryPath, env))
        == ExportOf(Ios, buckets, directoryPath, env)
    {
      var dict := buckets[i];
      var destFolder := Folder(Ios, dict.code);
      var folder := Combine(directoryPath, destFolder);
      if folder in env.blockedFolders {
        ExportOfBlocked(Ios, buckets, i, directoryPath, env);
        return Report(attempts, Some(FolderCreationFailed(folder)));
      }
      var a := SerializeForiOS(dict.pairs, Combine(folder, FileName), env.failingFiles);
      assert a == AttemptFor(Ios, directoryPath, dict, env);
      ExportOfStep(Ios, buckets, i, directoryPath, env, attempts);
      attempts := attempts + [a];
      i := i + 1;
    }
    assert buckets[i..] == [];
    r := Report(attempts, None);
  }

  /** ExportiOSFiles: extract the buckets (an exception aborts), then write every locale. */
  method ExportiOSFiles(cat: ResourceCatalog, directoryPath: string, env: Env) returns (r: Report)
    ensures r == ExportReport(Ios, cat, directoryPath, env)
  {
    var data := ExtractData(cat);
    if data.Err? {
      return Report([], Some(ExtractionFailed(data.error)));
    }
    r := WriteiOSLocales(data.value, directoryPath, env);
  }

  // ---------------------------------------------------------------------
  // What an export does

  /**
   * The shape of an export of buckets `d`: in bucket order, one attempt per locale
   * up to the first locale whose folder cannot be created, and a stop there with
   * that folder; each attempt goes to the locale's file and holds the rendering
   * of its bucket.
   */
  ghost predicate ShapedExport(platform: Platform, d: seq<Bucket>, dir: string, env: Env, r: Report)
  {
    && |r.attempts| <= |d|
    && (forall j :: 0 <= j < |r.attempts| ==>
      r.attempts[j] == AttemptFor(platform, dir, d[j], env) && !Blocked(platform, dir, d[j], env))
    && if |r.attempts| < |d| then
      Blocked(platform, dir, d[|r.attempts|], env)
      && r.abort == Some(FolderCreationFailed(FolderPath(platform, dir, d[|r.attempts|].code)))
    else r.abort == None
  }

  /** Writing the first locale in front of a well-shaped export of the others gives a well-shaped export. */
  lemma ShapedPrepend(platform: Platform, d: seq<Bucket>, dir: string, env: Env, rest: Report)
    requires d != [] && !Blocked(platform, dir, d[0], env)
    requires ShapedExport(platform, d[1..], dir, env, rest)
    ensures ShapedExport(platform, d, dir, env, Report([AttemptFor(platform, dir, d[0], env)] + rest.attempts, rest.abort))
  {
    var r := Report([AttemptFor(platform, dir, d[0], env)] + rest.attempts, rest.abort);
    var tail := d[1..];
    forall j | 1 <= j < |r.attempts|
      ensures r.attempts[j] == AttemptFor(platform, dir, d[j], env) && !Blocked(platform, dir, d[j], env)
    {
      assert r.attempts[j] == rest.attempts[j - 1];
      assert tail[j - 1] == d[j];
    }
    if |r.attempts| < |d| {
      assert tail[|rest.attempts|] == d[|r.attempts|];
    }
  }

  /** Every export of buckets has the shape above. */
  lemma {:induction false} ExportOfShape(platform: Platform, d: seq<Bucket>, dir: string, env: Env)
    ensures ShapedExport(platform, d, dir, env, ExportOf(platform, d, dir, env))
  {
    if d != [] && !Blocked(platform, dir, d[0], env) {
      ExportOfShape(platform, d[1..], dir, env);
      ShapedPrepend(platform, d, dir, env, ExportOf(platform, d[1..], dir, env));
    }
  }

  /** Only the written flag of an attempt depends on which files fail. */
  lemma AttemptAcrossEnvs(platform: Platform, dir: string, b: Bucket, env1: Env, env2: Env)
    ensures AttemptFor(platform, dir, b, env1).path == AttemptFor(platform, dir, b, env2).path
    ensures AttemptFor(platform, dir, b, env1).content == AttemptFor(platform, dir, b, env2).content
    ensures AttemptFor(platform, dir, b, env1).written == (AttemptFor(platform, dir, b, env1).path !in env1.failingFiles)
  {
  }

  /** A failed write neither stops the export nor changes what is attempted: only the written flags differ. */
  lemma FailureIsolation(platform: Platform, d: seq<Bucket>, dir: string, env1: Env, env2: Env)
    requires env1.blockedFolders == env2.blockedFolders
    ensures var r1, r2 := ExportOf(platform, d, dir, env1), ExportOf(platform, d, dir, env2);
      && |r1.attempts| == |r2.attempts| && r1.abort == r2.abort
      && forall j :: 0 <= j < |r1.attempts| ==>
        && r1.attempts[j].path == r2.attempts[j].path
        && r1.attempts[j].content == r2.attempts[j].content
        && r1.attempts[j].written == (r1.attempts[j].path !in env1.failingFiles)
        && r2.attempts[j].written == (r2.attempts[j].path !in env2.failingFiles)
  {
    var r1, r2 := ExportOf(platform, d, dir, env1), ExportOf(platform, d, dir, env2);
    ExportOfShape(platform, d, dir, env1);
    ExportOfShape(platform, d, dir, env2);
    var n1, n2 := |r1.attempts|, |r2.attempts|;
    assert forall j :: 0 <= j < |d| ==> Blocked(platform, dir, d[j], env1) == Blocked(platform, dir, d[j], env2);
    assert n1 == n2;
    forall j | 0 <= j < n1
      ensures r1.attempts[j].path == r2.attempts[j].path && r1.attempts[j].content == r2.attempts[j].content
      ensures r1.attempts[j].written == (r1.attempts[j].path !in env1.failingFiles)
      ensures r2.attempts[j].written == (r2.attempts[j].path !in env2.failingFiles)
    {
      AttemptAcrossEnvs(platform, dir, d[j], env1, env2);
      AttemptAcrossEnvs(platform, dir, d[j], env2, env1);
    }
  }

  // ---------------------------------------------------------------------
  // Folder names

  /** The locale code a folder name stands for, if any. */
  function FolderCode(platform: Platform, folder: string): Option<string>
  {
    match platform
    case Android =>
      if folder == "values" then Some(Neutral)
      else if |folder| >= 7 && folder[..7] == "values-" && folder[7..] != Neutral then Some(folder[7..])
      else None
    case Ios =>
      if folder == "Base.lproj" then Some(Neutral)
      else if |folder| >= 6 && folder[|folder| - 6..] == ".lproj" && folder[..|folder| - 6] != Neutral then
        Some(folder[..|folder| - 6])
      else None
  }

  /** Every locale's folder names it again, except the iOS locale "Base". */
  lemma FolderRoundTrip(platform: Platform, code: string)
    requires platform == Ios ==> code != "Base"
    ensures FolderCode(platform, Folder(platform, code)) == Some(code)
  {
    if platform == Android && code != Neutral {
      assert ("values-" + code)[..7] == "values-";
      assert ("values-" + code)[7..] == code;
    }
    if platform == Ios && code != Neutral {
      var f := code + ".lproj";
      assert f[|f| - 6..] == ".lproj";
      assert f[..|f| - 6] == code;
    }
  }

  /** A folder name that stands for a locale is that locale's folder. */
  lemma FolderCodeSound(platform: Platform, folder: string)
    requires FolderCode(platform, folder).Some?
    ensures Folder(platform, FolderCode(platform, folder).value) == folder
  {
    var code := FolderCode(platform, folder).value;
    if platform == Android && folder != "values" {
      assert folder == folder[..7] + folder[7..];
    }
    if platform == Ios && folder != "Base.lproj" {
      assert folder == folder[..|folder| - 6] + folder[|folder| - 6..];
    }
  }

  /** The neutral language and a locale named "Base" share the iOS folder. */
  lemma IosBaseCollision()
    ensures "Base" != Neutral
    ensures Folder(Ios, "Base") == Folder(Ios, Neutral)
  {
  }

  lemma CombineInjective(dir: string, a: string, b: string)
    requires Combine(Combine(dir, a), FileName) == Combine(Combine(dir, b), FileName)
    ensures a == b
  {
    var s := Combine(Combine(dir, a), FileName);
    assert |a| == |b|;
    assert a == s[|dir| + 1..|dir| + 1 + |a|];
  }

  /** Two locales share a file exactly when they are the same locale (barring the iOS locale "Base"). */
  lemma SameFile(platform: Platform, dir: string, c1: string, c2: string)
    requires platform == Ios ==> c1 != "Base" && c2 != "Base"
    ensures FilePath(platform, dir, c1) == FilePath(platform, dir, c2) <==> c1 == c2
  {
    if FilePath(platform, dir, c1) == FilePath(platform, dir, c2) {
      CombineInjective(dir, Folder(platform, c1), Folder(platform, c2));
      FolderRoundTrip(platform, c1);
      FolderRoundTrip(platform, c2);
    }
  }

  /**
   * With distinct locale codes (and no iOS locale "Base"), every attempt of the
   * export goes to a different file, one per locale.
   */
  lemma DistinctFiles(platform: Platform, d: seq<Bucket>, dir: string, env: Env)
    requires Distinct(Codes(d))
    requires platform == Ios ==> "Base" !in Codes(d)
    ensures var r := ExportOf(platform, d, dir, env);
      forall i, j :: 0 <= i < j < |r.attempts| ==> r.attempts[i].path != r.attempts[j].path
  {
    var r := ExportOf(platform, d, dir, env);
    ExportOfShape(platform, d, dir, env);
    forall i, j | 0 <= i < j < |r.attempts|
      ensures r.attempts[i].path != r.attempts[j].path
    {
      assert Codes(d)[i] == d[i].code && Codes(d)[j] == d[j].code;
      SameFile(platform, dir, d[i].code, d[j].code);
    }
  }

  lemma LookupAt(d: seq<Bucket>, j: nat)
    requires Distinct(Codes(d)) && j < |d|
    ensures Lookup(d, d[j].code) == d[j].pairs
  {
    assert Codes(d)[j] == d[j].code;
  }

  /** With no folder blocked, every locale is exported, in bucket order. */
  lemma UnblockedExport(platform: Platform, d: seq<Bucket>, dir: string, env: Env)
    requires env.blockedFolders == {}
    ensures var r := ExportOf(platform, d, dir, env);
      && r.abort == None && |r.attempts| == |d|
      && forall j :: 0 <= j < |d| ==> r.attempts[j] == AttemptFor(platform, dir, d[j], env)
  {
    ExportOfShape(platform, d, dir, env);
  }

  /**
   * The Android document of a locale's bucket holds exactly a `string` element
   * for each non-blank value the catalog provides for that locale.
   */
  lemma AndroidBucketDocument(cat: ResourceCatalog, j: nat)
    requires Extract(cat).Ok? && j < |Extract(cat).value|
    ensures var b := Extract(cat).value[j];
      forall el :: el in AndroidDocument(b.pairs).children <==>
        el.tag == StringTag && Provides(cat, b.code, Pair(el.name, el.text)) && !IsNullOrWhiteSpace(el.text)
  {
    var d := Extract(cat).value;
    ExtractWellFormed(cat);
    AndroidDocumentShape(d[j].pairs);
    LookupAt(d, j);
    ExtractPairs(cat, d[j].code);
  }

  /**
   * When no folder is blocked, the Android export attempts one file per locale
   * the catalog declares, at that locale's path; the write goes through unless
   * that path is one whose write throws, and the file's document holds exactly
   * a `string` element for each non-blank value the catalog provides for that
   * locale.
   */
  lemma AndroidExportContents(cat: ResourceCatalog, dir: string, env: Env)
    requires Extract(cat).Ok? && env.blockedFolders == {}
    ensures var d := Extract(cat).value;
      var r := ExportReport(Android, cat, dir, env);
      && r.abort == None && |r.attempts| == |d|
      && (forall c :: Declares(cat, c) <==> exists j :: 0 <= j < |d| && r.attempts[j].path == FilePath(Android, dir, c))
      && forall j :: 0 <= j < |d| ==>
        && r.attempts[j].path == FilePath(Android, dir, d[j].code)
        && r.attempts[j].written == (r.attempts[j].path !in env.failingFiles)
        && r.attempts[j].content.Xml?
        && forall el :: el in r.attempts[j].content.doc.children <==>
          el.tag == StringTag && Provides(cat, d[j].code, Pair(el.name, el.text)) && !IsNullOrWhiteSpace(el.text)
  {
    var d := Extract(cat).value;
    var r := ExportReport(Android, cat, dir, env);
    UnblockedExport(Android, d, dir, env);
    ExtractCodes(cat);
    forall c
      ensures Declares(cat, c) <==> exists j :: 0 <= j < |d| && r.attempts[j].path == FilePath(Android, dir, c)
    {
      if Declares(cat, c) {
        var j :| 0 <= j < |d| && Codes(d)[j] == c;
        assert r.attempts[j].path == FilePath(Android, dir, c);
      }
      if exists j :: 0 <= j < |d| && r.attempts[j].path == FilePath(Android, dir, c) {
        var j :| 0 <= j < |d| && r.attempts[j].path == FilePath(Android, dir, c);
        SameFile(Android, dir, d[j].code, c);
        assert Codes(d)[j] == c;
      }
    }
    forall j | 0 <= j < |d|
      ensures forall el :: el in r.attempts[j].content.doc.children <==>
        el.tag == StringTag && Provides(cat, d[j].code, Pair(el.name, el.text)) && !IsNullOrWhiteSpace(el.text)
    {
      AndroidBucketDocument(cat, j);
    }
  }
}
