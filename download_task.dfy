/**
  The Ant download task (`GPDownloadTask`, with the helpers it inherits
  from `GPBaseTask`): how a bundle file's path becomes a bundle ID, which
  target languages a bundle set resolves to, how a language tag becomes the
  language ID written into file names, where each translated file goes,
  when an existing file is skipped, and which strings a downloaded bundle
  holds.

  The service client, the file system and the log are not part of this
  model: what they answer (the resource entries of a bundle, the active
  machine-translation languages, whether the output file exists) arrives
  as parameters. A file is the sequence of its name components; an
  absolute one starts with the empty name of the root.
 */
module DownloadTasks {
  import opened Wrappers
  import opened JavaText
  import opened ResourceStrings
  import opened LanguageBundles
  import opened LanguageBundleBuilders

  // ---------------------------------------------------------------------
  // Bundle IDs

  /** The parent directory `java.io.File` reports for a path, with a leading separator as its prefix. */
  function ParentPath(path: JString, sep: CodeUnit): (r: Option<JString>)
    ensures r.Some? ==> |r.value| < |path| && r.value == path[..|r.value|]
  {
    var idx := LastIndexOf(path, sep);
    var prefix := if path != [] && path[0] == sep then 1 else 0;
    if idx < prefix then
      if prefix > 0 && |path| > prefix then Some(path[..prefix]) else None
    else Some(path[..idx])
  }

  /** `File.getName`: what follows the last separator (or the prefix). */
  function FileName(path: JString, sep: CodeUnit): (r: JString)
    ensures sep !in r
    ensures |r| <= |path| && r == path[|path| - |r|..]
    ensures |r| == |path| || path[|path| - |r| - 1] == sep
  {
    var idx := LastIndexOf(path, sep);
    var prefix := if path != [] && path[0] == sep then 1 else 0;
    var start := if idx < prefix then prefix else idx + 1;
    NoneAfter(path, sep, start);
    path[start..]
  }

  lemma NoneAfter(s: JString, c: CodeUnit, start: nat)
    requires start <= |s| && forall k | start <= k < |s| :: s[k] != c
    ensures c !in s[start..]
  {
  }

  /** The package part of a bundle ID: the parent path with its separators turned into dots, or nothing. */
  function PackageName(path: JString, sep: CodeUnit): (r: JString)
    ensures sep != DOT ==> sep !in r
  {
    match ParentPath(path, sep)
    case None => []
    case Some(p) => ReplaceChar(p, sep, DOT)
  }

  /** The file name of a Java bundle up to its first dot. */
  function BaseName(name: JString): (r: JString)
    ensures DOT !in r && |r| <= |name| && r == name[..|r|]
    ensures r == name || name[|r|] == DOT
  {
    var d := IndexOf(name, DOT);
    if d >= 0 then name[..d] else name
  }

  /**
    `pathToBundleId`: a Java bundle is named by its package, a dot and its
    file name up to the first dot; any other bundle by its package, a
    hyphen and its whole file name.
   */
  function PathToBundleId(isJava: bool, path: JString, sep: CodeUnit): (id: JString)
    ensures var pkg := PackageName(path, sep);
      |pkg| < |id| && id[..|pkg|] == pkg && id[|pkg|] == (if isJava then DOT else HYPHEN)
    ensures isJava ==> DOT !in id[|PackageName(path, sep)| + 1..]
    ensures !isJava ==> id[|PackageName(path, sep)| + 1..] == FileName(path, sep)
  {
    var pkg := PackageName(path, sep);
    var name := FileName(path, sep);
    if isJava then pkg + [DOT] + BaseName(name) else pkg + [HYPHEN] + name
  }

  /** The last dot of a Java bundle ID ends its package: what follows is the class name. */
  lemma JavaBundleIdSplits(path: JString, sep: CodeUnit)
    ensures var id := PathToBundleId(true, path, sep);
      var pkg := PackageName(path, sep);
      LastIndexOf(id, DOT) == |pkg| && id[..|pkg|] == pkg && id[|pkg| + 1..] == BaseName(FileName(path, sep))
  {
    var id := PathToBundleId(true, path, sep);
    var pkg := PackageName(path, sep);
    var base := BaseName(FileName(path, sep));
    assert id[|pkg|] == DOT;
    forall k | |pkg| < k < |id| ensures id[k] != DOT {
      assert id[k] == base[k - |pkg| - 1];
    }
    assert id[..|pkg|] == pkg && id[|pkg| + 1..] == base;
  }

  /** Any other bundle ID ends with the whole file name, after a hyphen. */
  lemma OtherBundleIdEndsWithFileName(path: JString, sep: CodeUnit)
    ensures var id := PathToBundleId(false, path, sep);
      var name := FileName(path, sep);
      |id| > |name| && id[|id| - |name|..] == name && id[|id| - |name| - 1] == HYPHEN
  {
    var id := PathToBundleId(false, path, sep);
    var pkg := PackageName(path, sep);
    assert id[|pkg| + 1..] == FileName(path, sep);
  }

  /** `ibm/Msg.json`, as a Java bundle with `/` as separator, is `ibm.Msg`. */
  lemma JavaBundleIdExample()
    ensures PathToBundleId(true, Lit("ibm/Msg.json"), SLASH) == Lit("ibm.Msg")
  {
    var path := Lit("ibm/Msg.json");
    ExampleSplits(path);
    ExampleBaseName(Lit("Msg.json"));
  }

  lemma ExampleSplits(path: JString)
    requires path == Lit("ibm/Msg.json")
    ensures PackageName(path, SLASH) == Lit("ibm") && FileName(path, SLASH) == Lit("Msg.json")
  {
    assert LastIndexOf(path, SLASH) == 3 by {
      assert path[3] == SLASH;
    }
    assert path[..3] == Lit("ibm");
  }

  lemma ExampleBaseName(name: JString)
    requires name == Lit("Msg.json")
    ensures BaseName(name) == Lit("Msg")
  {
    assert name[3] == DOT;
  }

  /** A Java bundle with no directory gets an ID that starts with the dot. */
  lemma TopLevelJavaIdStartsWithDot(path: JString, sep: CodeUnit)
    requires sep !in path
    ensures PathToBundleId(true, path, sep) == [DOT] + BaseName(path)
  {
    TopLevelParts(path, sep);
  }

  /** Without a separator a path has no parent and is its own file name. */
  lemma TopLevelParts(path: JString, sep: CodeUnit)
    requires sep !in path
    ensures ParentPath(path, sep).None? && PackageName(path, sep) == []
    ensures FileName(path, sep) == path
  {
    assert LastIndexOf(path, sep) == -1;
    assert !(path != [] && path[0] == sep);
    assert path[0..] == path;
  }

  // ---------------------------------------------------------------------
  // Target languages

  /** The task's own target languages, in order, without the source language. */
  function TaskTargets(langs: seq<JString>, srcLang: JString): (r: set<JString>)
    decreases |langs|
  {
    if langs == [] then {}
    else
      var last := langs[|langs| - 1];
      TaskTargets(langs[..|langs| - 1], srcLang) + (if last == srcLang then {} else {last})
  }

  /** A language is a task default exactly when the task lists it and it is not the source language. */
  lemma {:induction false} TaskTargetsAre(langs: seq<JString>, srcLang: JString, l: JString)
    ensures l in TaskTargets(langs, srcLang) <==> l in langs && l != srcLang
    decreases |langs|
  {
    if langs != [] {
      var init := langs[..|langs| - 1];
      TaskTargetsAre(init, srcLang, l);
      assert langs == init + [langs[|langs| - 1]];
    }
  }

  /** The source language of a bundle set: `en` when it has none. */
  function SourceLanguage(configured: Option<JString>): (r: JString)
    ensures configured.Some? ==> r == configured.value
    ensures configured.None? ==> r == Lit("en")
  {
    configured.GetOr(Lit("en"))
  }

  /**
    `resolveTargetLanguages`: the bundle set's own target languages when it
    lists some; else the task's, without the source language; and when
    that leaves none, the languages the service has active machine
    translation for from the source language. A service error throws, and
    so does a source language the service has no entry for.
   */
  function ResolvedTargets(configured: Option<set<JString>>, srcLang: Option<JString>, taskLangs: seq<JString>,
                           activeMT: Result<map<JString, set<JString>>>): Result<set<JString>>
  {
    var src := SourceLanguage(srcLang);
    var targets := if configured.None? || configured.value == {} then TaskTargets(taskLangs, src) else configured.value;
    if targets != {} then Ok(targets)
    else if activeMT.Err? then Err(BuildException)
    else if src !in activeMT.value then Err(NullPointerException)
    else Ok(activeMT.value[src])
  }

  /** The loop that collects the task's target languages other than the source. */
  method CollectTaskTargets(langs: seq<JString>, srcLang: JString) returns (r: set<JString>)
    ensures r == TaskTargets(langs, srcLang)
  {
    r := {};
    for i := 0 to |langs|
      invariant r == TaskTargets(langs[..i], srcLang)
    {
      assert langs[..i + 1][..i] == langs[..i];
      if srcLang != langs[i] {
        r := r + {langs[i]};
      }
    }
    assert langs[..|langs|] == langs;
  }

  method ResolveTargetLanguages(configured: Option<set<JString>>, srcLang: Option<JString>, taskLangs: seq<JString>,
                                activeMT: Result<map<JString, set<JString>>>) returns (r: Result<set<JString>>)
    ensures r == ResolvedTargets(configured, srcLang, taskLangs, activeMT)
  {
    var src := if srcLang.None? then Lit("en") else srcLang.value;
    var targets: set<JString>;
    if configured.None? || configured.value == {} {
      targets := CollectTaskTargets(taskLangs, src);
    } else {
      targets := configured.value;
    }
    if targets == {} {
      if activeMT.Err? {
        return Err(BuildException);
      }
      if src !in activeMT.value {
        return Err(NullPointerException);
      }
      targets := activeMT.value[src];
    }
    r := Ok(targets);
  }

  /** Languages the bundle set lists win over everything else. */
  lemma ConfiguredTargetsWin(configured: set<JString>, srcLang: Option<JString>, taskLangs: seq<JString>,
                             activeMT: Result<map<JString, set<JString>>>)
    requires configured != {}
    ensures ResolvedTargets(Some(configured), srcLang, taskLangs, activeMT) == Ok(configured)
  {
  }

  /**
    Without languages of its own, a bundle set gets every language the task
    lists except its source language, and no other; the service is asked
    only when that leaves none.
   */
  lemma TaskTargetsExcludeSource(configured: Option<set<JString>>, srcLang: Option<JString>, taskLangs: seq<JString>,
                                 activeMT: Result<map<JString, set<JString>>>, l: JString)
    requires configured.None? || configured.value == {}
    requires exists i | 0 <= i < |taskLangs| :: taskLangs[i] != SourceLanguage(srcLang)
    ensures ResolvedTargets(configured, srcLang, taskLangs, activeMT).Ok?
    ensures l in ResolvedTargets(configured, srcLang, taskLangs, activeMT).value <==>
      l in taskLangs && l != SourceLanguage(srcLang)
  {
    var src := SourceLanguage(srcLang);
    var i :| 0 <= i < |taskLangs| && taskLangs[i] != src;
    TaskTargetsAre(taskLangs, src, taskLangs[i]);
    TaskTargetsAre(taskLangs, src, l);
  }

  // ---------------------------------------------------------------------
  // Language IDs

  /** The two ways a language ID is written: as the tag, or with `_` for `-`. */
  datatype LanguageIdStyle = Bcp47Underscore | Bcp47

  /** `getEmbeddedLanguageId`: the tag, or what the language map maps it to. */
  function EmbeddedLanguageId(tag: JString, langMap: Option<map<JString, JString>>): (r: JString)
    ensures langMap.Some? && tag in langMap.value ==> r == langMap.value[tag]
    ensures langMap.None? || tag !in langMap.value ==> r == tag
  {
    if langMap.Some? && tag in langMap.value then langMap.value[tag] else tag
  }

  /** `getLanguageId`: the embedded ID, written in the chosen style. */
  function LanguageId(tag: JString, style: LanguageIdStyle, langMap: Option<map<JString, JString>>): (r: JString)
    ensures |r| == |EmbeddedLanguageId(tag, langMap)|
    ensures style == Bcp47 ==> r == EmbeddedLanguageId(tag, langMap)
    ensures style == Bcp47Underscore ==> HYPHEN !in r
  {
    var id := EmbeddedLanguageId(tag, langMap);
    match style
    case Bcp47Underscore => ReplaceChar(id, HYPHEN, UNDERSCORE)
    case Bcp47 => id
  }

  /** The underscore style changes every hyphen into an underscore and nothing else. */
  lemma UnderscoreStyleChangesOnlyHyphens(tag: JString, langMap: Option<map<JString, JString>>, i: nat)
    requires i < |EmbeddedLanguageId(tag, langMap)|
    ensures var id := EmbeddedLanguageId(tag, langMap);
      var r := LanguageId(tag, Bcp47Underscore, langMap);
      (id[i] == HYPHEN ==> r[i] == UNDERSCORE) && (id[i] != HYPHEN ==> r[i] == id[i])
  {
  }

  /** An ID without underscores of its own reads back from the underscore style. */
  lemma {:induction false} UnderscoreStyleReadsBack(tag: JString, langMap: Option<map<JString, JString>>)
    requires UNDERSCORE !in EmbeddedLanguageId(tag, langMap)
    ensures ReplaceChar(LanguageId(tag, Bcp47Underscore, langMap), UNDERSCORE, HYPHEN) == EmbeddedLanguageId(tag, langMap)
  {
    var id := EmbeddedLanguageId(tag, langMap);
    var back := ReplaceChar(LanguageId(tag, Bcp47Underscore, langMap), UNDERSCORE, HYPHEN);
    forall k | 0 <= k < |id| ensures back[k] == id[k] {
      assert id[k] != UNDERSCORE;
    }
  }

  /** `zh-Hant` with no mapping is written `zh_Hant`. */
  lemma UnderscoreExample()
    ensures LanguageId(Lit("zh-Hant"), Bcp47Underscore, None) == Lit("zh_Hant")
  {
  }

  // ---------------------------------------------------------------------
  // Output files

  /** A file: its name components, the first empty for an absolute one. */
  type Path = seq<JString>

  /** `File.getParentFile`: none for a file of one component. */
  function ParentFile(p: Path): (r: Option<Path>)
    ensures r.Some? <==> |p| >= 2
    ensures r.Some? ==> r.value + [p[|p| - 1]] == p
  {
    if |p| >= 2 then Some(p[..|p| - 1]) else None
  }

  /** `new File(dir, name)`, a missing directory giving the name alone. */
  function Child(dir: Option<Path>, name: JString): (r: Path)
    ensures |r| >= 1 && r[|r| - 1] == name
    ensures ParentFile(r) == (if dir.Some? && dir.value != [] then dir else None)
  {
    var d := if dir.Some? then dir.value else [];
    assert (d + [name])[..|d|] == d;
    d + [name]
  }

  /** The three layouts of the output files. */
  datatype BundleLayout = LanguageSuffix | LanguageSubdir | LanguageDir

  /** The name `LANGUAGE_SUFFIX` gives: `_` and the ID before the last dot, or at the end. */
  function SuffixedName(name: JString, id: JString): (r: JString)
    ensures |r| == |name| + 1 + |id|
  {
    var idx := LastIndexOf(name, DOT);
    if idx < 0 then name + [UNDERSCORE] + id else name[..idx] + [UNDERSCORE] + id + name[idx..]
  }

  /** Where the suffix goes: before the extension, or at the end of a name without a dot. */
  function SuffixAt(name: JString): (n: nat)
    ensures n <= |name|
  {
    var idx := LastIndexOf(name, DOT);
    if idx < 0 then |name| else idx
  }

  /**
    The suffix is `_` and the ID, put at the last dot (or at the end): the
    name reads back by taking it out, and, for an ID without a dot, the
    extension stays the extension.
   */
  lemma SuffixedNameReadsBack(name: JString, id: JString)
    ensures var r := SuffixedName(name, id);
      var n := SuffixAt(name);
      r[n..n + 1 + |id|] == [UNDERSCORE] + id && r[..n] + r[n + 1 + |id|..] == name
    ensures DOT !in id ==>
      var r := SuffixedName(name, id);
      var n := SuffixAt(name);
      LastIndexOf(r, DOT) == (if DOT in name then n + 1 + |id| else -1) &&
      (DOT in name ==> r[n + 1 + |id|..] == name[n..])
  {
    var r := SuffixedName(name, id);
    var n := SuffixAt(name);
    assert r == name[..n] + [UNDERSCORE] + id + name[n..];
    assert r[..n] == name[..n] && r[n..n + 1 + |id|] == [UNDERSCORE] + id && r[n + 1 + |id|..] == name[n..];
    if DOT !in id {
      if DOT in name {
        assert r[n + 1 + |id|] == DOT;
        forall k | n + 1 + |id| < k < |r| ensures r[k] != DOT {
          assert r[k] == name[k - 1 - |id|];
        }
      } else {
        forall k | 0 <= k < |r| ensures r[k] != DOT {
          if k < n {
            assert r[k] == name[k];
          } else if k > n {
            assert r[k] == id[k - n - 1];
          }
        }
      }
    }
  }

  /**
    The output file of a source bundle file: `LANGUAGE_SUFFIX` renames it
    in its own directory, `LANGUAGE_SUBDIR` puts it in a directory named by
    the language inside that directory, and `LANGUAGE_DIR` in one next to
    it. `LANGUAGE_DIR` on a source file with no parent directory throws; on
    one with a parent but no grandparent, the language's directory is the
    ID alone, as `new File((File) null, id)` is.
   */
  function OutputFile(layout: BundleLayout, outBase: Path, relPath: Path, srcFileName: JString, langId: JString): (r: Result<Path>)
    ensures layout != LanguageDir ==> r.Ok?
  {
    var dir := ParentFile(outBase + relPath);
    match layout
    case LanguageSuffix => Ok(Child(dir, SuffixedName(srcFileName, langId)))
    case LanguageSubdir => Ok(Child(Some(Child(dir, langId)), srcFileName))
    case LanguageDir =>
      if dir.None? then Err(NullPointerException)
      else Ok(Child(Some(Child(ParentFile(dir.value), langId)), srcFileName))
  }

  /**
    For a source file `d/f` under the output base, the three layouts give
    `d/f'` with the suffixed name, `d/id/f` and, with `d` = `g/x`, `g/id/f`.
   */
  lemma OutputFilePlaces(layout: BundleLayout, outBase: Path, relPath: Path, srcFileName: JString, langId: JString)
    requires |outBase + relPath| >= 3
    ensures var src := outBase + relPath;
      var n := |src|;
      OutputFile(layout, outBase, relPath, srcFileName, langId) == Ok(match layout
        case LanguageSuffix => src[..n - 1] + [SuffixedName(srcFileName, langId)]
        case LanguageSubdir => src[..n - 1] + [langId, srcFileName]
        case LanguageDir => src[..n - 2] + [langId, srcFileName])
  {
    var src := outBase + relPath;
    var n := |src|;
    assert ParentFile(src) == Some(src[..n - 1]);
    assert ParentFile(src[..n - 1]) == Some(src[..n - 2]) by {
      assert src[..n - 1][..n - 2] == src[..n - 2];
    }
    assert src[..n - 1] + [langId] + [srcFileName] == src[..n - 1] + [langId, srcFileName];
    assert src[..n - 2] + [langId] + [srcFileName] == src[..n - 2] + [langId, srcFileName];
  }

  /** The output's file name: the suffixed name, or the source file's name under the language's directory. */
  lemma OutputFileName(layout: BundleLayout, outBase: Path, relPath: Path, srcFileName: JString, langId: JString)
    requires OutputFile(layout, outBase, relPath, srcFileName, langId).Ok?
    ensures var p := OutputFile(layout, outBase, relPath, srcFileName, langId).value;
      (layout == LanguageSuffix ==> p[|p| - 1] == SuffixedName(srcFileName, langId)) &&
      (layout != LanguageSuffix ==> |p| >= 2 && p[|p| - 1] == srcFileName && p[|p| - 2] == langId)
  {
  }

  /**
    `LANGUAGE_DIR` for a source file with no parent directory throws; with
    a parent and no grandparent, the output is `id/f`.
   */
  lemma LanguageDirNeedsParent(srcFileName: JString, dirName: JString, langId: JString)
    ensures OutputFile(LanguageDir, [], [srcFileName], srcFileName, langId) == Err(NullPointerException)
    ensures OutputFile(LanguageDir, [], [dirName, srcFileName], srcFileName, langId) == Ok([langId, srcFileName])
  {
    var src: Path := [] + [dirName, srcFileName];
    assert src[..1] == [dirName];
    assert ParentFile(src) == Some([dirName]);
    assert Child(ParentFile([dirName]), langId) == [langId];
    assert Child(Some([langId]), srcFileName) == [langId, srcFileName];
  }

  // ---------------------------------------------------------------------
  // What each output option downloads

  /** What the output files hold. */
  datatype OutputContentOption =
    | MergeToSource | TranslatedWithFallback | TranslatedOnly
    | MergeReviewedToSource | ReviewedWithFallback | ReviewedOnly

  /** One language of one bundle to export: the file, whether to merge, how to fetch, and the embedded ID. */
  datatype Export = Export(file: Path, merge: bool, reviewedOnly: bool, withFallback: bool, embeddedId: JString)

  /**
    `exportLanguageResource` up to the filter: the output file, skipped
    (`None`) when it exists and `overwrite` is off, otherwise what is
    fetched and whether it is merged into the source file or written. An
    output file with no parent directory throws when its parent is looked
    up to be created.
   */
  function ExportPlan(layout: BundleLayout, outBase: Path, relPath: Path, srcFileName: JString, language: JString,
                      style: LanguageIdStyle, langMap: map<JString, JString>, exists_: bool, overwrite: bool,
                      option: OutputContentOption): (r: Result<Option<Export>>)
    ensures var out := OutputFile(layout, outBase, relPath, srcFileName, LanguageId(language, style, Some(langMap)));
      r.Err? <==> out.Err? || (!(exists_ && !overwrite) && ParentFile(out.value).None?)
    ensures r.Err? ==> r.thrown == NullPointerException
  {
    var file :- OutputFile(layout, outBase, relPath, srcFileName, LanguageId(language, style, Some(langMap)));
    if exists_ && !overwrite then Ok(None)
    else if ParentFile(file).None? then Err(NullPointerException)
    else
      var embedded := EmbeddedLanguageId(language, Some(langMap));
      Ok(Some(match option
        case MergeToSource => Export(file, true, false, true, embedded)
        case TranslatedWithFallback => Export(file, false, false, true, embedded)
        case TranslatedOnly => Export(file, false, false, false, embedded)
        case MergeReviewedToSource => Export(file, true, true, true, embedded)
        case ReviewedWithFallback => Export(file, false, true, true, embedded)
        case ReviewedOnly => Export(file, false, true, false, embedded)))
  }

  /**
    An existing file is left alone exactly when `overwrite` is off; the
    reviewed options fetch reviewed strings only, the `ONLY` options fetch
    no source fallback, and the merge options merge into the source file.
   */
  lemma ExportPlanDecides(layout: BundleLayout, outBase: Path, relPath: Path, srcFileName: JString, language: JString,
                          style: LanguageIdStyle, langMap: map<JString, JString>, exists_: bool, overwrite: bool,
                          option: OutputContentOption)
    requires ExportPlan(layout, outBase, relPath, srcFileName, language, style, langMap, exists_, overwrite, option).Ok?
    ensures var r := ExportPlan(layout, outBase, relPath, srcFileName, language, style, langMap, exists_, overwrite, option).value;
      (r.None? <==> exists_ && !overwrite) &&
      (r.Some? ==>
        |r.value.file| >= 2 &&
        r.value.file == OutputFile(layout, outBase, relPath, srcFileName, LanguageId(language, style, Some(langMap))).value &&
        r.value.embeddedId == EmbeddedLanguageId(language, Some(langMap)) &&
        (r.value.reviewedOnly <==> option in {MergeReviewedToSource, ReviewedWithFallback, ReviewedOnly}) &&
        (r.value.withFallback <==> option !in {TranslatedOnly, ReviewedOnly}) &&
        (r.value.merge <==> option in {MergeToSource, MergeReviewedToSource}))
  {
  }

  /**
    Only `LANGUAGE_SUFFIX` can give an output file with no parent: for a
    source path of one component it throws unless the file is skipped.
   */
  lemma ExportPlanNeedsParent(layout: BundleLayout, outBase: Path, relPath: Path, srcFileName: JString, language: JString,
                              style: LanguageIdStyle, langMap: map<JString, JString>, exists_: bool, overwrite: bool,
                              option: OutputContentOption)
    ensures var r := ExportPlan(layout, outBase, relPath, srcFileName, language, style, langMap, exists_, overwrite, option);
      r.Err? <==> (layout == LanguageDir && |outBase + relPath| < 2) ||
                  (layout == LanguageSuffix && |outBase + relPath| < 2 && !(exists_ && !overwrite))
  {
  }

  // ---------------------------------------------------------------------
  // getBundle

  /** What the service holds for one key of a bundle in one language. */
  datatype EntryData = EntryData(
    value: Option<JString>, sourceValue: Option<JString>, sequenceNumber: Option<int>,
    notes: Option<seq<JString>>, reviewed: bool)

  /** The value kept for an entry: its translation, unless unreviewed ones are dropped; else, with fallback, its source value. */
  function ChosenValue(data: EntryData, reviewedOnly: bool, withFallback: bool): (r: Option<JString>)
  {
    var v := if reviewedOnly && !data.reviewed then None else data.value;
    if v.None? && withFallback then data.sourceValue else v
  }

  /** The string `getBundle` adds for an entry, if any. */
  function Fetched(key: JString, data: EntryData, reviewedOnly: bool, withFallback: bool): (r: Option<ResourceString>)
    ensures r.Some? ==> r.value.key == key
  {
    var v := ChosenValue(data, reviewedOnly, withFallback);
    if v.None? then None
    else Some(ResourceString(key, v.value, data.sequenceNumber.GetOr(UNKNOWN_SEQUENCE), data.notes, data.sourceValue))
  }

  /**
    An entry gives a string exactly when it has a translation that counts
    (any, or a reviewed one) or, with fallback, a source value; the string
    holds the translation when it counts and the source value otherwise.
   */
  lemma FetchedCases(key: JString, data: EntryData, reviewedOnly: bool, withFallback: bool)
    ensures var counts := data.value.Some? && (!reviewedOnly || data.reviewed);
      var r := Fetched(key, data, reviewedOnly, withFallback);
      (r.Some? <==> counts || (withFallback && data.sourceValue.Some?)) &&
      (r.Some? && counts ==> r.value.value == data.value.value) &&
      (r.Some? && !counts ==> r.value.value == data.sourceValue.value && withFallback)
  {
  }

  /**
    The strings `rs` are those the entries with keys in `done` give: each
    string is what its key's entry gives, no key twice, and every entry in
    `done` that gives a string has one.
   */
  ghost predicate Downloads(rs: seq<ResourceString>, entries: map<JString, EntryData>, reviewedOnly: bool, withFallback: bool,
                            done: set<JString>)
  {
    (forall i | 0 <= i < |rs| :: rs[i].key in done && rs[i].key in entries &&
      Fetched(rs[i].key, entries[rs[i].key], reviewedOnly, withFallback) == Some(rs[i])) &&
    (forall i, j | 0 <= i < j < |rs| :: rs[i].key != rs[j].key) &&
    (forall k | k in done && k in entries && Fetched(k, entries[k], reviewedOnly, withFallback).Some? ::
      exists i | 0 <= i < |rs| :: rs[i].key == k)
  }

  lemma DownloadsStep(rs: seq<ResourceString>, rs': seq<ResourceString>, entries: map<JString, EntryData>,
                      reviewedOnly: bool, withFallback: bool, done: set<JString>, key: JString)
    requires Downloads(rs, entries, reviewedOnly, withFallback, done)
    requires key in entries && key !in done
    requires var f := Fetched(key, entries[key], reviewedOnly, withFallback);
      rs' == rs + (if f.Some? then [f.value] else [])
    ensures Downloads(rs', entries, reviewedOnly, withFallback, done + {key})
  {
    var f := Fetched(key, entries[key], reviewedOnly, withFallback);
    forall k | k in done + {key} && k in entries && Fetched(k, entries[k], reviewedOnly, withFallback).Some?
      ensures exists i | 0 <= i < |rs'| :: rs'[i].key == k
    {
      if k == key {
        assert rs'[|rs|].key == k;
      } else {
        var i :| 0 <= i < |rs| && rs[i].key == k;
        assert rs'[i] == rs[i];
      }
    }
  }

  /**
    `getBundle`: a bundle, not auto-numbered, with the embedded language
    ID, holding one string for every entry the service returns that gives
    one, in the service map's order, which is left open here.
   */
  method GetBundle(entries: map<JString, EntryData>, embeddedId: JString, reviewedOnly: bool, withFallback: bool)
    returns (b: LanguageBundle)
    ensures fresh(b)
    ensures b.embeddedLanguageCode == Some(embeddedId) && b.notes == Some([])
    ensures b.resourceStrings.Some? && Downloads(b.resourceStrings.value, entries, reviewedOnly, withFallback, entries.Keys)
  {
    var builder := new LanguageBundleBuilder(false);
    builder.EmbeddedLanguageCode(Some(embeddedId));
    var todo := entries.Keys;
    ghost var done: set<JString> := {};
    while todo != {}
      invariant fresh(builder) && builder.Valid() && !builder.autoSequenceNumbers
      invariant builder.notes == [] && builder.embeddedLanguageCode == Some(embeddedId)
      invariant todo <= entries.Keys && done == entries.Keys - todo
      invariant Downloads(builder.resourceStrings, entries, reviewedOnly, withFallback, done)
      decreases |todo|
    {
      var key :| key in todo;
      var data := entries[key];
      var resVal := data.value;
      if reviewedOnly && !data.reviewed {
        resVal := None;
      }
      if resVal.None? && withFallback {
        resVal := data.sourceValue;
      }
      ghost var before := builder.resourceStrings;
      if resVal.Some? {
        var seqNum := if data.sequenceNumber.Some? then data.sequenceNumber.value else UNKNOWN_SEQUENCE;
        builder.AddBuilt(ResourceString(key, resVal.value, seqNum, data.notes, data.sourceValue));
      }
      DownloadsStep(before, builder.resourceStrings, entries, reviewedOnly, withFallback, done, key);
      todo := todo - {key};
      done := done + {key};
    }
    b := builder.Build();
  }
}
