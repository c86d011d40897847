/**
  The decision and state logic of the welcome application `manjaro-hello`:
  which locale to activate, which page file to show, how the autostart
  switch changes the autostart link and the i3 configuration, how a locale
  change records the original widget texts, and how the saved state is
  defaulted at start-up.

  The filesystem is abstract: a set of paths for which `os.path.isfile` holds,
  a partial map from the paths that `open` can read to their (decoded)
  contents, and the set of paths that `open` can open for writing.
  Everything the program gets from its environment (the system locale, the
  home directory, the gettext translation function, JSON decoding, whether a
  link system call succeeds) is a parameter.
 */
module ManjaroHello {
  import opened StrReplace

  datatype Option<T> = None | Some(value: T)

  /** The application name, used for the translation domain and the i3 line. */
  const App: string := "manjaro-hello"

  /** The i3 autostart line that the autostart switch comments and uncomments. */
  const I3Autostart: string := "exec --no-startup-id " + App

  /** The placeholder shown for a page that cannot be read (before translation). */
  const CantLoadPage: string := "Can't load page."

  /** The abstract filesystem: the regular files, the readable files with
      their text, and the files the user may write. */
  datatype FileSystem = FileSystem(files: set<string>, contents: map<string, string>, writable: set<string>)

  /** The preference keys that the modelled logic reads. */
  datatype Preferences = Preferences(
    dataPath: string,
    desktopPath: string,
    localePath: string,
    defaultLocale: string,
    savePath: string,
    autostartPath: string)

  /** `"{}".format(v)` for a value that is a string or `None`. A missing value
      and the string "None" format alike. */
  function Format(v: Option<string>): (r: string)
    ensures v.Some? ==> r == v.value
    ensures r == "None" <==> v == None || v == Some("None")
  {
    match v
    case None => "None"
    case Some(s) => s
  }

  // ---------------------------------------------------------------------------
  // Paths: fix_path and read_json

  /** `fix_path`: every `~` in `path` is replaced by the home directory. */
  function FixPath(path: string, home: string): (r: string)
    ensures r == ExpandChar(path, '~', home)
    ensures '~' !in path ==> r == path
    ensures '~' !in home ==> '~' !in r
  {
    ReplaceCharIsExpand(path, '~', home);
    if '~' in path then ReplaceAll(path, "~", home) else path
  }

  /** The decoded saved-state document. Other JSON values are not modelled. */
  datatype SaveDoc = JsonNull | JsonObject(fields: map<string, Option<string>>)

  /** `read_json`: the decoded contents of the file at the expanded path, or
      `None` (Python's None) when opening it raises `OSError`. */
  function ReadJson(fs: FileSystem, path: string, home: string, decode: string -> SaveDoc): (doc: Option<SaveDoc>)
    ensures doc.None? <==> FixPath(path, home) !in fs.contents
    ensures doc.Some? ==> doc.value == decode(fs.contents[FixPath(path, home)])
  {
    var p := FixPath(path, home);
    if p in fs.contents then Some(decode(fs.contents[p])) else None
  }

  /** Python truthiness of `read_json`'s result: `None`, `null` and `{}` are
      the falsy values. */
  function Truthy(doc: Option<SaveDoc>): (b: bool)
    ensures !b <==> doc == None || doc == Some(JsonNull) || doc == Some(JsonObject(map[]))
  {
    doc.Some? && doc.value.JsonObject? && doc.value.fields != map[]
  }

  /** The saved state after `__init__`: a falsy document becomes `{"locale": None}`. */
  function InitialSave(doc: Option<SaveDoc>): (save: map<string, Option<string>>)
    ensures save != map[]
    ensures !Truthy(doc) ==> save == map["locale" := None]
    ensures Truthy(doc) ==> save == doc.value.fields
  {
    if Truthy(doc) then doc.value.fields
    else var d := map["locale" := None]; assert "locale" in d; d
  }

  /** A missing or unreadable saved-state file gives the default saved state. */
  lemma MissingSaveFileDefaults(fs: FileSystem, path: string, home: string, decode: string -> SaveDoc)
    requires FixPath(path, home) !in fs.contents
    ensures InitialSave(ReadJson(fs, path, home, decode)) == map["locale" := None]
  {
  }

  /** A file holding an empty object or `null` gives the default saved state too. */
  lemma EmptySaveFileDefaults(fs: FileSystem, path: string, home: string, decode: string -> SaveDoc)
    requires FixPath(path, home) in fs.contents
    requires decode(fs.contents[FixPath(path, home)]) in {JsonNull, JsonObject(map[])}
    ensures InitialSave(ReadJson(fs, path, home, decode)) == map["locale" := None]
  {
  }

  // ---------------------------------------------------------------------------
  // Locale resolution: get_best_locale

  /** The translation catalog whose presence makes a locale supported. */
  function CatalogPath(localePath: string, locale: string): (p: string)
    ensures |p| == |localePath| + |locale| + |"/LC_MESSAGES/manjaro-hello.mo"|
    ensures p[..|localePath|] == localePath
    ensures p[|localePath|..|localePath| + |locale|] == locale
  {
    localePath + locale + "/LC_MESSAGES/" + App + ".mo"
  }

  /** Different locales never share a catalog. */
  lemma CatalogPathInjective(localePath: string, a: string, b: string)
    requires CatalogPath(localePath, a) == CatalogPath(localePath, b)
    ensures a == b
  {
    var p := CatalogPath(localePath, a);
    assert a == p[|localePath|..|localePath| + |a|];
  }

  predicate HasCatalog(fs: FileSystem, localePath: string, locale: string) {
    CatalogPath(localePath, locale) in fs.files
  }

  /** `s[:2]` */
  function Prefix2(s: string): (r: string)
    ensures |r| == if |s| < 2 then |s| else 2
    ensures r <= s
  {
    if |s| <= 2 then s else s[..2]
  }

  /** `s.replace("_", "-")`: the system locale written as a directory name. */
  function Hyphenate(s: string): (r: string)
    ensures r == ExpandChar(s, '_', "-")
    ensures |r| == |s| && '_' !in r
    ensures '_' !in s ==> r == s
  {
    ReplaceCharIsExpand(s, '_', "-");
    ReplaceAll(s, "_", "-")
  }

  lemma HyphenateAt(s: string, i: nat)
    requires i < |s|
    ensures Hyphenate(s)[i] == if s[i] == '_' then '-' else s[i]
  {
    ExpandCharAt(s, '_', '-', i);
  }

  /** `get_best_locale`: first match wins among the saved locale, the system
      locale and its two-letter prefix; otherwise the default locale. The
      saved locale is `None` before any choice was saved; it is then
      formatted as "None" in the catalog path, so a catalog directory named
      "None" makes the result `None`. */
  function BestLocale(fs: FileSystem, localePath: string, defaultLocale: string,
                      saved: Option<string>, sysLocale: string): (r: Option<string>)
    ensures || r == Some(defaultLocale)
            || (r == saved && HasCatalog(fs, localePath, Format(saved)))
            || (r == Some(Hyphenate(sysLocale)) && HasCatalog(fs, localePath, sysLocale))
            || (r == Some(Prefix2(sysLocale)) && HasCatalog(fs, localePath, Prefix2(sysLocale)))
    ensures r.None? ==> saved.None? && HasCatalog(fs, localePath, "None")
  {
    if saved == Some(defaultLocale) then Some(defaultLocale)
    else if HasCatalog(fs, localePath, Format(saved)) then saved
    else if HasCatalog(fs, localePath, sysLocale) then
      Some(if '_' in sysLocale then ReplaceAll(sysLocale, "_", "-") else sysLocale)
    else if HasCatalog(fs, localePath, Prefix2(sysLocale)) then Some(Prefix2(sysLocale))
    else Some(defaultLocale)
  }

  /** A saved locale that is the default, or that has a catalog, is chosen
      whatever the system locale is. */
  lemma SavedLocaleWins(fs: FileSystem, localePath: string, defaultLocale: string,
                        saved: string, sys1: string, sys2: string)
    requires saved == defaultLocale || HasCatalog(fs, localePath, saved)
    ensures BestLocale(fs, localePath, defaultLocale, Some(saved), sys1) == Some(saved)
    ensures BestLocale(fs, localePath, defaultLocale, Some(saved), sys1)
         == BestLocale(fs, localePath, defaultLocale, Some(saved), sys2)
  {
  }

  /** Without a usable saved locale, a system locale with a catalog (looked up
      with its underscores) is chosen with every `_` turned into `-`. */
  lemma SystemLocaleNext(fs: FileSystem, localePath: string, defaultLocale: string,
                         saved: Option<string>, sysLocale: string)
    requires saved != Some(defaultLocale) && !HasCatalog(fs, localePath, Format(saved))
    requires HasCatalog(fs, localePath, sysLocale)
    ensures BestLocale(fs, localePath, defaultLocale, saved, sysLocale) == Some(Hyphenate(sysLocale))
  {
  }

  /** Then the two-letter prefix, then the default locale. */
  lemma PrefixThenDefault(fs: FileSystem, localePath: string, defaultLocale: string,
                          saved: Option<string>, sysLocale: string)
    requires saved != Some(defaultLocale) && !HasCatalog(fs, localePath, Format(saved))
    requires !HasCatalog(fs, localePath, sysLocale)
    ensures BestLocale(fs, localePath, defaultLocale, saved, sysLocale)
         == if HasCatalog(fs, localePath, Prefix2(sysLocale)) then Some(Prefix2(sysLocale))
            else Some(defaultLocale)
  {
  }

  /** The result is never a locale that was not checked: it is the default, or
      a saved, hyphenated system or prefix locale whose catalog exists. */
  lemma BestLocaleSupported(fs: FileSystem, localePath: string, defaultLocale: string,
                            saved: string, sysLocale: string)
    ensures var r := BestLocale(fs, localePath, defaultLocale, Some(saved), sysLocale);
            && r.Some?
            && (|| r.value == defaultLocale
                || HasCatalog(fs, localePath, r.value)
                || (r.value == Hyphenate(sysLocale) && HasCatalog(fs, localePath, sysLocale)))
  {
  }

  /** Catalog paths of two locales that differ at index `k` are different. */
  lemma CatalogPathsDiffer(localePath: string, a: string, b: string, k: nat)
    requires k < |a| && k < |b| && a[k] != b[k]
    ensures CatalogPath(localePath, a) != CatalogPath(localePath, b)
  {
    assert CatalogPath(localePath, a)[|localePath| + k] == a[k];
    assert CatalogPath(localePath, b)[|localePath| + k] == b[k];
  }

  /** No saved locale, system locale `de_DE`, only an `en` catalog: `en`. */
  lemma ExampleNoSupportedSystemLocale(localePath: string)
    ensures BestLocale(FileSystem({CatalogPath(localePath, "en")}, map[], {}), localePath, "en", None, "de_DE")
         == Some("en")
  {
    var fs := FileSystem({CatalogPath(localePath, "en")}, map[], {});
    CatalogPathsDiffer(localePath, "None", "en", 0);
    CatalogPathsDiffer(localePath, "de_DE", "en", 0);
    CatalogPathsDiffer(localePath, "de", "en", 0);
    assert Prefix2("de_DE") == "de";
    assert !HasCatalog(fs, localePath, Format(None));
    assert !HasCatalog(fs, localePath, "de_DE");
    assert !HasCatalog(fs, localePath, Prefix2("de_DE"));
  }

  lemma HyphenateExample()
    ensures Hyphenate("en_US") == "en-US"
  {
    var h := Hyphenate("en_US");
    forall i | 0 <= i < 5 ensures h[i] == "en-US"[i] {
      HyphenateAt("en_US", i);
    }
  }

  /** A catalog for `en_US` turns system locale `en_US` into `en-US`. */
  lemma ExampleHyphenatedSystemLocale(localePath: string)
    ensures BestLocale(FileSystem({CatalogPath(localePath, "en_US")}, map[], {}), localePath, "fr", None, "en_US")
         == Some("en-US")
  {
    CatalogPathsDiffer(localePath, "None", "en_US", 0);
    HyphenateExample();
  }

  /** The catalog is looked up under the raw system locale only: a catalog for
      `en-US` alone is not found for system locale `en_US`. */
  lemma ExampleHyphenatedCatalogNotConsulted(localePath: string)
    ensures BestLocale(FileSystem({CatalogPath(localePath, "en-US")}, map[], {}), localePath, "fr", None, "en_US")
         == Some("fr")
  {
    CatalogPathsDiffer(localePath, "None", "en-US", 0);
    CatalogPathsDiffer(localePath, "en_US", "en-US", 2);
    assert Prefix2("en_US") == "en";
    assert CatalogPath(localePath, "en")[|localePath| + 2] == '/';
    assert CatalogPath(localePath, "en-US")[|localePath| + 2] == '-';
  }

  // ---------------------------------------------------------------------------
  // Pages: get_page

  /** The page file `name` of `locale`. */
  function PagePath(dataPath: string, locale: string, name: string): (p: string)
    ensures |p| == |dataPath| + |"pages/"| + |locale| + 1 + |name|
    ensures p[..|dataPath| + 6] == dataPath + "pages/"
    ensures p[|dataPath| + 6..|dataPath| + 6 + |locale|] == locale
    ensures p[|p| - |name|..] == name
  {
    dataPath + "pages/" + locale + "/" + name
  }

  /** `get_page`: the page file of the saved locale if it is a file, else the
      one of the default locale; the translated placeholder when the chosen
      file cannot be read. `tr` is the installed gettext translation. */
  function GetPage(fs: FileSystem, dataPath: string, defaultLocale: string,
                   saved: Option<string>, name: string, tr: string -> string): (text: string)
    ensures var own := PagePath(dataPath, Format(saved), name);
            var fallback := PagePath(dataPath, defaultLocale, name);
            && (own in fs.files && own in fs.contents ==> text == fs.contents[own])
            && (own !in fs.files && fallback in fs.contents ==> text == fs.contents[fallback])
            && (own !in fs.files && fallback !in fs.contents ==> text == tr(CantLoadPage))
            && (own in fs.files && own !in fs.contents ==> text == tr(CantLoadPage))
            && (|| text == tr(CantLoadPage)
                || (own in fs.contents && text == fs.contents[own])
                || (fallback in fs.contents && text == fs.contents[fallback]))
  {
    var own := PagePath(dataPath, Format(saved), name);
    var filename := if own in fs.files then own else PagePath(dataPath, defaultLocale, name);
    if filename in fs.contents then fs.contents[filename] else tr(CantLoadPage)
  }

  /** The page files of two locales for one name are different files. */
  lemma PagePathInjective(dataPath: string, a: string, b: string, name: string)
    requires PagePath(dataPath, a, name) == PagePath(dataPath, b, name)
    ensures a == b
  {
    var p := PagePath(dataPath, a, name);
    assert a == p[|dataPath| + 6..|dataPath| + 6 + |a|];
  }

  /** A page file of the saved locale that exists but cannot be read gives the
      placeholder: there is no second fallback to the default locale. */
  lemma UnreadablePageDoesNotFallBack(fs: FileSystem, dataPath: string, defaultLocale: string,
                                      saved: Option<string>, name: string, tr: string -> string)
    requires PagePath(dataPath, Format(saved), name) in fs.files
    requires PagePath(dataPath, Format(saved), name) !in fs.contents
    ensures GetPage(fs, dataPath, defaultLocale, saved, name, tr) == tr(CantLoadPage)
  {
  }

  // ---------------------------------------------------------------------------
  // The i3 configuration patch of set_autostart

  /** Disabling: every `I3Autostart` gets a leading `#`. */
  function CommentOut(content: string): (r: string)
    ensures |r| >= |content|
    ensures Contains(content, I3Autostart) ==> |r| > |content|
    ensures !Contains(content, I3Autostart) ==> r == content
  {
    if Contains(content, I3Autostart) then
      ContainsChangesLength(content, I3Autostart, "#" + I3Autostart);
      ReplaceAll(content, I3Autostart, "#" + I3Autostart)
    else
      ReplaceWithoutMatch(content, I3Autostart, "#" + I3Autostart);
      ReplaceAll(content, I3Autostart, "#" + I3Autostart)
  }

  /** Enabling: every `#` + `I3Autostart` loses its `#`. */
  function Uncomment(content: string): (r: string)
    ensures |r| <= |content|
    ensures Contains(content, "#" + I3Autostart) ==> |r| < |content|
    ensures !Contains(content, "#" + I3Autostart) ==> r == content
  {
    if Contains(content, "#" + I3Autostart) then
      ContainsChangesLength(content, "#" + I3Autostart, I3Autostart);
      ReplaceAll(content, "#" + I3Autostart, I3Autostart)
    else
      ReplaceWithoutMatch(content, "#" + I3Autostart, I3Autostart);
      ReplaceAll(content, "#" + I3Autostart, I3Autostart)
  }

  lemma NoHashInI3Autostart()
    ensures '#' !in I3Autostart
  {
    assert I3Autostart == "exec --no-startup-id manjaro-hello";
  }

  /** Disabling and then enabling restores the configuration. */
  lemma EnableAfterDisableRestores(content: string)
    ensures Uncomment(CommentOut(content)) == content
  {
    NoHashInI3Autostart();
    UnmarkAfterMark(content, I3Autostart, '#');
  }

  /** Enabling leaves the configuration as it is exactly when it holds no
      commented autostart line. */
  lemma EnableUnchangedIff(content: string)
    ensures Uncomment(content) == content <==> !Contains(content, "#" + I3Autostart)
  {
    if Contains(content, "#" + I3Autostart) {
      var i :| 0 <= i <= |content| && OccursAt(content, "#" + I3Autostart, i);
      ReplaceChangesLength(content, "#" + I3Autostart, I3Autostart, i);
    } else {
      ReplaceWithoutMatch(content, "#" + I3Autostart, I3Autostart);
    }
  }

  /** Disabling leaves the configuration as it is exactly when it holds no
      autostart line. */
  lemma DisableUnchangedIff(content: string)
    ensures CommentOut(content) == content <==> !Contains(content, I3Autostart)
  {
    if Contains(content, I3Autostart) {
      var i :| 0 <= i <= |content| && OccursAt(content, I3Autostart, i);
      ReplaceChangesLength(content, I3Autostart, "#" + I3Autostart, i);
    } else {
      ReplaceWithoutMatch(content, I3Autostart, "#" + I3Autostart);
    }
  }

  /** Disabling twice is not disabling once: it adds a second `#`. */
  lemma DisableTwiceNotIdempotent(content: string)
    requires Contains(content, I3Autostart)
    ensures CommentOut(CommentOut(content)) != CommentOut(content)
  {
    var i :| 0 <= i <= |content| && OccursAt(content, I3Autostart, i);
    var once := CommentOut(content);
    assert OccursAt("#" + I3Autostart, I3Autostart, 1) by {
      assert ("#" + I3Autostart)[1..1 + |I3Autostart|] == I3Autostart;
    }
    ReplaceKeepsPattern(content, I3Autostart, "#" + I3Autostart, i, 1);
    var j :| 0 <= j <= |once| && OccursAt(once, I3Autostart, j);
    ReplaceChangesLength(once, I3Autostart, "#" + I3Autostart, j);
  }

  /** The autostart line disabled twice becomes `##` + the line. */
  lemma DisableTwiceExample()
    ensures CommentOut(I3Autostart) == "#" + I3Autostart
    ensures CommentOut(CommentOut(I3Autostart)) == "##" + I3Autostart
  {
    var line, marked := I3Autostart, "#" + I3Autostart;
    assert line[..|line|] == line;
    assert line[|line|..] == [];
    assert ReplaceAll(line, line, marked) == marked + ReplaceAll(line[|line|..], line, marked);
    assert CommentOut(line) == marked;
    assert marked[..|line|] != line by {
      NoHashInI3Autostart();
      assert marked[..|line|][0] == '#';
    }
    assert marked[1..] == line;
    assert ReplaceAll(marked, line, marked) == ['#'] + ReplaceAll(line, line, marked);
    assert ['#'] + marked == "##" + I3Autostart;
  }

  // ---------------------------------------------------------------------------
  // The autostart switch: set_autostart

  /** The link step (lines 174-177): create the link when enabling and it is
      absent, remove it when disabling and it is present. `None` stands for
      the `OSError` of a failed system call (`linkOk` false). */
  function LinkStep(fs: FileSystem, enable: bool, link: string, linkOk: bool): (r: Option<FileSystem>)
    ensures r.None? <==> (link in fs.files) != enable && !linkOk
    ensures r.Some? ==> (link in r.value.files <==> enable)
    ensures r.Some? ==> r.value.files - {link} == fs.files - {link}
    ensures r.Some? ==> r.value.contents - {link} == fs.contents - {link}
    ensures r.Some? ==> r.value.writable - {link} == fs.writable - {link}
    ensures (link in fs.files) == enable ==> r == Some(fs)
  {
    if enable && link !in fs.files then
      if linkOk then Some(fs.(files := fs.files + {link})) else None
    else if !enable && link in fs.files then
      if linkOk then Some(fs.(files := fs.files - {link}, contents := fs.contents - {link}, writable := fs.writable - {link})) else None
    else Some(fs)
  }

  /** The new i3 configuration when enabling or disabling: unchanged exactly
      when there is nothing to patch, and a disable is undone by an enable. */
  function PatchI3(enable: bool, content: string): (r: string)
    ensures r == content <==> !Contains(content, if enable then "#" + I3Autostart else I3Autostart)
    ensures !enable ==> Uncomment(r) == content
  {
    EnableAfterDisableRestores(content);
    if enable then Uncomment(content) else CommentOut(content)
  }

  /** The i3 step (lines 179-189): rewrite the configuration when it is a
      file; `None` for the `OSError` of a file that cannot be opened for
      reading and writing (mode "r+"). */
  function I3Step(fs: FileSystem, enable: bool, i3Config: string): (r: Option<FileSystem>)
    ensures r.None? <==> i3Config in fs.files && (i3Config !in fs.contents || i3Config !in fs.writable)
    ensures r.Some? ==> r.value.files == fs.files && r.value.writable == fs.writable
    ensures r.Some? && i3Config in fs.files
            ==> r.value.contents == fs.contents[i3Config := PatchI3(enable, fs.contents[i3Config])]
    ensures i3Config !in fs.files ==> r == Some(fs)
  {
    if i3Config !in fs.files then Some(fs)
    else if i3Config !in fs.contents || i3Config !in fs.writable then None
    else Some(fs.(contents := fs.contents[i3Config := PatchI3(enable, fs.contents[i3Config])]))
  }

  /** The i3 configuration file under the home directory. */
  function I3ConfigPath(home: string): (p: string)
    ensures |p| == |home| + |"/.i3/config"|
    ensures p[..|home|] == home && p[|home|..] == "/.i3/config"
  {
    home + "/.i3/config"
  }

  /** `set_autostart` as a whole: the new filesystem, and whether it completed
      without `OSError` (only then is `self.autostart` updated). An `OSError`
      in the i3 step keeps the link step's change. */
  function AutostartEffect(fs: FileSystem, enable: bool, link: string, home: string, linkOk: bool)
    : (r: (FileSystem, bool))
    ensures r.1 ==> (link in r.0.files <==> enable)
    ensures r.0.files - {link} == fs.files - {link}
    ensures (link in fs.files) == enable ==> r.0.files == fs.files
    ensures r.1 <==> LinkStep(fs, enable, link, linkOk).Some?
                     && I3Step(LinkStep(fs, enable, link, linkOk).value, enable, I3ConfigPath(home)).Some?
  {
    match LinkStep(fs, enable, link, linkOk)
    case None => (fs, false)
    case Some(fs1) =>
      match I3Step(fs1, enable, I3ConfigPath(home))
      case None => (fs1, false)
      case Some(fs2) => (fs2, true)
  }

  /** An i3 configuration that can be read but not written makes `open(..., "r+")`
      raise `OSError`: the call does not complete and keeps only the link change. */
  lemma ReadOnlyI3ConfigKeepsLinkChange(fs: FileSystem, enable: bool, link: string, home: string, linkOk: bool)
    requires I3ConfigPath(home) != link
    requires I3ConfigPath(home) in fs.files && I3ConfigPath(home) in fs.contents
    requires I3ConfigPath(home) !in fs.writable
    requires LinkStep(fs, enable, link, linkOk).Some?
    ensures !AutostartEffect(fs, enable, link, home, linkOk).1
    ensures AutostartEffect(fs, enable, link, home, linkOk).0 == LinkStep(fs, enable, link, linkOk).value
  {
  }

  /** Enabling twice: the second call completes whether or not a link system
      call would succeed, and creates nothing. */
  lemma EnableTwiceCreatesNothing(fs: FileSystem, link: string, home: string, ok1: bool, ok2: bool)
    requires AutostartEffect(fs, true, link, home, ok1).1
    ensures var fs1 := AutostartEffect(fs, true, link, home, ok1).0;
            && AutostartEffect(fs1, true, link, home, ok2).1
            && AutostartEffect(fs1, true, link, home, ok2).0.files == fs1.files
            && AutostartEffect(fs1, true, link, home, ok2).0.files == AutostartEffect(fs1, true, link, home, true).0.files
            && link in fs1.files
  {
  }

  /** Disabling and then enabling, both completing, restores the i3
      configuration and brings the link back. */
  lemma DisableThenEnableRestoresI3(fs: FileSystem, link: string, home: string, ok1: bool, ok2: bool)
    requires I3ConfigPath(home) != link
    requires I3ConfigPath(home) in fs.files && I3ConfigPath(home) in fs.contents
    requires I3ConfigPath(home) in fs.writable
    requires AutostartEffect(fs, false, link, home, ok1).1
    requires AutostartEffect(AutostartEffect(fs, false, link, home, ok1).0, true, link, home, ok2).1
    ensures var fs2 := AutostartEffect(AutostartEffect(fs, false, link, home, ok1).0, true, link, home, ok2).0;
            && I3ConfigPath(home) in fs2.contents
            && fs2.contents[I3ConfigPath(home)] == fs.contents[I3ConfigPath(home)]
            && link in fs2.files
  {
    var i3 := I3ConfigPath(home);
    var fs1 := AutostartEffect(fs, false, link, home, ok1).0;
    var l1 := LinkStep(fs, false, link, ok1).value;
    assert l1.contents[i3] == fs.contents[i3];
    assert fs1.contents[i3] == CommentOut(fs.contents[i3]);
    var l2 := LinkStep(fs1, true, link, ok2).value;
    assert l2.contents[i3] == fs1.contents[i3];
    EnableAfterDisableRestores(fs.contents[i3]);
  }

  /** How a call of `set_autostart` ends. */
  datatype AutostartOutcome = Completed | OsErrorLogged | AttributeErrorRaised

  /** `set_autostart` as written: the home directory is read from the
      attribute `home_path`, which is never assigned, so right after the link
      step an `AttributeError` escapes; `OSError` is the only exception caught. */
  function AutostartEffectAsWritten(fs: FileSystem, enable: bool, link: string, linkOk: bool)
    : (r: (FileSystem, AutostartOutcome))
    ensures r.1 != Completed
    ensures r.1 == AttributeErrorRaised <==> LinkStep(fs, enable, link, linkOk).Some?
    ensures r.0 == match LinkStep(fs, enable, link, linkOk) case None => fs case Some(fs1) => fs1
  {
    match LinkStep(fs, enable, link, linkOk)
    case None => (fs, OsErrorLogged)
    case Some(fs1) => (fs1, AttributeErrorRaised)
  }

  /** With no link and no i3 configuration, enabling completes in the
      corrected model but never completes as written. */
  lemma AsWrittenEnableNeverCompletes(link: string, home: string)
    requires I3ConfigPath(home) != link
    ensures AutostartEffect(FileSystem({}, map[], {}), true, link, home, true) == (FileSystem({link}, map[], {}), true)
    ensures AutostartEffectAsWritten(FileSystem({}, map[], {}), true, link, true).1 == AttributeErrorRaised
  {
    var fs1 := FileSystem({link}, map[], {});
    assert {} + {link} == {link};
    assert LinkStep(FileSystem({}, map[], {}), true, link, true) == Some(fs1);
    assert I3ConfigPath(home) !in fs1.files;
    assert I3Step(fs1, true, I3ConfigPath(home)) == Some(fs1);
  }

  // ---------------------------------------------------------------------------
  // The text cache of set_locale

  /** The widgets whose text `set_locale` re-translates, grouped in the source
      by the property set: comments, label, tooltip text. */
  const Translatables: seq<string> := [
    "aboutdialog",
    "autostartlabel", "development", "chat", "donate", "firstcategory", "forum",
    "install", "installlabel", "involved", "mailling", "readme", "release",
    "secondcategory", "thirdcategory", "welcomelabel", "welcometitle", "wiki",
    "about", "home"]

  /** The table names 20 widgets, each once: 1 with comments, 17 with labels,
      2 with tooltips, and no widget in two groups. */
  lemma TranslatablesDistinct()
    ensures |Translatables| == 20
    ensures forall i, j :: 0 <= i < j < |Translatables| ==> Translatables[i] != Translatables[j]
  {
    forall i, j | 0 <= i < j < |Translatables|
      ensures Translatables[i] != Translatables[j]
    {
      assert i < 20 && j < 20;
      assert || i == 0 || i == 1 || i == 2 || i == 3 || i == 4 || i == 5 || i == 6
             || i == 7 || i == 8 || i == 9 || i == 10 || i == 11 || i == 12 || i == 13
             || i == 14 || i == 15 || i == 16 || i == 17 || i == 18;
    }
  }

  /** `default_texts` after visiting `elts` in order: the current text of
      each widget not yet recorded is added; recorded texts are never
      overwritten. */
  function CacheTexts(cache: map<string, string>, texts: map<string, string>, elts: seq<string>)
    : (r: map<string, string>)
    requires forall e :: e in elts ==> e in texts
    ensures forall e :: e in r <==> e in cache || e in elts
    ensures forall e :: e in cache ==> r[e] == cache[e]
    ensures forall e :: e in r && e !in cache ==> r[e] == texts[e]
    decreases |elts|
  {
    if elts == [] then cache
    else
      var init, e := elts[..|elts| - 1], elts[|elts| - 1];
      assert elts == init + [e];
      var c := CacheTexts(cache, texts, init);
      if e in c then c else c[e := texts[e]]
  }

  /** The widget texts after visiting `elts` in order: each visited widget
      shows the translation of its recorded original. */
  function Retranslated(texts: map<string, string>, cache: map<string, string>,
                        tr: string -> string, elts: seq<string>): (r: map<string, string>)
    requires forall e :: e in elts ==> e in cache
    ensures forall e :: e in r <==> e in texts || e in elts
    ensures forall e :: e in elts ==> r[e] == tr(cache[e])
    ensures forall e :: e in texts && e !in elts ==> r[e] == texts[e]
    decreases |elts|
  {
    if elts == [] then texts
    else
      var init, e := elts[..|elts| - 1], elts[|elts| - 1];
      assert elts == init + [e];
      Retranslated(texts, cache, tr, init)[e := tr(cache[e])]
  }

  /** `Retranslated` reads the cache only at the visited widgets. */
  lemma {:induction false} RetranslatedAgree(texts: map<string, string>, cache: map<string, string>,
                                             cache': map<string, string>, tr: string -> string, elts: seq<string>)
    requires forall e :: e in elts ==> e in cache && e in cache' && cache'[e] == cache[e]
    ensures Retranslated(texts, cache, tr, elts) == Retranslated(texts, cache', tr, elts)
    decreases |elts|
  {
    if elts != [] {
      var init, e := elts[..|elts| - 1], elts[|elts| - 1];
      assert elts == init + [e];
      RetranslatedAgree(texts, cache, cache', tr, init);
    }
  }

  /** A second locale change records nothing new and translates every widget
      from the text it had before the first change, not from the first
      translation. */
  lemma SecondLocaleChangeUsesOriginals(cache: map<string, string>, texts: map<string, string>,
                                        tr1: string -> string, tr2: string -> string, elts: seq<string>)
    requires forall e :: e in elts ==> e in texts
    ensures var cache1 := CacheTexts(cache, texts, elts);
            var texts1 := Retranslated(texts, cache1, tr1, elts);
            var cache2 := CacheTexts(cache1, texts1, elts);
            && cache2 == cache1
            && forall e :: e in elts ==>
                 Retranslated(texts1, cache2, tr2, elts)[e]
                 == tr2(if e in cache then cache[e] else texts[e])
  {
    var cache1 := CacheTexts(cache, texts, elts);
    var texts1 := Retranslated(texts, cache1, tr1, elts);
    assert CacheTexts(cache1, texts1, elts) == cache1;
  }

  // ---------------------------------------------------------------------------
  // The application object

  class Hello {
    const prefs: Preferences
    /** The widgets whose texts `set_locale` re-translates (`Translatables`). */
    const widgets: seq<string>
    /** The filesystem, as far as the modelled operations touch it. */
    var fs: FileSystem
    /** `self.save` */
    var save: map<string, Option<string>>
    /** `self.default_texts`: the original text of each widget seen. */
    var defaultTexts: map<string, string>
    /** The current translatable text of each widget. */
    var texts: map<string, string>
    /** `self.autostart` */
    var autostart: bool

    ghost predicate Valid()
      reads this
    {
      && "locale" in save
      && forall e :: e in widgets ==> e in texts
    }

    /** The saved-state part of `__init__`. A truthy saved document without a
        "locale" key makes the source raise `KeyError` when the initial locale
        is resolved, so no `Hello` exists for it. */
    constructor (prefs: Preferences, fs: FileSystem, home: string, decode: string -> SaveDoc,
                 widgetTexts: map<string, string>)
      requires "locale" in InitialSave(ReadJson(fs, prefs.savePath, home, decode))
      requires forall e :: e in Translatables ==> e in widgetTexts
      ensures Valid()
      ensures this.prefs == prefs && this.fs == fs && widgets == Translatables
      ensures save == InitialSave(ReadJson(fs, prefs.savePath, home, decode))
      ensures defaultTexts == map[] && texts == widgetTexts
      ensures autostart == (prefs.autostartPath in fs.files)
    {
      this.prefs := prefs;
      this.fs := fs;
      widgets := Translatables;
      var doc := ReadJson(fs, prefs.savePath, home, decode);
      save := InitialSave(doc);
      defaultTexts := map[];
      texts := widgetTexts;
      autostart := prefs.autostartPath in fs.files;
    }

    /** `set_locale`, without the widget and page rendering. `translationFails`
        stands for an `OSError` from loading the translation; `tr` is the
        translation function it installs. */
    method SetLocale(locale: string, translationFails: bool, tr: string -> string)
      requires Valid()
      modifies this
      ensures Valid()
      ensures fs == old(fs) && autostart == old(autostart)
      ensures translationFails ==> save == old(save) && defaultTexts == old(defaultTexts) && texts == old(texts)
      ensures !translationFails ==> save == old(save)["locale" := Some(locale)]
      ensures !translationFails ==> defaultTexts == CacheTexts(old(defaultTexts), old(texts), widgets)
      ensures !translationFails ==> texts == Retranslated(old(texts), defaultTexts, tr, widgets)
    {
      if translationFails {
        return;
      }
      save := save["locale" := Some(locale)];
      RetranslateWidgets(widgets, tr);
    }

    /** The nested loops of `set_locale` (lines 156-160) over the widget
        table `elts`: record each widget's text the first time it is seen,
        then set it to the translation of the recorded text. */
    method RetranslateWidgets(elts: seq<string>, tr: string -> string)
      requires forall e :: e in elts ==> e in texts
      modifies this`defaultTexts, this`texts
      ensures defaultTexts == CacheTexts(old(defaultTexts), old(texts), elts)
      ensures texts == Retranslated(old(texts), defaultTexts, tr, elts)
    {
      ghost var texts0, cache0 := texts, defaultTexts;
      for i := 0 to |elts|
        invariant defaultTexts == CacheTexts(cache0, texts0, elts[..i])
        invariant texts == Retranslated(texts0, defaultTexts, tr, elts[..i])
      {
        var e := elts[i];
        ghost var cache := defaultTexts;
        assert elts[..i + 1][..i] == elts[..i] && elts[..i + 1][i] == e;
        if e !in defaultTexts {
          defaultTexts := defaultTexts[e := texts[e]];
        }
        RetranslatedAgree(texts0, cache, defaultTexts, tr, elts[..i]);
        texts := texts[e := tr(defaultTexts[e])];
      }
      assert elts[..|elts|] == elts;
    }

    /** `set_autostart`, with the home directory as a parameter. `linkOk`
        says whether creating or removing the link succeeds. */
    method SetAutostart(enable: bool, home: string, linkOk: bool) returns (ok: bool)
      requires Valid()
      modifies this
      ensures Valid()
      ensures (fs, ok) == AutostartEffect(old(fs), enable, prefs.autostartPath, home, linkOk)
      ensures ok ==> autostart == enable && (prefs.autostartPath in fs.files <==> enable)
      ensures !ok ==> autostart == old(autostart)
      ensures save == old(save) && defaultTexts == old(defaultTexts) && texts == old(texts)
    {
      var link := prefs.autostartPath;
      if enable && link !in fs.files {
        if !linkOk {
          return false;
        }
        fs := fs.(files := fs.files + {link});
      } else if !enable && link in fs.files {
        if !linkOk {
          return false;
        }
        fs := fs.(files := fs.files - {link}, contents := fs.contents - {link}, writable := fs.writable - {link});
      }
      var i3Config := I3ConfigPath(home);
      if i3Config in fs.files {
        if i3Config !in fs.contents || i3Config !in fs.writable {
          return false;
        }
        var content := fs.contents[i3Config];
        var patched := if enable then Uncomment(content) else CommentOut(content);
        fs := fs.(contents := fs.contents[i3Config := patched]);
      }
      autostart := enable;
      ok := true;
    }
  }
}
