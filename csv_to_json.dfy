/**
 * The exported conversion: collect the requirements once, then for each
 * language build every bundle's catalogue, write it or delete its stale file,
 * and write the folder's README marker when some catalogue was written.
 */
module CsvToJson {
  import opened Requirements
  import opened Catalogs
  import opened KeyOrder
  import opened FileSystems

  /** One entry of the language list. */
  datatype LanguageInfo = LanguageInfo(crowdinCode: string, intlCode: string)

  const ReadmeName: string := "README.md"
  const ReadmeText: string := "The JSON messages files in this folder were generated by kolibri-tools csvToJSON.js\n"

  /** `<folder>/<name>-messages.json`, where the folder stands for `<locale>/LC_MESSAGES`. */
  function MessagesFile(folder: string, name: BundleName): FilePath
  {
    FilePath(folder, name + "-messages.json")
  }

  function ReadmeFile(folder: string): FilePath
  {
    FilePath(folder, ReadmeName)
  }

  /** Distinct bundles never share a catalogue file, and no catalogue file is the marker. */
  lemma MessagesFileDistinct(folder: string, a: BundleName, b: BundleName)
    ensures MessagesFile(folder, a) == MessagesFile(folder, b) ==> a == b
    ensures MessagesFile(folder, a) != ReadmeFile(folder)
  {
    if MessagesFile(folder, a) == MessagesFile(folder, b) {
      assert a == (a + "-messages.json")[..|a|];
    }
    assert |MessagesFile(folder, a).file| >= 14;
  }

  /** The collection can be used for this locale: the source locale also needs every default text. */
  predicate Resolvable(c: Collection, intlCode: string)
  {
    c.WellFormed() && (intlCode == English ==> c.Complete())
  }

  /** The catalogue for one bundle and one locale. */
  function BundleCatalog(c: Collection, intlCode: string, rows: seq<Row>, name: BundleName): map<MessageId, string>
    requires Resolvable(c, intlCode) && name in c.required
  {
    CatalogOf(intlCode, c.required[name], c.defaults, rows)
  }

  /** A non-empty catalogue is written with sorted keys; an empty one deletes the file. */
  ghost function BundleEffect(folder: string, name: BundleName, messages: map<MessageId, string>): Effect
  {
    if |messages| > 0 then
      Effect(map[MessagesFile(folder, name) := CatalogJson(SortedSet(messages.Keys), messages)], {})
    else
      Effect(map[], {MessagesFile(folder, name)})
  }

  /** Every bundle's catalogue for one locale. */
  ghost function LocaleCatalogs(c: Collection, intlCode: string, rows: seq<Row>): map<BundleName, map<MessageId, string>>
    requires Resolvable(c, intlCode)
  {
    map n | n in c.required :: BundleCatalog(c, intlCode, rows, n)
  }

  /** The bundles among `names` synchronised in the given order, each with its catalogue in `catalogs`. */
  ghost function SyncAll(folder: string, names: seq<BundleName>, catalogs: map<BundleName, map<MessageId, string>>): Effect
    requires forall n :: n in names ==> n in catalogs
  {
    if names == [] then NoEffect
    else
      var last := names[|names| - 1];
      Then(SyncAll(folder, names[..|names| - 1], catalogs), BundleEffect(folder, last, catalogs[last]))
  }

  /** The bundles of one locale synchronised in the given order. */
  ghost function BundlesEffect(c: Collection, intlCode: string, rows: seq<Row>, folder: string, names: seq<BundleName>): Effect
    requires Resolvable(c, intlCode) && forall n :: n in names ==> n in c.required
  {
    SyncAll(folder, names, LocaleCatalogs(c, intlCode, rows))
  }

  /** Some bundle among `names` has a non-empty catalogue. */
  ghost predicate AnyCatalog(c: Collection, intlCode: string, rows: seq<Row>, names: seq<BundleName>)
    requires Resolvable(c, intlCode) && forall n :: n in names ==> n in c.required
  {
    exists n :: n in names && |BundleCatalog(c, intlCode, rows, n)| > 0
  }

  /** Everything one locale does: its bundles, then the marker if some catalogue was written. */
  ghost function LocaleEffect(c: Collection, intlCode: string, rows: seq<Row>, folder: string): Effect
    requires Resolvable(c, intlCode)
  {
    var bundles := BundlesEffect(c, intlCode, rows, folder, c.names);
    if AnyCatalog(c, intlCode, rows, c.names) then
      Then(bundles, Effect(map[ReadmeFile(folder) := Marker(ReadmeText)], {}))
    else bundles
  }

  /** Every locale in list order; the translation table and the folder come from the intl code. */
  ghost function RunEffect(c: Collection, languages: seq<LanguageInfo>, parse: string -> seq<Row>, toLocale: string -> string): Effect
    requires c.WellFormed() && c.Complete()
  {
    if languages == [] then NoEffect
    else
      var intlCode := languages[|languages| - 1].intlCode;
      Then(RunEffect(c, languages[..|languages| - 1], parse, toLocale),
           LocaleEffect(c, intlCode, parse(intlCode), toLocale(intlCode)))
  }

  /** Writes a non-empty catalogue with sorted keys, or deletes the stale file of an empty one. */
  method SyncCatalogFile(fs: FileSystem, folder: string, name: BundleName, messages: map<MessageId, string>)
    returns (written: bool)
    modifies fs
    ensures written <==> |messages| > 0
    ensures fs.files == Apply(BundleEffect(folder, name, messages), old(fs.files))
  {
    var filename := MessagesFile(folder, name);
    if |messages| > 0 {
      var keys := SortKeys(messages);
      fs.WriteFile(filename, CatalogJson(keys, messages));
      ApplyWrite(old(fs.files), filename, CatalogJson(keys, messages));
      written := true;
    } else {
      // A file that is not there is the expected steady state.
      var existed := fs.Unlink(filename);
      ApplyDelete(old(fs.files), filename);
      written := false;
    }
  }

  /** The body of the bundle loop: build one catalogue and bring its file in step. */
  method ConvertBundle(c: Collection, intlCode: string, rows: seq<Row>, folder: string, name: BundleName, fs: FileSystem)
    returns (written: bool)
    requires Resolvable(c, intlCode) && name in c.required
    modifies fs
    ensures written <==> |BundleCatalog(c, intlCode, rows, name)| > 0
    ensures fs.files == Apply(BundleEffect(folder, name, BundleCatalog(c, intlCode, rows, name)), old(fs.files))
  {
    var messages, missing := BuildCatalog(intlCode, c.required[name], c.defaults, rows);
    written := SyncCatalogFile(fs, folder, name, messages);
  }

  /** One iteration of the bundle loop, with the flag it keeps. */
  method ConvertNext(c: Collection, intlCode: string, rows: seq<Row>, folder: string, i: nat,
                     messagesExist: bool, fs: FileSystem, ghost initial: Files)
    returns (nowExist: bool)
    requires Resolvable(c, intlCode) && i < |c.names|
    requires fs.files == Apply(BundlesEffect(c, intlCode, rows, folder, c.names[..i]), initial)
    requires messagesExist == AnyCatalog(c, intlCode, rows, c.names[..i])
    modifies fs
    ensures fs.files == Apply(BundlesEffect(c, intlCode, rows, folder, c.names[..i + 1]), initial)
    ensures nowExist == AnyCatalog(c, intlCode, rows, c.names[..i + 1])
  {
    ghost var before := fs.files;
    var written := ConvertBundle(c, intlCode, rows, folder, c.names[i], fs);
    BundlesStep(c, intlCode, rows, folder, c.names, i, initial, before, fs.files);
    AnyCatalogStep(c, intlCode, rows, c.names, i);
    nowExist := messagesExist || written;
  }

  /** One iteration of the language loop. */
  method ConvertLocale(c: Collection, intlCode: string, rows: seq<Row>, folder: string, fs: FileSystem)
    requires Resolvable(c, intlCode)
    modifies fs
    ensures fs.files == Apply(LocaleEffect(c, intlCode, rows, folder), old(fs.files))
  {
    var messagesExist := false;
    for i := 0 to |c.names|
      invariant fs.files == Apply(BundlesEffect(c, intlCode, rows, folder, c.names[..i]), old(fs.files))
      invariant messagesExist == AnyCatalog(c, intlCode, rows, c.names[..i])
    {
      messagesExist := ConvertNext(c, intlCode, rows, folder, i, messagesExist, fs, old(fs.files));
    }
    LocaleDone(c, intlCode, rows, folder, old(fs.files), fs.files, messagesExist);
    if messagesExist {
      fs.WriteFile(ReadmeFile(folder), Marker(ReadmeText));
    }
  }

  /** After the last bundle: the marker is written exactly when the flag is set. */
  lemma LocaleDone(c: Collection, intlCode: string, rows: seq<Row>, folder: string,
                   initial: Files, before: Files, messagesExist: bool)
    requires Resolvable(c, intlCode)
    requires before == Apply(BundlesEffect(c, intlCode, rows, folder, c.names[..|c.names|]), initial)
    requires messagesExist == AnyCatalog(c, intlCode, rows, c.names[..|c.names|])
    ensures Apply(LocaleEffect(c, intlCode, rows, folder), initial) ==
      if messagesExist then before[ReadmeFile(folder) := Marker(ReadmeText)] else before
  {
    WholePrefix(c.names);
    if messagesExist {
      var bundles := BundlesEffect(c, intlCode, rows, folder, c.names);
      ApplyWrite(before, ReadmeFile(folder), Marker(ReadmeText));
      ApplyThen(bundles, Effect(map[ReadmeFile(folder) := Marker(ReadmeText)], {}), initial);
    }
  }

  /** The first `i + 1` elements are the first `i` and then element `i`. */
  lemma PrefixStep<T>(s: seq<T>, i: nat)
    requires i < |s|
    ensures s[..i + 1][..i] == s[..i] && s[..i + 1][i] == s[i] && |s[..i + 1]| == i + 1
  {
  }

  lemma WholePrefix<T>(s: seq<T>)
    ensures s[..|s|] == s
  {
  }

  /** One more bundle in the loop over a locale's bundles. */
  lemma BundlesStep(c: Collection, intlCode: string, rows: seq<Row>, folder: string, names: seq<BundleName>, i: nat,
                    initial: Files, before: Files, after: Files)
    requires Resolvable(c, intlCode) && forall n :: n in names ==> n in c.required
    requires i < |names|
    requires before == Apply(BundlesEffect(c, intlCode, rows, folder, names[..i]), initial)
    requires after == Apply(BundleEffect(folder, names[i], BundleCatalog(c, intlCode, rows, names[i])), before)
    ensures after == Apply(BundlesEffect(c, intlCode, rows, folder, names[..i + 1]), initial)
  {
    PrefixStep(names, i);
    ApplyThen(BundlesEffect(c, intlCode, rows, folder, names[..i]),
              BundleEffect(folder, names[i], BundleCatalog(c, intlCode, rows, names[i])), initial);
  }

  lemma AnyCatalogStep(c: Collection, intlCode: string, rows: seq<Row>, names: seq<BundleName>, i: nat)
    requires Resolvable(c, intlCode) && forall n :: n in names ==> n in c.required
    requires i < |names|
    ensures AnyCatalog(c, intlCode, rows, names[..i + 1]) <==>
      AnyCatalog(c, intlCode, rows, names[..i]) || |BundleCatalog(c, intlCode, rows, names[i])| > 0
  {
    assert names[..i + 1] == names[..i] + [names[i]];
  }

  /**
   * The exported function: `parse` stands for reading a locale's translation
   * tables and `toLocale` for the folder name of an intl code.
   */
  method Convert(paths: seq<PathInfo>, x: Extractor, languages: seq<LanguageInfo>,
                 parse: string -> seq<Row>, toLocale: string -> string, fs: FileSystem)
    modifies fs
    ensures fs.files == Apply(RunEffect(Collected(Extracted(x, paths)), languages, parse, toLocale), old(fs.files))
  {
    var c := CollectRequirements(paths, x);
    for i := 0 to |languages|
      invariant fs.files == Apply(RunEffect(c, languages[..i], parse, toLocale), old(fs.files))
    {
      ghost var before := fs.files;
      var intlCode := languages[i].intlCode;
      var rows := parse(intlCode);
      var localeFolder := toLocale(intlCode);
      ConvertLocale(c, intlCode, rows, localeFolder, fs);
      RunStep(c, languages, parse, toLocale, i, old(fs.files), before, fs.files);
    }
    WholePrefix(languages);
  }

  /** One more language in the outer loop. */
  lemma RunStep(c: Collection, languages: seq<LanguageInfo>, parse: string -> seq<Row>, toLocale: string -> string,
                i: nat, initial: Files, before: Files, after: Files)
    requires c.WellFormed() && c.Complete() && i < |languages|
    requires before == Apply(RunEffect(c, languages[..i], parse, toLocale), initial)
    requires
      var intlCode := languages[i].intlCode;
      after == Apply(LocaleEffect(c, intlCode, parse(intlCode), toLocale(intlCode)), before)
    ensures after == Apply(RunEffect(c, languages[..i + 1], parse, toLocale), initial)
  {
    var intlCode := languages[i].intlCode;
    PrefixStep(languages, i);
    ApplyThen(RunEffect(c, languages[..i], parse, toLocale),
              LocaleEffect(c, intlCode, parse(intlCode), toLocale(intlCode)), initial);
  }
}

/**
 * What one run leaves on disk, stated file by file: catalogue files, the
 * README marker, the folders touched, and what repeating the run does.
 */
module CsvToJsonProperties {
  import opened Requirements
  import opened Catalogs
  import opened KeyOrder
  import opened FileSystems
  import opened CsvToJson

  /**
   * Syncing one catalogue touches only that bundle's file: a non-empty
   * catalogue replaces it with the sorted entries, an empty one removes it,
   * and removing a file that is not there changes nothing.
   */
  lemma BundleEffectTouchesOnlyItsFile(folder: string, name: BundleName, messages: map<MessageId, string>, files: Files)
    ensures
      var after, p := Apply(BundleEffect(folder, name, messages), files), MessagesFile(folder, name);
      && (forall q :: q != p ==> (q in after <==> q in files))
      && (forall q :: q != p && q in files ==> after[q] == files[q])
      && (|messages| > 0 ==>
            && p in after && after[p].CatalogJson? && after[p].entries == messages
            && StrictlySorted(after[p].keys) && (forall k :: k in after[p].keys <==> k in messages))
      && (|messages| == 0 ==> p !in after && (p !in files ==> after == files))
  {
    var p := MessagesFile(folder, name);
    SortedSetSorted(messages.Keys);
    if |messages| == 0 {
      ApplyDelete(files, p);
    }
  }

  /** Every file the bundle loop writes or deletes is a catalogue file of its folder, and no written catalogue is empty. */
  lemma {:induction false} SyncAllShape(folder: string, names: seq<BundleName>, catalogs: map<BundleName, map<MessageId, string>>)
    requires forall n :: n in names ==> n in catalogs
    ensures Within(SyncAll(folder, names, catalogs), folder)
    ensures Leaves(SyncAll(folder, names, catalogs), ReadmeFile(folder))
    ensures NoEmptyCatalog(SyncAll(folder, names, catalogs))
  {
    if names != [] {
      var init, last := names[..|names| - 1], names[|names| - 1];
      InitMembers(names);
      var e1, e2 := SyncAll(folder, init, catalogs), BundleEffect(folder, last, catalogs[last]);
      SyncAllShape(folder, init, catalogs);
      MessagesFileDistinct(folder, last, last);
      assert Within(e2, folder) && Leaves(e2, ReadmeFile(folder)) && NoEmptyCatalog(e2);
      ThenWithin(e1, e2, folder);
      ThenNoEmptyCatalog(e1, e2);
      ThenAt(e1, e2, ReadmeFile(folder));
    }
  }

  /** A bundle's sync either writes or deletes its own file and leaves every other file. */
  lemma BundleEffectFootprint(folder: string, name: BundleName, messages: map<MessageId, string>, other: FilePath)
    ensures (MessagesFile(folder, name) in BundleEffect(folder, name, messages).writes)
         != (MessagesFile(folder, name) in BundleEffect(folder, name, messages).deletes)
    ensures other != MessagesFile(folder, name) ==> Leaves(BundleEffect(folder, name, messages), other)
  {
  }

  /** Dropping the last bundle keeps every other one. */
  lemma InInit(names: seq<BundleName>, n: BundleName)
    requires n in names && n != names[|names| - 1]
    ensures n in names[..|names| - 1]
  {
    var j :| 0 <= j < |names| && names[j] == n;
    assert names[..|names| - 1][j] == n;
  }

  lemma InitMembers(names: seq<BundleName>)
    requires names != []
    ensures forall m :: m in names[..|names| - 1] ==> m in names
  {
  }

  /** After the bundle loop, each bundle's file is treated as that bundle's own sync treats it. */
  lemma {:induction false} SyncAllAt(folder: string, names: seq<BundleName>, catalogs: map<BundleName, map<MessageId, string>>, n: BundleName)
    requires forall m :: m in names ==> m in catalogs
    requires n in names
    ensures SameAt(SyncAll(folder, names, catalogs), BundleEffect(folder, n, catalogs[n]), MessagesFile(folder, n))
  {
    var init, last := names[..|names| - 1], names[|names| - 1];
    var p := MessagesFile(folder, n);
    var e1, e2 := SyncAll(folder, init, catalogs), BundleEffect(folder, last, catalogs[last]);
    BundleEffectFootprint(folder, last, catalogs[last], p);
    if last != n {
      InInit(names, n);
      InitMembers(names);
      SyncAllAt(folder, init, catalogs, n);
      MessagesFileDistinct(folder, n, last);
      ThenAt(e1, e2, p);
      SameAtTransitive(Then(e1, e2), e1, BundleEffect(folder, n, catalogs[n]), p);
    } else {
      ThenOverrides(e1, e2, p);
    }
  }

  /**
   * After a locale is processed, every bundle with a non-empty catalogue has
   * its file holding exactly that catalogue with sorted keys, and every bundle
   * with an empty catalogue has no file: a stale file is removed, never
   * replaced by an empty object.
   */
  lemma LocaleCatalogFile(c: Collection, intlCode: string, rows: seq<Row>, folder: string, files: Files, name: BundleName)
    requires Resolvable(c, intlCode) && name in c.names
    ensures
      var after, p, messages := Apply(LocaleEffect(c, intlCode, rows, folder), files), MessagesFile(folder, name), BundleCatalog(c, intlCode, rows, name);
      && (|messages| > 0 ==> p in after && after[p] == CatalogJson(SortedSet(messages.Keys), messages))
      && (|messages| == 0 ==> p !in after)
  {
    var p, messages := MessagesFile(folder, name), BundleCatalog(c, intlCode, rows, name);
    var bundles := BundlesEffect(c, intlCode, rows, folder, c.names);
    var marker := Effect(map[ReadmeFile(folder) := Marker(ReadmeText)], {});
    SyncAllAt(folder, c.names, LocaleCatalogs(c, intlCode, rows), name);
    MessagesFileDistinct(folder, name, name);
    ThenAt(bundles, marker, p);
    ApplySameAt(LocaleEffect(c, intlCode, rows, folder), BundleEffect(folder, name, messages), files, p);
  }

  /**
   * The README marker is written for a locale exactly when some bundle had a
   * non-empty catalogue; otherwise whatever README was there stays as it was.
   */
  lemma LocaleReadme(c: Collection, intlCode: string, rows: seq<Row>, folder: string, files: Files)
    requires Resolvable(c, intlCode)
    ensures
      var after, readme := Apply(LocaleEffect(c, intlCode, rows, folder), files), ReadmeFile(folder);
      && (AnyCatalog(c, intlCode, rows, c.names) ==> readme in after && after[readme] == Marker(ReadmeText))
      && (!AnyCatalog(c, intlCode, rows, c.names) ==>
            (readme in after <==> readme in files) && (readme in files ==> after[readme] == files[readme]))
  {
    var bundles := BundlesEffect(c, intlCode, rows, folder, c.names);
    SyncAllShape(folder, c.names, LocaleCatalogs(c, intlCode, rows));
    if !AnyCatalog(c, intlCode, rows, c.names) {
      ApplyLeaves(bundles, files, ReadmeFile(folder));
    }
  }

  /** The bundle loop touches no path other than the catalogue files of the bundles in `names`. */
  lemma {:induction false} SyncAllFootprint(folder: string, names: seq<BundleName>, catalogs: map<BundleName, map<MessageId, string>>, path: FilePath)
    requires forall n :: n in names ==> n in catalogs
    ensures (forall n :: n in names ==> path != MessagesFile(folder, n)) ==> Leaves(SyncAll(folder, names, catalogs), path)
  {
    if names != [] && forall n :: n in names ==> path != MessagesFile(folder, n) {
      var init, last := names[..|names| - 1], names[|names| - 1];
      InitMembers(names);
      SyncAllFootprint(folder, init, catalogs, path);
      BundleEffectFootprint(folder, last, catalogs[last], path);
      ThenLeaves(SyncAll(folder, init, catalogs), BundleEffect(folder, last, catalogs[last]), path);
    }
  }

  /**
   * A locale leaves every file that is neither the catalogue file of one of
   * the bundles nor the folder's README marker exactly as it was.
   */
  lemma LocaleFootprint(c: Collection, intlCode: string, rows: seq<Row>, folder: string, files: Files, path: FilePath)
    requires Resolvable(c, intlCode)
    ensures (forall n :: n in c.names ==> path != MessagesFile(folder, n)) && path != ReadmeFile(folder) ==>
      var after := Apply(LocaleEffect(c, intlCode, rows, folder), files);
      (path in after <==> path in files) && (path in files ==> after[path] == files[path])
  {
    if (forall n :: n in c.names ==> path != MessagesFile(folder, n)) && path != ReadmeFile(folder) {
      var bundles := BundlesEffect(c, intlCode, rows, folder, c.names);
      var marker := Effect(map[ReadmeFile(folder) := Marker(ReadmeText)], {});
      SyncAllFootprint(folder, c.names, LocaleCatalogs(c, intlCode, rows), path);
      ThenLeaves(bundles, marker, path);
      ApplyLeaves(LocaleEffect(c, intlCode, rows, folder), files, path);
    }
  }

  /** A locale changes only files in its own folder, and writes no empty catalogue. */
  lemma LocaleEffectShape(c: Collection, intlCode: string, rows: seq<Row>, folder: string)
    requires Resolvable(c, intlCode)
    ensures Within(LocaleEffect(c, intlCode, rows, folder), folder)
    ensures NoEmptyCatalog(LocaleEffect(c, intlCode, rows, folder))
  {
    var bundles := BundlesEffect(c, intlCode, rows, folder, c.names);
    var marker := Effect(map[ReadmeFile(folder) := Marker(ReadmeText)], {});
    SyncAllShape(folder, c.names, LocaleCatalogs(c, intlCode, rows));
    ThenWithin(bundles, marker, folder);
    ThenNoEmptyCatalog(bundles, marker);
  }

  /** A whole run never writes a catalogue file with no entries. */
  lemma {:induction false} RunWritesNoEmptyCatalog(c: Collection, languages: seq<LanguageInfo>, parse: string -> seq<Row>, toLocale: string -> string)
    requires c.WellFormed() && c.Complete()
    ensures NoEmptyCatalog(RunEffect(c, languages, parse, toLocale))
  {
    if languages != [] {
      var init, intlCode := languages[..|languages| - 1], languages[|languages| - 1].intlCode;
      RunWritesNoEmptyCatalog(c, init, parse, toLocale);
      LocaleEffectShape(c, intlCode, parse(intlCode), toLocale(intlCode));
      ThenNoEmptyCatalog(RunEffect(c, init, parse, toLocale), LocaleEffect(c, intlCode, parse(intlCode), toLocale(intlCode)));
    }
  }

  /**
   * Running the conversion a second time on unchanged inputs leaves the files
   * exactly as the first run left them.
   */
  lemma ConvertIsIdempotent(paths: seq<PathInfo>, x: Extractor, languages: seq<LanguageInfo>,
                            parse: string -> seq<Row>, toLocale: string -> string, files: Files)
    ensures
      var e := RunEffect(Collected(Extracted(x, paths)), languages, parse, toLocale);
      Apply(e, Apply(e, files)) == Apply(e, files)
  {
    ApplyTwice(RunEffect(Collected(Extracted(x, paths)), languages, parse, toLocale), files);
  }

  /** Two runs in a row, as a caller would make them. */
  method ConvertTwice(paths: seq<PathInfo>, x: Extractor, languages: seq<LanguageInfo>,
                      parse: string -> seq<Row>, toLocale: string -> string, fs: FileSystem)
    modifies fs
    ensures fs.files == Apply(RunEffect(Collected(Extracted(x, paths)), languages, parse, toLocale), old(fs.files))
  {
    Convert(paths, x, languages, parse, toLocale, fs);
    ghost var once := fs.files;
    Convert(paths, x, languages, parse, toLocale, fs);
    ConvertIsIdempotent(paths, x, languages, parse, toLocale, old(fs.files));
  }
}
