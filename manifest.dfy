/** Manifest loading (lines 90-109 of `execute`) and the switch of the package
    root into a versioned sub-directory (lines 113-117). The JSON and XML
    readers and the JSON writer are foreign code: they are parameters here and
    nothing is assumed about them. */
module Manifest {
  import opened Model

  const JsonFile: string := "pickle.json"
  const XmlFile: string := "package.xml"
  const XmlUnsupportedMessage: string := "XML package are not supported. Please convert it before install"

  /** The foreign readers and writer, on file text. The JSON reader may give
      PHP `null`; the XML reader gives a package; the dumper gives the text it
      writes to `pickle.json`. */
  datatype Readers = Readers(
    json: string -> Option<Package>,
    xml: string -> Package,
    dump: Package -> string)

  /** The file effects of loading, in the order they happen. */
  datatype ManifestOp = LoadJson | LoadXml | DumpJson

  /** `Found`: `$package` holds a package; `NoPackage`: it is still `null`;
      `Unsupported`: the `RuntimeException` of line 98 was thrown. */
  datatype Loaded = Found(package: Package) | NoPackage | Unsupported

  datatype LoadRun = LoadRun(loaded: Loaded, fs: FileSystem, ops: seq<ManifestOp>)

  function JsonPath(path: string, sep: string): string { path + sep + JsonFile }
  function XmlPath(path: string, sep: string): string { path + sep + XmlFile }

  /** Where the manifest comes from, decided by three facts: whether the first
      JSON load produced a package, whether `package.xml` exists, and
      `--no-convert`. */
  datatype Source = Canonical | Rejected | Converted | Absent

  function ChooseSource(jsonYielded: bool, xmlExists: bool, noConvert: bool): (r: Source)
    ensures r == Canonical <==> jsonYielded
    ensures r == Rejected <==> !jsonYielded && noConvert
    ensures r == Converted <==> !jsonYielded && !noConvert && xmlExists
  {
    if jsonYielded then Canonical
    else if noConvert then Rejected
    else if xmlExists then Converted
    else Absent
  }

  /** The load, case by case. */
  function Load(fs: FileSystem, path: string, sep: string, noConvert: bool, rd: Readers): LoadRun
  {
    var jp, xp := JsonPath(path, sep), XmlPath(path, sep);
    var first := if jp in fs.files then rd.json(fs.files[jp]) else None;
    var probe := if jp in fs.files then [LoadJson] else [];
    match ChooseSource(first.Some?, xp in fs.files, noConvert)
    case Canonical => LoadRun(Found(first.value), fs, probe)
    case Rejected => LoadRun(Unsupported, fs, probe)
    case Absent => LoadRun(NoPackage, fs, probe)
    case Converted =>
      var text := rd.dump(rd.xml(fs.files[xp]));
      var again := rd.json(text);
      LoadRun(if again.Some? then Found(again.value) else NoPackage,
              fs.(files := fs.files[jp := text]),
              probe + [LoadXml, DumpJson, LoadJson])
  }

  /** Lines 90-109 as written: `$package` starts `null` and is reassigned by
      each branch that applies. */
  method LoadManifest(fs: FileSystem, path: string, sep: string, noConvert: bool, rd: Readers)
    returns (run: LoadRun)
    ensures run == Load(fs, path, sep, noConvert, rd)
  {
    var jsonPath, xmlPath := path + sep + JsonFile, path + sep + XmlFile;
    var disk := fs;
    var ops: seq<ManifestOp> := [];
    var package: Option<Package> := None;
    if jsonPath in disk.files {
      package := rd.json(disk.files[jsonPath]);
      ops := ops + [LoadJson];
    }
    if package.None? && noConvert {
      return LoadRun(Unsupported, disk, ops);
    }
    if package.None? && xmlPath in disk.files {
      var legacy := rd.xml(disk.files[xmlPath]);
      ops := ops + [LoadXml];
      disk := disk.(files := disk.files[jsonPath := rd.dump(legacy)]);
      ops := ops + [DumpJson];
      package := rd.json(disk.files[jsonPath]);
      ops := ops + [LoadJson];
    }
    run := LoadRun(if package.Some? then Found(package.value) else NoPackage, disk, ops);
  }

  /** What any load may touch: directories never change, and no file but
      `pickle.json` is created or rewritten, only by a conversion. A
      conversion is always the XML load, the dump and the JSON reload, and
      only without `--no-convert`; the first effect is a JSON load exactly
      when `pickle.json` existed. */
  lemma LoadFrame(fs: FileSystem, path: string, sep: string, noConvert: bool, rd: Readers)
    ensures var r := Load(fs, path, sep, noConvert, rd);
      && r.fs.dirs == fs.dirs
      && r.fs.files.Keys <= fs.files.Keys + {JsonPath(path, sep)}
      && (forall k :: k in fs.files && k != JsonPath(path, sep) ==> k in r.fs.files && r.fs.files[k] == fs.files[k])
      && (r.fs != fs ==> DumpJson in r.ops)
      && (JsonPath(path, sep) in fs.files <==> |r.ops| > 0 && r.ops[0] == LoadJson)
      && (LoadXml in r.ops <==> DumpJson in r.ops)
      && (DumpJson in r.ops ==>
            && !noConvert && XmlPath(path, sep) in fs.files
            && |r.ops| >= 3 && r.ops[|r.ops| - 3..] == [LoadXml, DumpJson, LoadJson])
      && (r.loaded.Unsupported? ==> noConvert && LoadXml !in r.ops)
  {
    var r := Load(fs, path, sep, noConvert, rd);
    var jp := JsonPath(path, sep);
    var first := if jp in fs.files then rd.json(fs.files[jp]) else None;
    var probe := if jp in fs.files then [LoadJson] else [];
    if ChooseSource(first.Some?, XmlPath(path, sep) in fs.files, noConvert) == Converted {
      assert r.ops == probe + [LoadXml, DumpJson, LoadJson];
      assert r.ops[|r.ops| - 3..] == [LoadXml, DumpJson, LoadJson];
    } else {
      assert r.fs == fs && r.ops == probe;
    }
  }

  /** A `pickle.json` that loads is used as it is: `package.xml` is never
      read, nothing is written. */
  lemma CanonicalWins(fs: FileSystem, path: string, sep: string, noConvert: bool, rd: Readers)
    requires JsonPath(path, sep) in fs.files && rd.json(fs.files[JsonPath(path, sep)]).Some?
    ensures Load(fs, path, sep, noConvert, rd)
      == LoadRun(Found(rd.json(fs.files[JsonPath(path, sep)]).value), fs, [LoadJson])
  {
  }

  /** Without a usable `pickle.json`, `--no-convert` throws whether or not
      `package.xml` exists, before touching it. */
  lemma NoConvertRejects(fs: FileSystem, path: string, sep: string, rd: Readers)
    requires JsonPath(path, sep) !in fs.files || rd.json(fs.files[JsonPath(path, sep)]).None?
    ensures var run := Load(fs, path, sep, true, rd);
      && run.loaded == Unsupported
      && run.fs == fs
      && LoadXml !in run.ops && DumpJson !in run.ops
  {
  }

  /** Conversion: XML load, then the dump to `pickle.json`, then a JSON load
      of what was written, whose value is the one used. */
  lemma ConversionOrder(fs: FileSystem, path: string, sep: string, rd: Readers)
    requires JsonPath(path, sep) !in fs.files && XmlPath(path, sep) in fs.files
    ensures var text := rd.dump(rd.xml(fs.files[XmlPath(path, sep)]));
      var run := Load(fs, path, sep, false, rd);
      && run.ops == [LoadXml, DumpJson, LoadJson]
      && run.fs == fs.(files := fs.files[JsonPath(path, sep) := text])
      && run.loaded == (if rd.json(text).Some? then Found(rd.json(text).value) else NoPackage)
  {
  }

  /** Neither file: no effect and no dedicated error, `$package` stays null. */
  lemma NeitherFileLeavesNull(fs: FileSystem, path: string, sep: string, rd: Readers)
    requires JsonPath(path, sep) !in fs.files && XmlPath(path, sep) !in fs.files
    ensures Load(fs, path, sep, false, rd) == LoadRun(NoPackage, fs, [])
  {
  }

  /** After a conversion whose reload produced a package, loading the same
      root again reads that `pickle.json` only, gives the same package and
      converts nothing, with or without `--no-convert`. */
  lemma ReloadAfterConversion(fs: FileSystem, path: string, sep: string, noConvert: bool, rd: Readers)
    requires JsonPath(path, sep) !in fs.files && XmlPath(path, sep) in fs.files
    requires Load(fs, path, sep, false, rd).loaded.Found?
    ensures var first := Load(fs, path, sep, false, rd);
      Load(first.fs, path, sep, noConvert, rd) == LoadRun(first.loaded, first.fs, [LoadJson])
  {
  }

  /** `<path><sep><prettyName>-<prettyVersion>`. */
  function VersionedDir(path: string, sep: string, p: Package): string {
    path + sep + p.prettyName + "-" + p.prettyVersion
  }

  /** Lines 113-115: the versioned sub-directory is taken exactly when it
      exists; otherwise the path is left alone. */
  function AdjustRoot(fs: FileSystem, path: string, sep: string, p: Package): (r: string)
    ensures r == VersionedDir(path, sep, p) <==> VersionedDir(path, sep, p) in fs.dirs
    ensures r != VersionedDir(path, sep, p) ==> r == path
  {
    if VersionedDir(path, sep, p) in fs.dirs then VersionedDir(path, sep, p) else path
  }
}
