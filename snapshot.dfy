/** The snapshot file of miburi/dump.go and the loading of MIB modules
    that produces its contents.

    The gob codec and the file system are foreign: a codec is a pair of
    total functions (encoding may fail, decoding may fail), and the file
    system is a value holding the files and the paths that cannot be
    written. gosmi's loader is likewise given as functions. */
module Snapshot {
  import opened Common
  import opened Smi

  /** The snapshot format version of this edition. */
  const DBVersion: int := 1

  /** The envelope written to the snapshot file. */
  datatype DBObject = DBObject(version: int, smiEntries: seq<SmiEntry>)

  type Bytes = seq<byte>

  /** A gob encoder/decoder pair for values of type T. */
  datatype Codec<!T> = Codec(encode: T -> Option<Bytes>, decode: Bytes -> Option<T>)

  /** Whatever the codec manages to encode, it decodes back unchanged. */
  ghost predicate Lossless<T(!new)>(codec: Codec<T>) {
    forall x: T :: codec.encode(x).Some? ==> codec.decode(codec.encode(x).value) == Some(x)
  }

  /** The readable files and their contents, and the paths that cannot be
      written. A path that os.ReadFile cannot read, for whatever reason, is
      simply not in `files`. */
  datatype FileSystem = FileSystem(files: map<string, Bytes>, unwritable: set<string>)

  /** os.WriteFile: replaces the whole file, or fails. */
  function WriteFile(fs: FileSystem, name: string, data: Bytes): (r: Result<FileSystem, Error>)
    ensures r.Failure? <==> name in fs.unwritable
    ensures r.Failure? ==> r.error == IOError(name)
    ensures r.Success? ==> r.value == FileSystem(fs.files[name := data], fs.unwritable)
  {
    if name in fs.unwritable then Failure(IOError(name))
    else Success(FileSystem(fs.files[name := data], fs.unwritable))
  }

  /** os.ReadFile: the whole file, or a failure when there is none. */
  function ReadFile(fs: FileSystem, name: string): (r: Result<Bytes, Error>)
    ensures r.Success? <==> name in fs.files
    ensures r.Success? ==> r.value == fs.files[name]
    ensures r.Failure? ==> r.error == IOError(name)
  {
    if name in fs.files then Success(fs.files[name]) else Failure(IOError(name))
  }

  /** dumpObject: encode the entries tagged with DBVersion, then write the
      bytes. An encoding failure returns before anything is written. */
  function DumpObject(codec: Codec<DBObject>, fs: FileSystem, fileName: string, entries: seq<SmiEntry>)
    : (r: Result<FileSystem, Error>)
    ensures codec.encode(DBObject(DBVersion, entries)).None? ==> r == Failure(EncodeError)
    ensures r.Success? ==>
              && codec.encode(DBObject(DBVersion, entries)).Some?
              && r.value == FileSystem(fs.files[fileName := codec.encode(DBObject(DBVersion, entries)).value], fs.unwritable)
    ensures r.Failure? ==>
              r.error == if codec.encode(DBObject(DBVersion, entries)).None? then EncodeError else IOError(fileName)
    ensures r.Success? <==> codec.encode(DBObject(DBVersion, entries)).Some? && fileName !in fs.unwritable
  {
    match codec.encode(DBObject(DBVersion, entries))
    case None => Failure(EncodeError)
    case Some(data) => WriteFile(fs, fileName, data)
  }

  /** restoreObject: read, decode, and refuse any other version. No error
      carries entries. */
  function RestoreObject(codec: Codec<DBObject>, fs: FileSystem, fileName: string)
    : (r: Result<seq<SmiEntry>, Error>)
    ensures fileName !in fs.files ==> r == Failure(IOError(fileName))
    ensures fileName in fs.files && codec.decode(fs.files[fileName]).None? ==> r == Failure(DecodeError)
    ensures fileName in fs.files && codec.decode(fs.files[fileName]).Some? ==>
              var obj := codec.decode(fs.files[fileName]).value;
              r == if obj.version != DBVersion then Failure(VersionMismatch(fileName)) else Success(obj.smiEntries)
  {
    match ReadFile(fs, fileName)
    case Failure(e) => Failure(e)
    case Success(data) =>
      match codec.decode(data)
      case None => Failure(DecodeError)
      case Some(obj) =>
        if obj.version != DBVersion then Failure(VersionMismatch(fileName))
        else Success(obj.smiEntries)
  }

  /** Restoring what was just dumped gives back the same entries. */
  lemma DumpRestoreRoundTrip(codec: Codec<DBObject>, fs: FileSystem, fileName: string, entries: seq<SmiEntry>)
    requires Lossless(codec)
    requires DumpObject(codec, fs, fileName, entries).Success?
    ensures RestoreObject(codec, DumpObject(codec, fs, fileName, entries).value, fileName) == Success(entries)
  {
    var obj := DBObject(DBVersion, entries);
    assert codec.decode(codec.encode(obj).value) == Some(obj);
  }

  /** A snapshot written with any other format version is refused with a
      version error, never partially restored. */
  lemma StaleSnapshotRejected(codec: Codec<DBObject>, fs: FileSystem, fileName: string, version: int, entries: seq<SmiEntry>)
    requires Lossless(codec)
    requires version != DBVersion
    requires codec.encode(DBObject(version, entries)).Some?
    requires fileName in fs.files && fs.files[fileName] == codec.encode(DBObject(version, entries)).value
    ensures RestoreObject(codec, fs, fileName) == Failure(VersionMismatch(fileName))
  {
    var obj := DBObject(version, entries);
    assert codec.decode(codec.encode(obj).value) == Some(obj);
  }

  /** One entry of an os.ReadDir listing. */
  datatype DirEntry = DirEntry(name: string, isDir: bool)

  /** Which listing entries are taken as MIB files: every non-directory in
      miburi; in the legacy copy only those whose name contains "MIB". */
  predicate Keeps(edition: Edition, f: DirEntry) {
    !f.isDir && (edition == Legacy ==> Contains(f.name, "MIB"))
  }

  /** The names of the kept entries of one listing, in listing order. */
  function Kept(edition: Edition, files: seq<DirEntry>): seq<string> {
    if files == [] then []
    else
      var f := files[|files| - 1];
      Kept(edition, files[..|files| - 1]) + (if Keeps(edition, f) then [f.name] else [])
  }

  /** getMIBNames over directory listings given by `readDir`. */
  function MibNames(edition: Edition, paths: seq<string>, readDir: string -> Result<seq<DirEntry>, Error>)
    : Result<seq<string>, Error>
  {
    if paths == [] then Success([])
    else
      match MibNames(edition, paths[..|paths| - 1], readDir)
      case Failure(e) => Failure(e)
      case Success(names) =>
        match readDir(paths[|paths| - 1])
        case Failure(e) => Failure(e)
        case Success(files) => Success(names + Kept(edition, files))
  }

  /** A failure on some prefix of the paths is the failure of the whole. */
  lemma {:induction false} MibNamesFailurePersists(edition: Edition, paths: seq<string>, readDir: string -> Result<seq<DirEntry>, Error>, i: nat)
    requires i <= |paths|
    requires MibNames(edition, paths[..i], readDir).Failure?
    ensures MibNames(edition, paths, readDir) == MibNames(edition, paths[..i], readDir)
    decreases |paths|
  {
    if i < |paths| {
      assert paths[..|paths| - 1][..i] == paths[..i];
      MibNamesFailurePersists(edition, paths[..|paths| - 1], readDir, i);
    } else {
      assert paths[..i] == paths;
    }
  }

  method GetMibNames(edition: Edition, paths: seq<string>, readDir: string -> Result<seq<DirEntry>, Error>)
    returns (r: Result<seq<string>, Error>)
    ensures r == MibNames(edition, paths, readDir)
  {
    var mibs: seq<string> := [];
    for p := 0 to |paths|
      invariant MibNames(edition, paths[..p], readDir) == Success(mibs)
    {
      assert paths[..p + 1][..p] == paths[..p];
      match readDir(paths[p])
      case Failure(e) =>
        MibNamesFailurePersists(edition, paths, readDir, p + 1);
        return Failure(e);
      case Success(files) =>
        ghost var before := mibs;
        assert files[..0] == [];
        for i := 0 to |files|
          invariant mibs == before + Kept(edition, files[..i])
        {
          assert files[..i + 1][..i] == files[..i];
          if Keeps(edition, files[i]) {
            mibs := mibs + [files[i].name];
          }
        }
        assert files[..|files|] == files;
    }
    assert paths[..|paths|] == paths;
    return Success(mibs);
  }

  /** The first directory that cannot be listed decides the error. */
  lemma {:induction false} MibNamesFirstFailure(edition: Edition, paths: seq<string>, readDir: string -> Result<seq<DirEntry>, Error>, i: nat)
    requires i < |paths| && readDir(paths[i]).Failure?
    requires forall j | 0 <= j < i :: readDir(paths[j]).Success?
    ensures MibNames(edition, paths, readDir) == Failure(readDir(paths[i]).error)
  {
    MibNamesPrefixSucceeds(edition, paths[..i], readDir);
    assert paths[..i + 1][..i] == paths[..i];
    MibNamesFailurePersists(edition, paths, readDir, i + 1);
  }

  /** When every directory can be listed, getMIBNames succeeds. */
  lemma {:induction false} MibNamesPrefixSucceeds(edition: Edition, paths: seq<string>, readDir: string -> Result<seq<DirEntry>, Error>)
    requires forall j | 0 <= j < |paths| :: readDir(paths[j]).Success?
    ensures MibNames(edition, paths, readDir).Success?
  {
    if paths != [] {
      MibNamesPrefixSucceeds(edition, paths[..|paths| - 1], readDir);
    }
  }

  /** Every name kept comes from a kept listing entry, and every kept
      entry's name is there. */
  lemma {:induction false} KeptExactly(edition: Edition, files: seq<DirEntry>, name: string)
    ensures name in Kept(edition, files) <==> exists i | 0 <= i < |files| :: files[i].name == name && Keeps(edition, files[i])
  {
    if files != [] {
      var init := files[..|files| - 1];
      KeptExactly(edition, init, name);
      assert forall i | 0 <= i < |init| :: init[i] == files[i];
    }
  }

  /** Only the names containing "MIB". */
  function MibOnly(names: seq<string>): seq<string> {
    if names == [] then []
    else
      var n := names[|names| - 1];
      MibOnly(names[..|names| - 1]) + (if Contains(n, "MIB") then [n] else [])
  }

  lemma {:induction false} MibOnlyAppend(a: seq<string>, b: seq<string>)
    ensures MibOnly(a + b) == MibOnly(a) + MibOnly(b)
    decreases |b|
  {
    if b != [] {
      MibOnlyAppend(a, b[..|b| - 1]);
      assert (a + b)[..|a + b| - 1] == a + b[..|b| - 1];
    } else {
      assert a + b == a;
    }
  }

  lemma {:induction false} KeptEditions(files: seq<DirEntry>)
    ensures Kept(Legacy, files) == MibOnly(Kept(Miburi, files))
  {
    if files != [] {
      var f := files[|files| - 1];
      KeptEditions(files[..|files| - 1]);
      MibOnlyAppend(Kept(Miburi, files[..|files| - 1]), if Keeps(Miburi, f) then [f.name] else []);
    }
  }

  /** The legacy copy lists exactly the files miburi lists whose names
      contain "MIB", in the same order, and fails exactly when miburi does. */
  lemma {:induction false} LegacyMibNamesFilter(paths: seq<string>, readDir: string -> Result<seq<DirEntry>, Error>)
    ensures MibNames(Legacy, paths, readDir).Failure? <==> MibNames(Miburi, paths, readDir).Failure?
    ensures MibNames(Legacy, paths, readDir).Failure? ==>
              MibNames(Legacy, paths, readDir) == MibNames(Miburi, paths, readDir)
    ensures MibNames(Legacy, paths, readDir).Success? ==>
              MibNames(Legacy, paths, readDir).value == MibOnly(MibNames(Miburi, paths, readDir).value)
  {
    if paths != [] {
      var init := paths[..|paths| - 1];
      LegacyMibNamesFilter(init, readDir);
      match MibNames(Miburi, init, readDir)
      case Failure(_) =>
      case Success(names) =>
        match readDir(paths[|paths| - 1])
        case Failure(_) =>
        case Success(files) =>
          KeptEditions(files);
          MibOnlyAppend(names, Kept(Miburi, files));
    }
  }

  /** What gosmi offers for a loaded module: the module, its nodes and its
      types (GetModule, GetNodes, GetTypes). */
  datatype LoadedModule = LoadedModule(smiModule: SmiModule, nodes: seq<SmiNode>, types: seq<SmiType>)

  /** The node-wrapping loop of loadModules: each gosmi node, in order,
      with its OID rendered by `oidString` (gosmi's Oid.String) and stamped
      with the module name. */
  method WrapNodes(m: SmiModule, sminodes: seq<SmiNode>, oidString: seq<nat> -> string)
    returns (nodes: seq<SmiNodeWithIndex>)
    ensures |nodes| == |sminodes|
    ensures forall i | 0 <= i < |nodes| ::
              nodes[i] == SmiNodeWithIndex(sminodes[i], oidString(sminodes[i].oid), m.name)
  {
    nodes := [];
    for i := 0 to |sminodes|
      invariant |nodes| == i
      invariant forall j | 0 <= j < i ::
                  nodes[j] == SmiNodeWithIndex(sminodes[j], oidString(sminodes[j].oid), m.name)
    {
      nodes := nodes + [SmiNodeWithIndex(sminodes[i], oidString(sminodes[i].oid), m.name)];
    }
  }

  function EntryOf(loaded: LoadedModule, oidString: seq<nat> -> string): SmiEntry {
    var m := loaded.smiModule;
    var sminodes := loaded.nodes;
    SmiEntry(m, seq(|sminodes|, i requires 0 <= i < |sminodes| =>
                        SmiNodeWithIndex(sminodes[i], oidString(sminodes[i].oid), m.name)),
             loaded.types)
  }

  /** The first loop of loadModules: a file name that gosmi loads is
      replaced by the module name it was registered under; a file that
      fails to load keeps its file name. */
  function Registered(names: seq<string>, loadModule: string -> Result<string, Error>): (r: seq<string>)
    ensures |r| == |names|
  {
    seq(|names|, i requires 0 <= i < |names| =>
          match loadModule(names[i]) case Success(n) => n case Failure(_) => names[i])
  }

  /** The second loop of loadModules: one entry per module gosmi returns,
      in order; modules it cannot return are skipped. */
  function EntriesOf(modules: seq<string>, getModule: string -> Result<LoadedModule, Error>, oidString: seq<nat> -> string)
    : seq<SmiEntry>
  {
    if modules == [] then []
    else
      EntriesOf(modules[..|modules| - 1], getModule, oidString) +
      match getModule(modules[|modules| - 1])
      case Failure(_) => []
      case Success(loaded) => [EntryOf(loaded, oidString)]
  }

  /** loadModules over gosmi's loader, given as functions. */
  method LoadModules(
    edition: Edition, paths: seq<string>, readDir: string -> Result<seq<DirEntry>, Error>,
    loadModule: string -> Result<string, Error>, getModule: string -> Result<LoadedModule, Error>,
    oidString: seq<nat> -> string)
    returns (r: Result<seq<SmiEntry>, Error>)
    ensures MibNames(edition, paths, readDir).Failure? ==> r == Failure(MibNames(edition, paths, readDir).error)
    ensures MibNames(edition, paths, readDir).Success? ==>
              r == Success(EntriesOf(Registered(MibNames(edition, paths, readDir).value, loadModule), getModule, oidString))
  {
    var listed := GetMibNames(edition, paths, readDir);
    if listed.Failure? {
      return Failure(listed.error);
    }
    var modules := listed.value;
    for i := 0 to |modules|
      invariant |modules| == |listed.value|
      invariant forall j | 0 <= j < i :: modules[j] == Registered(listed.value, loadModule)[j]
      invariant forall j | i <= j < |modules| :: modules[j] == listed.value[j]
    {
      match loadModule(modules[i])
      case Failure(_) =>
      case Success(moduleName) =>
        modules := modules[i := moduleName];
    }
    assert modules == Registered(listed.value, loadModule);
    var smiEntries: seq<SmiEntry> := [];
    for k := 0 to |modules|
      invariant smiEntries == EntriesOf(modules[..k], getModule, oidString)
    {
      assert modules[..k + 1][..k] == modules[..k];
      match getModule(modules[k])
      case Failure(_) =>
      case Success(loaded) =>
        var nodes := WrapNodes(loaded.smiModule, loaded.nodes, oidString);
        assert nodes == EntryOf(loaded, oidString).nodes;
        smiEntries := smiEntries + [SmiEntry(loaded.smiModule, nodes, loaded.types)];
    }
    assert modules[..|modules|] == modules;
    return Success(smiEntries);
  }

  /** Every node of every loaded entry carries its entry's module name and
      the rendering of its own OID. */
  lemma {:induction false} LoadedNodesStamped(
    modules: seq<string>, getModule: string -> Result<LoadedModule, Error>, oidString: seq<nat> -> string,
    e: nat, i: nat)
    requires e < |EntriesOf(modules, getModule, oidString)|
    requires i < |EntriesOf(modules, getModule, oidString)[e].nodes|
    ensures var entry := EntriesOf(modules, getModule, oidString)[e];
            && entry.nodes[i].mib == entry.smiModule.name
            && entry.nodes[i].oidString == oidString(entry.nodes[i].node.oid)
  {
    var init := EntriesOf(modules[..|modules| - 1], getModule, oidString);
    if e < |init| {
      LoadedNodesStamped(modules[..|modules| - 1], getModule, oidString, e, i);
    }
  }

  /** The modules gosmi returns, in listed order. */
  function Returned(modules: seq<string>, getModule: string -> Result<LoadedModule, Error>): seq<LoadedModule> {
    if modules == [] then []
    else
      Returned(modules[..|modules| - 1], getModule) +
      match getModule(modules[|modules| - 1])
      case Failure(_) => []
      case Success(loaded) => [loaded]
  }

  /** The entries are, in order, one per module gosmi returns, and no more
      than the listed modules. */
  lemma {:induction false} EntriesAtMostModules(
    modules: seq<string>, getModule: string -> Result<LoadedModule, Error>, oidString: seq<nat> -> string)
    ensures var loaded := Returned(modules, getModule);
            && |loaded| <= |modules|
            && EntriesOf(modules, getModule, oidString) ==
               seq(|loaded|, i requires 0 <= i < |loaded| => EntryOf(loaded[i], oidString))
  {
    if modules != [] {
      var init := modules[..|modules| - 1];
      EntriesAtMostModules(init, getModule, oidString);
    }
  }

  /** A module is among those returned exactly when gosmi returns it for
      some listed name. */
  lemma {:induction false} ReturnedExactly(modules: seq<string>, getModule: string -> Result<LoadedModule, Error>, loaded: LoadedModule)
    ensures loaded in Returned(modules, getModule) <==>
            exists k | 0 <= k < |modules| :: getModule(modules[k]) == Success(loaded)
  {
    if modules != [] {
      var init := modules[..|modules| - 1];
      ReturnedExactly(init, getModule, loaded);
      assert forall k | 0 <= k < |init| :: init[k] == modules[k];
      if getModule(modules[|modules| - 1]) == Success(loaded) {
        assert Returned(modules, getModule)[|Returned(modules, getModule)| - 1] == loaded;
      }
    }
  }
}
