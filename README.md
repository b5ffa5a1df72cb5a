# miburi — a Dafny model of the OID resolver, the MIB snapshot and the walk annotator

miburi is a command-line tool. It loads MIB modules with gosmi and saves
them as a gob snapshot file. It then answers two kinds of question:
- which MIB object an OID names (`find`);
- what an SNMP agent reports, with each value annotated by its MIB object
  (`walk`).

This project models the core of the `miburi` package and of `main.go`, an
older single-file copy of the same tool:

- `common.dfy` (`Common`): option/result types, bytes, the error kinds,
  `Edition` (`Miburi` for the package, `Legacy` for `main.go`), and string
  helpers (prefix test, `strings.Contains`, `strings.Join`, decimal
  rendering).
- `smi.dfy` (`Smi`): the records `SmiNodeWithIndex`, `SmiEntry` and
  `WalkedNode`, plus the parts of gosmi's node and type that the tool
  reads. It also holds the `"label = value"` enumeration text and its
  loop.
- `normalize.dfy` (`Normalize`): both `normalizeOid` functions.
  - miburi maps `iso.` to `.1.` and forces a leading dot.
  - `main.go` strips one leading dot and maps `iso.` to `1.`.
- `oid_index.dfy` (`OidIndex`): `makeOidMap`, which maps OID strings to
  nodes. The last node inserted wins.
- `resolver.dfy` (`Resolver`): `findNodeByOID`, `find`, and the lookup and
  enumeration join of `exportTextFindedNode`.
  - `FindNodeByOid` keeps the source's loop, which strips the last
    component and retries.
  - It is proved equal to `Resolve`, a reference definition: the node of
    the deepest indexed "cut" of the OID, named with the rest of the OID
    appended.
- `snapshot.dfy` (`Snapshot`): the versioned snapshot envelope
  (`dumpObject`/`restoreObject`, `DBVersion = 1`), `getMIBNames` and
  `loadModules`.
- `legacy.dfy` (`Legacy`): the snapshot of `main.go`, which has no version
  envelope.
- `walk.dfy` (`Walk`): the `BulkWalk` callback of `exportObjectWalkedNode`.
  - The type tag, the value, and the hex rendering of non-UTF-8 octet
    strings.
  - The verbose enrichment.
  - EndOfMibView bindings give no record.
  - A failed walk drops all its records.
  - `walk` concatenates the records of every target OID in order.

Resolving, indexing, loading and annotating are the same code in the
package and in `main.go`, apart from the normaliser. Those operations take
an `Edition` and model both copies:

- `miburi/find.go` lines 9-44 and `main.go` lines 357-392;
- `miburi/find.go` lines 46-67 and `main.go` lines 157-178;
- `miburi/dump.go` lines 68-117 and `main.go` lines 394-445;
- `miburi/walk.go` lines 15-169 and `main.go` lines 180-334.

The only difference in `getMIBNames` is the filter of `main.go:455`.
`main.go` keeps only file names that contain "MIB". `Keeps` models that
filter.

Foreign behaviour comes in as parameters:
- `readDir` stands for `os.ReadDir`.
- `loadModule` and `getModule` stand for gosmi's loader.
- `oidString` stands for gosmi's `Oid.String`.
- The `Codec` stands for gob.
- `FileSystem` holds the files and the paths that cannot be written.
- `BulkWalkResult` holds the bindings an agent delivered and the walk's
  error, if any.
- `Utf8` stands for `utf8.Valid` and `string([]byte)`.

## Model

| member | source | states |
|---|---|---|
| Normalize.NormalizeOid | miburi/miburi.go:129-135 | `iso.` becomes `.1.`; a non-empty input without a leading dot gets one; an empty input or one that starts with a dot is left alone; the result is empty only for empty input and otherwise starts with '.' |
| Normalize.NormalizeIdempotent | miburi/miburi.go:129-135 | normalising an already normalised OID changes nothing |
| Normalize.NormalizeRootAliases | miburi/miburi.go:130-133 | `iso.X`, `1.X` and `.1.X` all normalise to `.1.X` |
| Normalize.NormalizeKeepsSuffix | miburi/miburi.go:129-135 | only a prefix is rewritten: the input (after `iso.` when present) ends the result |
| Normalize.LegacyNormalizeOid | main.go:349-355 | one leading dot is removed, then `iso.` becomes `1.`; any input not starting with `iso.` or `.iso.` loses exactly its one leading dot, if any, and is otherwise unchanged; `iso.X` and `.iso.X` both give `1.X`; the result starts with '.' exactly when the input starts with two dots; it never starts with `iso.` |
| Normalize.LegacyRootAliases | main.go:349-355 | `iso.X`, `.iso.X`, `1.X` and `.1.X` all normalise to `1.X` |
| Normalize.LegacyIdempotent | main.go:349-355 | on inputs not starting with "..", normalising twice equals normalising once |
| Normalize.LegacyNotIdempotent | main.go:350-351 | "..1" gives ".1" and then "1": only one dot is stripped per call |
| OidIndex.MakeOidMap | miburi/find.go:36-44 | the nested loops build the map that inserts every node of every entry in order (`OidMapOf`) |
| OidIndex.IndexKeys | miburi/find.go:38-42 | the key set is exactly the set of OID strings of the inserted nodes |
| OidIndex.IndexWellKeyed | miburi/find.go:38-41 | every key maps to a node whose OID string is that key |
| OidIndex.IndexLastWins | miburi/find.go:38-41 | a node that no later node shares its OID string with is the one stored under that string |
| OidIndex.IndexValueIsLast | miburi/find.go:38-41 | every stored node was inserted, and no later inserted node has its OID string |
| OidIndex.LastEntryWins | miburi/find.go:37-42 | a node of the last module shadows every earlier module's node at the same OID string |
| Resolver.LastIndex | miburi/find.go:21 | `strings.LastIndex`: the position of the last '.', or -1 when there is none |
| Resolver.DeepestHit | miburi/find.go:15-34 | the longest indexed cut of at most k characters: it is a hit, and no longer cut up to k is; None when no cut up to k is |
| Resolver.FindNodeByOid | miburi/find.go:15-34 | the strip-and-retry loop returns exactly `Resolve`: the deepest indexed cut's node, named with the unresolved tail |
| Resolver.ResolveExact | miburi/find.go:20-31 | an indexed OID resolves to its own node and name, with no tail |
| Resolver.ResolveMiss | miburi/find.go:22-29 | the result is ("", zero node) exactly when no cut of the OID is indexed |
| Resolver.ResolveDeepest | miburi/find.go:19-31 | the deepest indexed cut wins, and the rest of the OID is appended to its name |
| Resolver.ResolveShape | miburi/find.go:25-31 | over a well-keyed index a hit returns node s with s + tail == oid, where s is a cut, tail is empty or starts with '.', name == node name + tail, and no longer cut is indexed |
| Resolver.ResolveEmptyMisses | miburi/find.go:20-29 | over a well-keyed index the empty OID never resolves |
| Resolver.ResolveInstance | miburi/find.go:19-31 | an indexed object OID followed by instance components resolves to the object, named with those components appended |
| Resolver.Find | miburi/find.go:9-13 | builds the index, normalises the OID for the edition and resolves it (`FindSpec`) |
| Resolver.FindRootAliases | miburi/find.go:9-13 | in both editions, `iso.X`, `1.X` and `.1.X` give the same answer |
| Resolver.FindIndexedNode | miburi/find.go:9-13 | an unshadowed node whose OID string the normaliser leaves unchanged is found under its own name |
| Resolver.FindLaterModuleWins | miburi/find.go:36-44 | when modules clash on an OID, find answers with the last module's node |
| Resolver.FindHitsOnlyAbsoluteKeys | miburi/find.go:9-13 | miburi can only hit nodes whose OID string starts with '.' |
| Resolver.LegacyFindHitsOnlyRelativeKeys | main.go:357-361 | main.go (on inputs not starting with "..") can only hit nodes whose OID string does not start with '.' |
| Resolver.FindReport | miburi/find.go:46-67 | "not found" exactly when find returns an empty name; otherwise the OID, name and MIB; in verbose mode the type name, the enumeration text when there is an enumeration, the unit when it is non-empty, and the description; a node without a type in verbose mode is the nil dereference |
| Smi.EnumTextAppend | miburi/find.go:55-61 | the enumeration text lists the values in declaration order, separated by ", " |
| Smi.FormatEnum | miburi/find.go:55-61 | the loop yields the "label = value" items joined by ", "; empty for no values, the single item for one value |
| Snapshot.DumpObject | miburi/dump.go:31-47 | encodes {DBVersion, entries}; it succeeds exactly when the envelope encodes and the file is writable; an encode failure gives the encode error and writes nothing, and a failed write gives the I/O error for the file; on success the file holds exactly the encoding and nothing else changes |
| Snapshot.RestoreObject | miburi/dump.go:49-66 | a missing file is an I/O error; undecodable bytes are a decode error; a decoded envelope with a version other than 1 is refused; otherwise its entries |
| Snapshot.DumpRestoreRoundTrip | miburi/dump.go:31-66 | with a lossless codec, restoring what was just dumped gives back the same entries |
| Snapshot.StaleSnapshotRejected | miburi/dump.go:61-63 | a snapshot written with another version is refused with the version error |
| Snapshot.GetMibNames | miburi/dump.go:119-133 | the loop returns `MibNames`: the non-directory names of each listing, in path and listing order, or the first listing error |
| Snapshot.MibNamesFailurePersists | miburi/dump.go:121-125 | once a listing fails, later paths do not change the result |
| Snapshot.MibNamesFirstFailure | miburi/dump.go:121-125 | the first path that cannot be listed decides the error |
| Snapshot.MibNamesPrefixSucceeds | miburi/dump.go:120-132 | when every path can be listed, the result is a success |
| Snapshot.KeptExactly | miburi/dump.go:126-130 | a name is returned exactly when some kept listing entry has that name |
| Snapshot.KeptEditions | main.go:455 | per listing, main.go keeps exactly miburi's names that contain "MIB", in order |
| Snapshot.LegacyMibNamesFilter | main.go:447-461 | main.go's getMIBNames fails exactly when miburi's does, with the same error; otherwise it returns miburi's names filtered to those containing "MIB" |
| Snapshot.WrapNodes | miburi/dump.go:97-105 | one wrapped node per gosmi node, in order, with its rendered OID and the module's name |
| Snapshot.Registered | miburi/dump.go:81-88 | the rename loop keeps one name per listed file |
| Snapshot.LoadModules | miburi/dump.go:68-117 | a listing error is returned as is; otherwise one entry per module gosmi returns, in listed order, after files that load are renamed to their module names |
| Snapshot.LoadedNodesStamped | miburi/dump.go:99-103 | every node of a loaded entry carries its entry's module name and the rendering of its own OID |
| Snapshot.EntriesAtMostModules | miburi/dump.go:90-116 | the entries are, in listed order, one `EntryOf` per module gosmi returns, and no more than the listed modules |
| Snapshot.ReturnedExactly | miburi/dump.go:90-95 | a module is loaded exactly when gosmi returns it for some listed name; the others are skipped |
| Legacy.DumpEntries | main.go:463-478 | encodes the bare entries; it succeeds exactly when they encode and the file is writable; an encode failure gives the encode error and writes nothing, and a failed write gives the I/O error for the file; on success the file holds exactly the encoding |
| Legacy.RestoreEntries | main.go:480-494 | a missing file is an I/O error, undecodable bytes a decode error; otherwise whatever decodes |
| Legacy.LegacyRoundTrip | main.go:463-494 | with a lossless codec, restoring what was just dumped gives back the same entries |
| Legacy.LegacyNeverVersionMismatch | main.go:480-494 | main.go's restore never reports a version mismatch |
| Walk.TypeTagDistinct | miburi/walk.go:93-143 | each known binding type has its own tag; only unknown types share "Unknown" |
| Walk.HexString | miburi/walk.go:100-107 | the loop yields "(hex) " followed by the two-digit hex bytes separated by single spaces |
| Walk.HexLayout | miburi/walk.go:100-107 | byte i sits at offset 3i as two lower-case digits, with single spaces between bytes; length 3n-1 |
| Walk.HexRoundTrip | miburi/walk.go:100-107 | decoding the hex rendering gives back the bytes |
| Walk.TagAndRender | miburi/walk.go:93-143 | the type switch returns the binding's type tag and value text |
| Walk.AnnotatePdu | miburi/walk.go:85-162 | the callback appends exactly the record `Annotation` describes, or nothing for EndOfMibView |
| Walk.AnnotationRecord | miburi/walk.go:86-143 | a record exists exactly when the binding is not EndOfMibView; its OID is the normalised binding name; its name and MIB come from find; its tag and value come from the binding |
| Walk.AnnotationQuiet | miburi/walk.go:145 | unless verbose mode is on and the name resolved, enum, unit and description stay empty |
| Walk.AnnotationVerbose | miburi/walk.go:145-159 | in verbose mode a resolved binding carries the node's description, the enumeration text when its type has an enumeration, and its type's unit |
| Walk.OctetStringValue | miburi/walk.go:94-108 | valid UTF-8 is used as text; anything else is "(hex) " plus a rendering that decodes back to the bytes |
| Walk.RecordOidAbsolute | miburi/walk.go:88 | miburi's records carry a non-empty OID with a leading dot |
| Walk.LegacyRecordOidRelative | main.go:253 | main.go's records carry no leading dot unless the binding name starts with two dots |
| Walk.ExportObjectWalkedNode | miburi/walk.go:83-169 | returns the records of the delivered bindings in order, or nothing when the walk failed |
| Walk.CollectedCount | miburi/walk.go:139-161 | exactly one record per binding that is not EndOfMibView |
| Walk.CollectedAppend | miburi/walk.go:161 | records follow binding order: two stretches of bindings give the records of the first, then those of the second |
| Walk.CollectedPointwise | miburi/walk.go:161 | without EndOfMibView bindings, record i is binding i's annotation |
| Walk.Walk | miburi/walk.go:15-36 | a restore error or a connection error is returned as is; otherwise the records of every target OID, concatenated in target order |
| Walk.WalkedAppend | miburi/walk.go:33-36 | walking two lists of targets gives the first list's records followed by the second's |
| Walk.FailedTargetSkipped | miburi/walk.go:164-167 | a target whose walk failed adds no records |

## Left out

- The command line (`parseArgs`, `Main`, the subcommands) and the printing of results are not modelled. That covers the text, JSON and CSV output of `walk`, `printWalkedNodesAsText` and the `fmt.Printf` lines of `exportTextFindedNode`. `FindReport` returns a value with the printed fields instead of printing them.
- Diagnostics on stdout and stderr ("Load error (skip)", "ModuleTrees Error", the walk error) are not modelled. Only their effect on control flow is.
- gob encoding is an abstract `Codec`. The round-trip lemmas require a lossless codec, which gob is meant to be for these types.
- Files are a `FileSystem` value. The file mode 0644 is not modelled. `files` holds only the readable files, so every `os.ReadFile` failure (missing file, no permission, a directory) is modelled as a file that is not there, with the same I/O error.
- The gosmi loader is not modelled. `gosmi.AppendPath` (global search-path state) is omitted. `LoadModule`, `GetModule`, `GetNodes`, `GetTypes` and `Oid.String` are function parameters, so the model does not decide whether index keys have a leading dot.
- The gosnmp transport is not modelled: connection settings, the timeout, `Connect`, closing, and BulkWalk's requests. A walk is given as the bindings it delivered and its error. A connection failure is an `Option<string>`.
- Walk.PduValue: for the numeric and `%s` types the value text is taken as given (`rendered`). gosnmp's `ToBigInt(...).Int64()` conversion and its string formats are not modelled.
- UTF-8: `utf8.Valid` and the byte-to-string conversion are parameters. UTF-8 itself is not modelled.
- Enumeration values are modelled as `int64`, with `%v` rendered as the decimal text of the integer.
- Resolver.FindReport: verbose mode on a resolved node without a type panics in the source (nil dereference). The model returns `NilTypeDereference` instead of crashing.
- `createDump`, `makeSmiEntries` (a plain call of `restoreObject`) and `exportJson` are not part of this model. `Walk` takes the restore result as a parameter.
