# NGS native-library loading and BAM record decoding, in Dafny

This project models two parts of the NCBI NGS language bindings.

**Loading the native libraries.** The Java loader (`LibManager`) looks for
the `ncbi-vdb` and `ngs-sdk` shared libraries in an ordered list of
locations. Two places can override that order: the `vdb.loadLibraryLocations`
code string and the `vdb.System.loadLibrary` "just call System.loadLibrary"
switch. The loader remembers where a library was loaded, or saved, in
`~/.ncbi/LibManager.properties` (`LMProperties`). It asks the NCBI
sratoolkit CGI for the latest version and for downloads (`DownloadManager`).
It talks to a child JVM through one stdout line per library,
`LibManager: libname='…' filename='…'`. When loading fails it raises
`LibraryLoadError` or `LibraryTooOldError`. The Python binding has its own
small loader (`LibManager.py`): it tries four directories for a saved
library, and otherwise downloads the library into the first directory that
can take it.

**BAM records.** The header-only C++ reader `bam.hpp` decodes BAM
alignment records. It reads little-endian fields, virtual file positions and
the packed `flag_nc` word. It also provides the 4-bit base sequence, the
reference length a CIGAR covers, and the CIGAR text with optional clipping.
It walks the optional (auxiliary) fields. `BAMFileSlice::Read` filters
records to one reference window.

Modules, one per file:

| file | module | models |
|---|---|---|
| util.dfy | `Util` | Option, prefixes, substring search, splitting on a character |
| lm_properties.dfy | `LMProperties` | the properties cache: keys, set/get/notLoaded, store |
| download.dfy | `Download` | CGI endpoint, query strings, `trim`, latest version, library download |
| platform.dfy | `Platform` | JVM data model, `intString`, `libnameWithDataModel`, `mapLibraryName` |
| lib_manager.dfy | `LibManager` | location codes, known paths, `Latest`, `load`, `loadLibrary` |
| child_protocol.dfy | `ChildProtocol` | the child's stdout line and the parent's pattern match, `main`'s argument pairs |
| load_errors.dfy | `LoadErrors` | `LibraryLoadError`, `LibraryTooOldError` messages |
| bam_bytes.dfy | `BamBytes` | `LE2Host`, 32-bit casts, `BAMFilePosType` |
| bam_record.dfy | `BamRecord` | record layout, accessors, `seq`, `refLen`, mapping flags |
| bam_cigar.dfy | `BamCigar` | `cigarString` and a parser for its output |
| bam_aux.dfy | `BamAux` | `type_size`, `OptionalField::size`/`next`, the field iterator |
| bam_slice.dfy | `BamSlice` | `BAMFileSlice::Read` |
| py_loader.dfy | `PyLoader` | the Python `LibManager.py` loader |

Effects become parameters. These are: system properties (a map), the
file system, `System.load`/`System.loadLibrary`, `cdll.LoadLibrary`, HTTP
POSTs, the package version probes, the path iterator's candidate files and
the version ordering. Each is a function-typed field of an environment
datatype (`LibManager.Env`, `PyLoader.Host`) or a parameter. Objects with
mutable fields become immutable datatypes, and every operation returns the
new state. The Java source has two copies of the properties cache: a
top-level class in `LMProperties.java` and a nested class in
`LibManager.java:171-304`. They have the same logic. The nested copy
computes `bits` itself, from `DetectJVM().intString()`. The model follows
the top-level class, which takes `bits` as an argument.

## Model

| member | source | states |
|---|---|---|
| LMProperties.PathKeyNotVersionKey | ngs-java/gov/nih/nlm/ncbi/ngs/LMProperties.java:94-101 | the `path` and `version` keys of one node are different, so writing one never overwrites the other |
| LMProperties.LoadedSavedDisjoint | ngs-java/gov/nih/nlm/ncbi/ngs/LMProperties.java:94-101 | the four keys of the `loaded` and `saved` nodes of a library are pairwise distinct |
| LMProperties.Create | ngs-java/gov/nih/nlm/ncbi/ngs/LMProperties.java:10-25 | a fresh cache is clean. It has a file path exactly when the NCBI home is known, and that path is the home, the separator and `LibManager.properties`. With a home, the properties are the map read from that file, or none when it cannot be read. Without a home it holds no properties |
| LMProperties.SetProperty | ngs-java/gov/nih/nlm/ncbi/ngs/LMProperties.java:27-35 | storing the value already present changes nothing, not even the dirty flag. Any other store marks the cache dirty and updates that one key. A null value throws and leaves the entries as they were |
| LMProperties.SetPropertyIdempotent | ngs-java/gov/nih/nlm/ncbi/ngs/LMProperties.java:27-35 | setting the same value a second time is a no-op |
| LMProperties.Set | ngs-java/gov/nih/nlm/ncbi/ngs/LMProperties.java:94-101 | after `set`, the node's path key holds the path and its version key holds the version. Every other key is unchanged. The cache is dirty exactly when it was dirty before or one of the two entries changed |
| LMProperties.MarkLoaded | ngs-java/gov/nih/nlm/ncbi/ngs/LMProperties.java:52-53 | recording a load touches only the `loaded` node's two keys |
| LMProperties.MarkSaved | ngs-java/gov/nih/nlm/ncbi/ngs/LMProperties.java:55-56 | recording a save touches only the `saved` node's two keys |
| LMProperties.MarkLoadedKeepsSaved | ngs-java/gov/nih/nlm/ncbi/ngs/LMProperties.java:52-56 | recording a load leaves what a lookup of the `saved` node returns unchanged |
| LMProperties.NotLoaded | ngs-java/gov/nih/nlm/ncbi/ngs/LMProperties.java:45-50 | forgetting a load removes exactly the `loaded` node's keys and marks the cache dirty |
| LMProperties.GetNode | ngs-java/gov/nih/nlm/ncbi/ngs/LMProperties.java:111-137 | the four cases of a node lookup. No version: nothing happens. A version without a path: the orphan version is dropped. A present file older than the latest version: the node is purged. Otherwise the stored path is returned and the cache is untouched |
| LMProperties.Get | ngs-java/gov/nih/nlm/ncbi/ngs/LMProperties.java:103-109 | a lookup never changes the file path or the data model, and any path it returns is the one stored under the `loaded` or the `saved` node of that library |
| LMProperties.GetNodeSettles | ngs-java/gov/nih/nlm/ncbi/ngs/LMProperties.java:111-137 | a node lookup only touches that node. After a miss the version key is gone. Repeating the lookup gives the same answer and changes nothing |
| LMProperties.GetPrefersLoaded | ngs-java/gov/nih/nlm/ncbi/ngs/LMProperties.java:103-109 | a valid `loaded` entry wins, and otherwise the `saved` node decides. Any path returned is one the cache held. Only the library's four keys can change |
| LMProperties.GetIdempotent | ngs-java/gov/nih/nlm/ncbi/ngs/LMProperties.java:103-137 | a second `get` with the same arguments returns the same path and changes nothing further |
| LMProperties.Store | ngs-java/gov/nih/nlm/ncbi/ngs/LMProperties.java:58-90 | a clean cache writes nothing. A dirty cache without a file path fails with the null-path outcome, and only then. A file is written exactly when the cache is dirty, the path and its parent exist (or the parent can be made) and the write succeeds. The written contents are the whole map. The dirty flag clears exactly when something is written |
| LMProperties.StoreTwiceWritesOnce | ngs-java/gov/nih/nlm/ncbi/ngs/LMProperties.java:58-90 | after a successful store, storing again writes nothing |
| LMProperties.StoreReloadRoundTrip | ngs-java/gov/nih/nlm/ncbi/ngs/LMProperties.java:58-90 | a cache re-created from the stored file answers every library lookup as the stored cache does |
| Download.NewCgis | ngs-java/gov/nih/nlm/ncbi/ngs/DownloadManager.java:91-100 | the endpoint is the `/servers/sratookit-cgi` property when set, and the NCBI sratoolkit CGI URL otherwise |
| Download.CgisYieldOnce | ngs-java/gov/nih/nlm/ncbi/ngs/DownloadManager.java:102-109 | the endpoint iterator yields its one endpoint, then null for ever |
| Download.QueryRoundTrip | ngs-java/gov/nih/nlm/ncbi/ngs/DownloadManager.java:73-87 | a request built from `name=value` fields joined by `&` splits back into exactly those fields when no name contains `=` or `&` and no value contains `&` |
| Download.EncodeAppend | ngs-java/gov/nih/nlm/ncbi/ngs/DownloadManager.java:73-87 | the request of two field lists is the two requests joined by `&` |
| Download.OsFields | ngs-java/gov/nih/nlm/ncbi/ngs/DownloadManager.java:70-88 | the OS fields are `os_name` and `bits` (from the JVM data model), then `os_arch` and `os_version` only when those properties are set |
| Download.OsProperties | ngs-java/gov/nih/nlm/ncbi/ngs/DownloadManager.java:70-88 | the OS description fails exactly when `os.name` is missing, and is otherwise the request of the OS fields |
| Download.AppendField | ngs-java/gov/nih/nlm/ncbi/ngs/DownloadManager.java:80-86 | appending `&name=value` to a request is the request of the longer field list |
| Download.OsHeadEncoding | ngs-java/gov/nih/nlm/ncbi/ngs/DownloadManager.java:73-78 | `os_name=…&bits=…` is the request of those two fields |
| Download.OsEncoding | ngs-java/gov/nih/nlm/ncbi/ngs/DownloadManager.java:73-87 | the string the source grows step by step equals the request of its field list, for every choice of optional fields |
| Download.OsPropertiesEncoding | ngs-java/gov/nih/nlm/ncbi/ngs/DownloadManager.java:70-88 | `osProperties()`'s concatenated string is the encoding of the OS fields |
| Download.CmdVersionEncoding | ngs-java/gov/nih/nlm/ncbi/ngs/DownloadManager.java:43 | `cmd=lib&version=1.0` is the request of those two fields |
| Download.LibHeadEncoding | ngs-java/gov/nih/nlm/ncbi/ngs/DownloadManager.java:43 | the library request's head is the request of the `cmd`, `version` and `libname` fields |
| Download.LibRequestFields | ngs-java/gov/nih/nlm/ncbi/ngs/DownloadManager.java:42-46 | the full library request decodes to the head fields followed by the OS fields, in order |
| Download.Trim | ngs-java/gov/nih/nlm/ncbi/ngs/DownloadManager.java:28 | `String.trim`: the result is a substring with no blank at either end, and everything cut off around it is blank (a code unit at or below space) |
| Download.LatestFrom | ngs-java/gov/nih/nlm/ncbi/ngs/DownloadManager.java:14-39 | there is no answer exactly when every endpoint fails. Otherwise the answer is the trimmed reply of the first endpoint that answered |
| Download.GetLatestVersion | ngs-java/gov/nih/nlm/ncbi/ngs/DownloadManager.java:14-39 | with the single configured endpoint, the latest version is its trimmed reply to `cmd=vers&libname=…`, or none |
| Download.DownloadLib | ngs-java/gov/nih/nlm/ncbi/ngs/DownloadManager.java:42-68 | without `os.name` nothing is posted and the result is FAILED. Otherwise endpoints are tried in order while they answer other codes. SUCCESS means the last one answered 200 and UNSUPPORTED_OS means it answered 412. FAILED happens exactly when every endpoint was tried and none answered 200 or 412 |
| Platform.IntString | ngs-java/gov/nih/nlm/ncbi/ngs/LibManager.java:84-85 | only `b32` prints as "32". Both `b64` and an unknown data model print as "64" |
| Platform.DetectFrom | ngs-java/gov/nih/nlm/ncbi/ngs/LibManager.java:531-549 | the first property that is set decides the data model: 64-bit exactly when it contains "64". The model is unknown exactly when none of them is set |
| Platform.DetectJVM | ngs-java/gov/nih/nlm/ncbi/ngs/LibManager.java:531-549 | the data model is unknown exactly when none of the three properties is set |
| Platform.DetectJVMCases | ngs-java/gov/nih/nlm/ncbi/ngs/LibManager.java:533-548 | `sun.arch.data.model` takes priority over `com.ibm.vm.bitmode`, which takes priority over `os.arch` |
| Platform.LibnameWithDataModel | ngs-java/gov/nih/nlm/ncbi/ngs/LibManager.java:577-592 | the suffixed name is absent exactly when the data model is unknown. Otherwise it is the name followed by `-32` or `-64` |
| Platform.MapLibraryName | ngs-java/gov/nih/nlm/ncbi/ngs/LibManager.java:503-528 | the platform-mapped names come first. On Mac OS X the same names follow again with `.dylib` appended, in the same order |
| LibManager.CodeRoundTrip | ngs-java/gov/nih/nlm/ncbi/ngs/LibManager.java:616-640 | the letters `CJKLNTW` and the locations they select correspond one to one. Every other letter selects nothing |
| LibManager.SelectedAppend | ngs-java/gov/nih/nlm/ncbi/ngs/LibManager.java:615-642 | the locations a code string selects are those of its parts, in order |
| LibManager.SelectedLetter | ngs-java/gov/nih/nlm/ncbi/ngs/LibManager.java:616-640 | one letter selects at most one location, and never LATEST_PATH or CFG |
| LibManager.GetLocationProperty | ngs-java/gov/nih/nlm/ncbi/ngs/LibManager.java:595-645 | no property, or one without a known letter, gives null. Otherwise the result lists one location per known letter, in order |
| LibManager.FirstFree | ngs-java/gov/nih/nlm/ncbi/ngs/LibManager.java:1144-1149 | the scan stops at the first null slot, or at the end when every slot is taken |
| LibManager.FirstFreeAt | ngs-java/gov/nih/nlm/ncbi/ngs/LibManager.java:1144-1149 | the first free index is the only index with every earlier slot taken and its own slot free |
| LibManager.UpdateKnownLibPath | ngs-java/gov/nih/nlm/ncbi/ngs/LibManager.java:1135-1161 | a first call makes 9 slots holding the path first. Otherwise the path goes into the first free slot, and a full array doubles first. Every other slot keeps its entry |
| LibManager.UpdateAppends | ngs-java/gov/nih/nlm/ncbi/ngs/LibManager.java:1135-1161 | seen as a list, a packed array with the path added is still packed and lists the old paths followed by the new one |
| LibManager.KnownMatch | ngs-java/gov/nih/nlm/ncbi/ngs/LibManager.java:795-804 | the chosen path is the first recorded path containing the library name. There is none exactly when no recorded path contains it |
| LibManager.NewManager | ngs-java/gov/nih/nlm/ncbi/ngs/LibManager.java:321-359 | the search order is the given one or the declaration order. Smart search is off exactly when an earlier instance turned the static flag of line 53 on or `vdb.System.loadLibrary` is set. With smart search off, without libraries or with `vdb.deleteLibraries`, the memos start empty and the cache is untouched. Otherwise only the libraries checked can gain a reported path, the store at the end leaves the cache clean when the file can be written, and the constructor throws only when the home directory is unknown |
| LibManager.LatestGet | ngs-java/gov/nih/nlm/ncbi/ngs/LibManager.java:125-137 | a memoised version is returned without asking. A fresh answer is returned and memoised. No answer leaves the memo as it was |
| LibManager.LatestMemoised | ngs-java/gov/nih/nlm/ncbi/ngs/LibManager.java:125-137 | once a version is known, later lookups return it whatever the remote would say now |
| LibManager.Current | ngs-java/gov/nih/nlm/ncbi/ngs/LibManager.java:648-665 | only `ncbi-vdb` and `ngs-sdk` have a version, and every other name gives null. A probe that throws `ErrorMsg` or `UnsatisfiedLinkError` gives "0". Any other throwable escapes, exactly when the name is one of the two |
| LibManager.Record | ngs-java/gov/nih/nlm/ncbi/ngs/LibManager.java:668-699 | a load counts as recorded exactly when the library has a version. When the version probe throws something `current` does not catch, nothing is recorded and the manager is unchanged. Otherwise the path is stored in the `loaded` node, the version next to it when there is one, and nothing else in the manager changes |
| LibManager.OnlyKnownPackagesRecord | ngs-java/gov/nih/nlm/ncbi/ngs/LibManager.java:648-675 | a load counts as successful only for `ncbi-vdb` or `ngs-sdk`, because recording any other name throws |
| LibManager.SystemLoad | ngs-java/gov/nih/nlm/ncbi/ngs/LibManager.java:668-683 | loading a file succeeds exactly when the file exists, `System.load` accepts it and the load can be recorded. The manager is unchanged when the file is absent or `System.load` fails |
| LibManager.SystemLoadLibrary | ngs-java/gov/nih/nlm/ncbi/ngs/LibManager.java:686-706 | `System.loadLibrary` succeeds and is recorded exactly when the loader accepts the name and the version can be recorded. The manager is unchanged when the loader refuses the name |
| LibManager.TryLibPath | ngs-java/gov/nih/nlm/ncbi/ngs/LibManager.java:746-760 | LIBPATH finds the plain name, or else (with smart search on) the data-model name, and reports which one. With smart search off, a failure stops the whole search |
| LibManager.LoadRemembered | ngs-java/gov/nih/nlm/ncbi/ngs/LibManager.java:775-783 | a remembered name that starts with the library name goes to `System.loadLibrary`, and any other goes to `System.load` as a file path |
| LibManager.TryLatestPath | ngs-java/gov/nih/nlm/ncbi/ngs/LibManager.java:764-783 | LATEST_PATH is skipped when no child reported a path, and otherwise tries the reported path |
| LibManager.TryCfg | ngs-java/gov/nih/nlm/ncbi/ngs/LibManager.java:769-787 | CFG consults the latest version (memoised) and the cache. A remembered path that fails to load is forgotten through `notLoaded` |
| LibManager.FirstLoad | ngs-java/gov/nih/nlm/ncbi/ngs/LibManager.java:813-823 | the first candidate file that loads wins. Nothing is found exactly when no candidate loads |
| LibManager.TrySearch | ngs-java/gov/nih/nlm/ncbi/ngs/LibManager.java:789-825 | KNOWN_PATH is skipped before any download. A recorded path containing the name is the only candidate. Otherwise the mapped names are searched |
| LibManager.TryLocation | ngs-java/gov/nih/nlm/ncbi/ngs/LibManager.java:738-826 | only forced mode can stop the search. In forced mode every location behaves as LIBPATH |
| LibManager.LoadFrom | ngs-java/gov/nih/nlm/ncbi/ngs/LibManager.java:736-830 | an empty location list finds nothing and changes nothing |
| LibManager.LoadFromAppend | ngs-java/gov/nih/nlm/ncbi/ngs/LibManager.java:738-827 | the search over two lists of locations is the search over the first, then, only if that found nothing and did not stop, the search over the second |
| LibManager.LoadFromSingle | ngs-java/gov/nih/nlm/ncbi/ngs/LibManager.java:738-827 | searching one location is trying that location |
| LibManager.ForcedLoadsOnce | ngs-java/gov/nih/nlm/ncbi/ngs/LibManager.java:739-752 | with smart search off, the search makes one `System.loadLibrary(libname)` call, whatever the locations, and never falls through |
| LibManager.LoadFromFirstDecisive | ngs-java/gov/nih/nlm/ncbi/ngs/LibManager.java:738-827 | the search passes on exactly when every location passes on in turn. Otherwise its result is the try at the first location that did not pass on |
| LibManager.FirstDecisiveUnique | ngs-java/gov/nih/nlm/ncbi/ngs/LibManager.java:738-827 | at most one location is the first that does not pass on |
| LibManager.Load | ngs-java/gov/nih/nlm/ncbi/ngs/LibManager.java:736-830 | `load` returns a name exactly when some location finds it after every earlier location passed on, with the state each earlier try left. It returns null exactly when every location passes on or the first one that does not pass on stops the search |
| LibManager.LoadLibrary | ngs-java/gov/nih/nlm/ncbi/ngs/LibManager.java:451-485 | success is a first load, or (with smart search on) a successful download followed by a successful second load. The properties are stored once at the end, from the state of the last step taken. The call throws exactly when that store meets a dirty cache without a file path |
| LibManager.LoadLibraryStores | ngs-java/gov/nih/nlm/ncbi/ngs/LibManager.java:482 | when the cache has a file path and the file system lets the store succeed, the call returns and the cache is clean afterwards |
| LibManager.LoadLibraryThrowsOnlyWithoutHome | ngs-java/gov/nih/nlm/ncbi/ngs/LibManager.java:451-485 | with a file path the call always returns. Without one, a first load that dirtied the cache makes the call throw although the library was loaded |
| LibManager.LaunchLibCheck | ngs-java/gov/nih/nlm/ncbi/ngs/LibManager.java:1027-1107 | a cache hit for the latest version, or a child that cannot be run, leaves the reported paths alone. Otherwise the last child line that reports the library decides its path, and without such a line nothing changes. Only that library's entry can change |
| LibManager.ReadLinesMeaning | ngs-java/gov/nih/nlm/ncbi/ngs/LibManager.java:1085-1102 | reading the child's lines changes nothing when none reports the library, and otherwise records the path of the last line that does |
| LibManager.CheckAll | ngs-java/gov/nih/nlm/ncbi/ngs/LibManager.java:345-354 | the constructor's loop adds reported paths only for the libraries it checks, and keeps every other entry |
| LibManager.NewManagerRecordsChildReport | ngs-java/gov/nih/nlm/ncbi/ngs/LibManager.java:321-359 | for one library that the cache cannot answer, the new manager's reported paths hold exactly the path of the child's last line about it |
| ChildProtocol.DropFinalTerminator | ngs-java/gov/nih/nlm/ncbi/ngs/LibManager.java:1087-1088 | `$` matches before one final line terminator: the matched body is the line less at most that terminator |
| ChildProtocol.LastOccurrence | ngs-java/gov/nih/nlm/ncbi/ngs/LibManager.java:1087-1091 | the greedy first group ends at the last occurrence of the separator in range |
| ChildProtocol.ConstantChars | ngs-java/gov/nih/nlm/ncbi/ngs/LibManager.java:1201-1202 | the printed prefix and separator contain no line terminator, and the separator holds quotes only at its ends |
| ChildProtocol.UnframedParts | ngs-java/gov/nih/nlm/ncbi/ngs/LibManager.java:1087-1095 | whatever the pattern extracts, the body is prefix, name, separator, path and a closing quote, and neither part holds a terminator |
| ChildProtocol.ParsedLinePrints | ngs-java/gov/nih/nlm/ncbi/ngs/LibManager.java:1087-1095 | every line the parent accepts is, less its terminator, exactly the line the child would print for the extracted pair |
| ChildProtocol.FramedNoTerminator | ngs-java/gov/nih/nlm/ncbi/ngs/LibManager.java:1201-1202 | a child line built from terminator-free parts has no terminator |
| ChildProtocol.UnframeFramed | ngs-java/gov/nih/nlm/ncbi/ngs/LibManager.java:1087-1095 | matching a framed line gives back its name and path when the path holds no quote |
| ChildProtocol.MainLineRoundTrip | ngs-java/gov/nih/nlm/ncbi/ngs/LibManager.java:1201-1202 | the parent's pattern reads back exactly the library name and file name the child printed, given no terminators and no quote in the path |
| ChildProtocol.ReadLine | ngs-java/gov/nih/nlm/ncbi/ngs/LibManager.java:1085-1102 | a line is echoed exactly when it does not match. A match records its path under the requested name exactly when the reported name starts with it, and otherwise changes nothing |
| ChildProtocol.ChildToParent | ngs-java/gov/nih/nlm/ncbi/ngs/LibManager.java:1085-1102 | a child's line is never echoed. It records the path under the requested name when the reported name starts with it, and is ignored otherwise |
| ChildProtocol.ReadLines | ngs-java/gov/nih/nlm/ncbi/ngs/LibManager.java:1085-1102 | reading the child's output can only add or replace the requested library's entry |
| ChildProtocol.ReadLinesNoReport | ngs-java/gov/nih/nlm/ncbi/ngs/LibManager.java:1085-1102 | output without a line that reports the library leaves the paths unchanged |
| ChildProtocol.ReadLinesKeepsLast | ngs-java/gov/nih/nlm/ncbi/ngs/LibManager.java:1085-1102 | the last line that reports the library decides its recorded path |
| ChildProtocol.LastLineReports | ngs-java/gov/nih/nlm/ncbi/ngs/LibManager.java:1085-1102 | a final line that reports the library records its path, whatever came before |
| ChildProtocol.ReadLineStep | ngs-java/gov/nih/nlm/ncbi/ngs/LibManager.java:1085-1102 | one line records its path exactly when it reports the library, and changes nothing otherwise |
| ChildProtocol.ArgPairs | ngs-java/gov/nih/nlm/ncbi/ngs/LibManager.java:1193-1198 | the arguments form ceil(n/2) library/version pairs |
| ChildProtocol.ArgPairsRoundTrip | ngs-java/gov/nih/nlm/ncbi/ngs/LibManager.java:1193-1198 | flattening the pairs restores the argument list, and only the last pair can lack a version |
| ChildProtocol.MainOutput | ngs-java/gov/nih/nlm/ncbi/ngs/LibManager.java:1190-1206 | `main` prints one protocol line for each library whose check produced a path, in argument order, and no other line |
| ChildProtocol.PrintedSnoc | ngs-java/gov/nih/nlm/ncbi/ngs/LibManager.java:1193-1203 | one more library extends the printed lines by its line exactly when its check produced a path |
| LoadErrors.GenerateMsg | ngs-java/gov/nih/nlm/ncbi/ngs/error/LibraryLoadError.java:67-77 | without a cause the message is unchanged. With one, the cause's message follows after ", ", and a recommendation follows on its own line |
| LoadErrors.NewLoadError | ngs-java/gov/nih/nlm/ncbi/ngs/error/LibraryLoadError.java:35-40 | the two-argument constructor needs a cause. Its full message carries the cause's recommendation, and the error message does not |
| LoadErrors.NewLoadErrorWith | ngs-java/gov/nih/nlm/ncbi/ngs/error/LibraryLoadError.java:42-46 | the three-argument constructor uses the given recommendation and leaves the error message null |
| LoadErrors.GetRecommendation | ngs-java/gov/nih/nlm/ncbi/ngs/error/LibraryLoadError.java:63-65 | the recommendation is the cause's, and asking without a cause fails |
| LoadErrors.MessageSplitsIntoParts | ngs-java/gov/nih/nlm/ncbi/ngs/error/LibraryLoadError.java:35-40 | the full message is the error message, plus the recommendation on a new line when there is one. With single-line parts, splitting at the first newline recovers both |
| LoadErrors.RecommendationFromCause | ngs-java/gov/nih/nlm/ncbi/ngs/error/LibraryLoadError.java:42-65 | `getRecommendation` reports the cause's recommendation even when the constructor was given another |
| LoadErrors.PathLinesAppend | ngs-java/gov/nih/nlm/ncbi/ngs/error/LibraryTooOldError.java:19-21 | each further path adds one line to the end of the message |
| LoadErrors.TooOldMsg | ngs-java/gov/nih/nlm/ncbi/ngs/error/LibraryTooOldError.java:17-23 | the message is the header line followed by one line per outdated path. With no paths it is the header alone |
| LoadErrors.TooOldLinesRoundTrip | ngs-java/gov/nih/nlm/ncbi/ngs/error/LibraryTooOldError.java:17-23 | with single-line parts, splitting the message at newlines gives the header and then exactly the paths |
| LoadErrors.NewTooOldError | ngs-java/gov/nih/nlm/ncbi/ngs/error/LibraryTooOldError.java:8-15 | the error keeps the path list, so `getOutdateLibPaths` returns it, and its message lines are the header followed by that list |
| BamBytes.LEBound | ngs-bam/bam.hpp:38-57 | n little-endian bytes hold a value below 256^n |
| BamBytes.DecodeEncode | ngs-bam/bam.hpp:38-57 | encoding a value that fits and decoding it gives the value back |
| BamBytes.EncodeDecode | ngs-bam/bam.hpp:38-57 | decoding bytes and re-encoding at the same width gives the bytes back |
| BamBytes.LE4 | ngs-bam/bam.hpp:38-57 | a 4-byte value is b0 + 2^8 b1 + 2^16 b2 + 2^24 b3 |
| BamBytes.HighFirstIsLE | ngs-bam/bam.hpp:49-55 | shifting in bytes from the highest down gives the little-endian value |
| BamBytes.LE2HostSwapped | ngs-bam/bam.hpp:49-55 | the big-endian host's loop computes the same value a little-endian host reads directly |
| BamBytes.Int32 | ngs-bam/bam.hpp:151-160 | the two's-complement reading of a 32-bit word is negative exactly when the top bit is set |
| BamBytes.Int32RoundTrip | ngs-bam/bam.hpp:488-489 | casting `int32_t` to `unsigned` and back is the identity in both directions |
| BamBytes.ReadInt32 | ngs-bam/bam.hpp:151-160 | a signed field is negative exactly when its last byte's high bit is set |
| BamBytes.Wrap32 | ngs-bam/bam.hpp:275-276 | a C `int` result is a 32-bit two's-complement value, and a value already in range is kept |
| BamBytes.Wrap32Congruent | ngs-bam/bam.hpp:275-276 | wrapping changes a value by a multiple of 2^32 |
| BamBytes.FilePosParts | ngs-bam/bam.hpp:59-69 | a virtual position is `fpos` shifted left 16 plus `bpos`. It has a value exactly when either part is non-zero, and splitting and rebuilding gives it back |
| BamBytes.ReadFilePos | ngs-bam/bam.hpp:78-82 | a virtual position read from 8 bytes is a valid 64-bit value |
| BamRecord.SWord | ngs-bam/bam.hpp:151-160 | the signed accessors read 32-bit two's-complement values, negative exactly when the high byte's top bit is set |
| BamRecord.FlagNcBytes | ngs-bam/bam.hpp:155-156 | `flag` is bytes 14-15 and `nc` is bytes 12-13 of the record, each below 2^16, and the word is their combination |
| BamRecord.LayoutOrdered | ngs-bam/bam.hpp:129-140 | read name, CIGAR, packed bases, qualities and extra fields follow in that order inside the record, with the sizes the counts announce |
| BamRecord.Ops | ngs-bam/bam.hpp:162-164 | the CIGAR has `nc` 32-bit ops, op i read at offset 4i after the read name |
| BamRecord.Seq | ngs-bam/bam.hpp:165-171 | a base is always one of the 16 letters of `=ACMGRSVTWYHKDBN` |
| BamRecord.PackAt | ngs-bam/bam.hpp:165-171 | in packed 4-bit codes, even positions are the high nibble and odd positions the low one |
| BamRecord.SeqUnpacks | ngs-bam/bam.hpp:165-171 | `seq(i)` returns the letter of the i-th packed code, so unpacking inverts packing |
| BamRecord.RefSpanAppend | ngs-bam/bam.hpp:175-193 | the reference span of two op lists is the sum of their spans |
| BamRecord.RefSpanOnlyConsuming | ngs-bam/bam.hpp:183-190 | only M, D, N, = and X ops add their length, so a CIGAR without them spans nothing |
| BamRecord.RefLen | ngs-bam/bam.hpp:175-193 | `refLen` is the total length of the reference-consuming ops, wrapped to 32 bits |
| BamRecord.LowFlagBits | ngs-bam/bam.hpp:194-201 | the flag's bits 0x1, 0x4 and 0x8 are bits of byte 14 |
| BamRecord.SelfMappedBytes | ngs-bam/bam.hpp:194-196 | a record is self-mapped exactly when the unmapped bit is clear, `refID` and `pos` are non-negative and it has a CIGAR op |
| BamRecord.MateMappedBytes | ngs-bam/bam.hpp:197-201 | the mate is mapped exactly when the record is paired, the mate-unmapped bit is clear and the mate's reference and position are non-negative |
| BamRecord.IsSelfMapped | ngs-bam/bam.hpp:194-196 | a self-mapped record has a non-negative reference and position, which the slice's `unsigned` casts keep, and at least one CIGAR op |
| BamRecord.IsMateMapped | ngs-bam/bam.hpp:197-201 | a mate-mapped record is paired, and its mate's reference and position survive the `unsigned` casts |
| BamCigar.Runs | ngs-bam/bam.hpp:212-236 | adjacent ops with the same letter merge into one run. There are no more runs than ops, and none only when there are no ops |
| BamCigar.ExtendMerge | ngs-bam/bam.hpp:219-222 | adding an op keeps neighbouring runs distinct and adds its length to the total |
| BamCigar.RunsMerge | ngs-bam/bam.hpp:212-236 | after merging, no two neighbouring runs share a letter and the run lengths sum to the op lengths |
| BamCigar.Decimal | ngs-bam/bam.hpp:229-233 | every length prints as a non-empty run of decimal digits |
| BamCigar.Digits | ngs-bam/bam.hpp:229-233 | the digit loop produces the decimal text of the length |
| BamCigar.DecimalValue | ngs-bam/bam.hpp:229-233 | reading the printed digits back gives the length |
| BamCigar.AppendOp | ngs-bam/bam.hpp:215-235 | one loop step keeps the text, last letter, last length and last size in step with the merged runs |
| BamCigar.CigarOfOps | ngs-bam/bam.hpp:203-239 | the loop's text is that of the merged runs with the clipping rules. No ops gives the empty string |
| BamCigar.CigarString | ngs-bam/bam.hpp:203-239 | a record's CIGAR text is the text of its ops. A record without ops gives the empty string |
| BamCigar.OutIsRender | ngs-bam/bam.hpp:234-235 | inside the loop, clipping only drops the leading clip runs |
| BamCigar.ParseRender | ngs-bam/bam.hpp:203-239 | CIGAR text parses back into exactly the runs it was printed from |
| BamCigar.ClippedReadsBack | ngs-bam/bam.hpp:203-239 | the corrected clipped text parses back, and with clipping it starts and ends with a non-clip run. Without clipping it equals the original text and parses to the merged runs |
| BamCigar.TrailingClipsKept | ngs-bam/bam.hpp:237-238 | for `10M5S3H` the clipped text is `10M5S`, while the corrected text is `10M` |
| BamAux.TypeSize | ngs-bam/bam.hpp:252-268 | an element is 1, 2 or 4 bytes wide, or its type is unknown (-1) |
| BamAux.TypeSizeFixed | ngs-bam/bam.hpp:252-268 | the corrected width table (with `f`) has the same range |
| BamAux.NulFrom | ngs-bam/bam.hpp:283-287 | the string scan stops only on a NUL byte at or after the value and before the buffer end |
| BamAux.NulFromFirst | ngs-bam/bam.hpp:283-287 | the NUL found is the first one, and finding none means there is no NUL before the buffer end |
| BamAux.Next | ngs-bam/bam.hpp:294-299 | `next` moves forward by the field size when it is positive, and gives null otherwise |
| BamAux.Size | ngs-bam/bam.hpp:270-293 | a positive size of an array or text field, or of any field under the corrected end check, never runs past the buffer |
| BamAux.SizeFails | ngs-bam/bam.hpp:270-293 | a scalar field fails exactly when its type is unknown (or, corrected, it runs past the buffer). A text field fails exactly when no NUL follows before the end |
| BamAux.ArrayLengthWraps | ngs-bam/bam.hpp:275-276 | a `B:I` array announcing 2^30 elements has a byte length that wraps to 0 in C `int`, so its size is 8 whatever follows |
| BamAux.Advance | ngs-bam/bam.hpp:341-347 | the iterator always moves forward from inside the buffer and stays put at its end |
| BamAux.SizeOfEncoded | ngs-bam/bam.hpp:270-293 | the size of a well-formed field is the length of its encoding, whatever follows it |
| BamAux.SizeOfScalar | ngs-bam/bam.hpp:289-292 | a scalar field is 3 bytes plus its value |
| BamAux.SizeOfText | ngs-bam/bam.hpp:282-288 | a `Z`/`H` field is 3 bytes plus the string and its NUL |
| BamAux.SizeOfArray | ngs-bam/bam.hpp:271-281 | a `B` field is 8 bytes plus count times element width |
| BamAux.ProgressFixed | ngs-bam/bam.hpp:341-347 | with the end check in the scalar branch, each step stays within the buffer |
| BamAux.WalkEncoded | ngs-bam/bam.hpp:362-367 | from `begin()`, `k` increments over well-formed fields reach the start of field `k`, each inside the record, and one increment per field reaches `end()` |
| BamAux.StepAt | ngs-bam/bam.hpp:341-347 | one increment from the start of a well-formed field lands on the start of the next field |
| BamAux.TruncatedScalarOvershoots | ngs-bam/bam.hpp:289-292 | a 4-byte `i` field cut to one value byte makes the iterator jump past the end and stay there, never reaching `end()` |
| BamAux.OvershootOnlyFromScalar | ngs-bam/bam.hpp:341-347 | the only way the iterator passes the end is a scalar field longer than the bytes left |
| BamAux.FloatFieldStops | ngs-bam/bam.hpp:261-264 | a `f` field stops the iteration at the end of the buffer, while the corrected table steps over it |
| BamSlice.Read | ngs-bam/bam.hpp:477-503 | `Read` returns the first record that is taken, after only skipped ones. It returns null at the first stop or when the parent runs out |
| BamSlice.Judge | ngs-bam/bam.hpp:484-500 | a taken record is self-mapped on the slice's reference and starts before its end. A skipped self-mapped record is on that reference and before that end too |
| BamSlice.TakeIsOverlap | ngs-bam/bam.hpp:484-500 | without wrap-around, a record is taken exactly when it is mapped to the slice's reference and its span `[pos, pos+refLen)` overlaps `[start, end)` |
| BamSlice.StopOnlyOutside | ngs-bam/bam.hpp:484-494 | only a mapped record on another reference, or at or after `end`, stops the slice. Unmapped records are always skipped |
| PyLoader.OsBits | ngs-python/build/lib/ngs/LibManager.py:47-50 | only `AMD64` and `x86_64` are 64-bit and only `i386` and `x86` are 32-bit. Every other machine is unknown |
| PyLoader.BitsText | ngs-python/build/lib/ngs/LibManager.py:101 | the bits parameter is "None" exactly when the machine is unknown |
| PyLoader.LibExtension | ngs-python/build/lib/ngs/LibManager.py:158-167 | `.dll` exactly on Windows and `.so` exactly on Linux. Darwin and every other system get no extension |
| PyLoader.LibFilenameRoundTrip | ngs-python/build/lib/ngs/LibManager.py:52-53 | the library name can be read back from its file name, so different names never share a file |
| PyLoader.PostOsName | ngs-python/build/lib/ngs/LibManager.py:151-156 | the system name is sent unchanged except that Darwin is sent as Mac |
| PyLoader.PostParamsFields | ngs-python/build/lib/ngs/LibManager.py:97-102 | the download request has the fields cmd=lib, name, os_name and bits, where bits is 32, 64 or None |
| PyLoader.BasenameJoin | ngs-python/build/lib/ngs/LibManager.py:88 | joining a directory and a slash-free file name yields a path whose last component is that file |
| PyLoader.Directories | ngs-python/build/lib/ngs/LibManager.py:142-149 | there are four directories: the NCBI home one, the empty string, the current directory and the temporary directory |
| PyLoader.FirstDirectory | ngs-python/build/lib/ngs/LibManager.py:145 | the first directory is named `lib32`, `lib64` or `libNone` |
| PyLoader.ProbedPaths | ngs-python/build/lib/ngs/LibManager.py:61-63 | the empty directory probes the bare file name, so the dynamic loader searches for it. `.` probes `./name`. Every probe names the library file |
| PyLoader.LoadSaved | ngs-python/build/lib/ngs/LibManager.py:55-69 | the first directory whose load succeeds supplies the library, and all earlier ones raised. There is a library exactly when some directory loads |
| PyLoader.StageOf | ngs-python/build/lib/ngs/LibManager.py:78-113 | a directory is skipped exactly when it is the empty string |
| PyLoader.TryDirectory | ngs-python/build/lib/ngs/LibManager.py:78-115 | one loop pass ends the function exactly at a refused download or a saved file. Otherwise it leaves the three flags as that directory's stage sets them |
| PyLoader.LoadUpdated | ngs-python/build/lib/ngs/LibManager.py:71-122 | the loop follows the stage-by-stage definition. A loaded library always comes from one of the directories |
| PyLoader.NoteKeepsUnsaved | ngs-python/build/lib/ngs/LibManager.py:74-113 | a non-decisive directory never leaves `file_saved` true |
| PyLoader.NeverFallsThrough | ngs-python/build/lib/ngs/LibManager.py:117-122 | the function always loads or raises, and never falls off its end returning None |
| PyLoader.FirstDecisiveWins | ngs-python/build/lib/ngs/LibManager.py:77-115 | the first directory that gets a response decides. A non-200 status raises with that code, and a saved file is loaded (or its load raises) |
| PyLoader.OnlySkippedLeft | ngs-python/build/lib/ngs/LibManager.py:79-80 | directories given as the empty string change nothing, and the error checks then decide |
| PyLoader.LastFailureReported | ngs-python/build/lib/ngs/LibManager.py:117-122 | when no directory is decisive, the error names the last non-empty directory's own failure: the directory, the file it could not create or the file it could not save |
| PyLoader.SearchFailureNamed | ngs-python/build/lib/ngs/LibManager.py:117-122 | over the four standard directories, a failed download reports the temporary directory's failure, or the current directory's when there is no temporary directory |

## Left out

- File, network and process I/O are all parameters: reading and writing the properties file, HTTP POSTs and `urlopen`, `System.load`/`loadLibrary`, `cdll.LoadLibrary`, `LibPathIterator`'s candidate files and launching the child JVM.
- Logging (`Logger` and every log message) is not modelled. It has no effect on results.
- `LibManager.create`/`done` (the `FileCreator` side of a download), `download`, `downloadLib` and `downloadKfg` in `LibManager.java` are not modelled. `LoadLibrary` takes the download's success and resulting state as a parameter. `Download.DownloadLib` models the download request and retry rules of `DownloadManager.java`.
- `checkLib`, `launchLibCheck`'s process handling and `tryJava` are left out. They are process control. The child's output lines are a parameter of `LibManager.LaunchLibCheck`, and the line protocol between child and parent is modelled in `ChildProtocol`. The child's standard error and the unmatched lines the parent echoes are output only.
- Version ordering (`Version.compareTo`) is a parameter `older`. Version strings are not parsed.
- `getLocationProperty` is modelled, but the constructor never calls it: that call is commented out at `LibManager.java:328`.
- `LibManager.Current` models the version probes of the two packages as an oracle with three answers: a version, a caught `ErrorMsg` or `UnsatisfiedLinkError` (giving "0"), or a throwable that escapes `current` and is caught by the `catch (Throwable)` of the loader that called it.
- Properties loaded from a file are modelled as a map. The `.properties` text format is not modelled.
- `BamCigar`: lengths are unbounded. A merged run longer than `int` can hold (`len += last_len`) is not modelled.
- `BamCigar`: the `OPCODE` table is assumed to hold 16 non-NUL letters. With a NUL letter the source's initial `last_code == 0` would merge the first op with nothing.
- `BamAux`: reading past the end of the buffer is modelled as an unknown type (-1). The C++ code would read whatever memory follows.
- `BamAux`: the `OptionalField` getters (`getTag`, `getValueType`, `getElementCount`, `getElementSize`, `getRawValue`) are plain reads and are not modelled.
- `BAMFilePosType::operator<` and `operator==` (`bam.hpp:70-75`) compare `rhs` with itself, so `<` is always false and `==` always true. Nothing in this model uses them, so they are not modelled.
- zlib decompression, `BAMFile`, the index, the header and `DumpSAM` are not part of this model.
- `BamSlice.Read`: records coming from the parent are assumed well-formed. This is an assumption of the model: `BAMFileSlice::Read` never calls `isGoodRecord`, and the parent's decoding is not part of this model.
- The Python `machine()` (`LibManager.py:39-45`) is I/O. The machine name is a parameter.
- `PyLoader.LoadUpdated`: the three raises of `ErrorMsg` are outcomes of a datatype that record the error the code means to raise. `LibManager.py:37` rebinds `ErrorMsg` to the module itself, so each `raise ErrorMsg(...)` would in fact raise a `TypeError`, and that is not modelled. Their message texts are not built. A failed `urlopen` (an exception) is folded into the status oracle.
- `PyLoader.PostParamsFields`: the order of the `urlencode` fields assumes an insertion-ordered dict. Python 2 dicts may order them differently. Percent-escaping is not modelled.
- `PyLoader.Join` models POSIX `os.path.join` only. The Windows rules (drive letters, backslashes) are not modelled.
- `initialize_ngs_bindings` (`LibManager.py:169-177`) only sequences `load_saved_library` and `load_updated_library` per library. Its `or` is not modelled separately.
- `LoadErrors.NewTooOldError`: `LibraryTooOldError` calls `super(String)`, but `LibraryLoadError` declares no one-argument constructor. The model gives the error the message the subclass builds.
- `LoadErrors.NewLoadError`: with a null cause, the source throws `NullPointerException` while computing `cause.getRecommendation()`. The model returns None for that case.
- `ChildProtocol.MainOutput`: `check` is a stateless parameter. The `LibManager` that `main` shares between its `checkLib` calls, and the `properties.store()` that ends `main` (`LibManager.java:1206`), are not modelled.
- `LibManager.NewManager`: the files `vdb.deleteLibraries` deletes (`LibPathIterator.deleteLibraries`) are not modelled; deletion leaves the manager's own state alone. The static smart-search flag is an input, and a manager keeps the value it had when it was built, whereas the source reads the static field at each load.
- `BamAux.SizeOfEncoded`: `Valid` admits arrays only when `8 + |v|` is below 2^31. Longer arrays wrap in C `int`, as `BamAux.ArrayLengthWraps` shows, so their size is not the length of their encoding. The text branch's `3 + length` is not wrapped, since a field that long cannot fit a record.
- `Platform.DetectJVM`: its contract states only when the data model is unknown. `Platform.DetectJVMCases` states the rest.
- `LibManager.LoadFrom`: its contract states only the empty case. `LibManager.LoadFromAppend` and `LibManager.LoadFromSingle` state how it composes.

## Findings

| source | as written | input that shows it | evidently intended | confidence | as-written member | corrected member |
|---|---|---|---|---|---|---|
| ngs-bam/bam.hpp:237-238 | `cigarString(…, clipped=true, …)` drops every leading soft or hard clip run, but only the last trailing one | ops `10M 5S 3H`: the clipped text is `10M5S` | every trailing clip run is dropped, giving `10M` | high; not executed | BamCigar.TrailingClipsKept | BamCigar.ClippedReadsBack |
| ngs-bam/bam.hpp:289-292 | the scalar branch of `OptionalField::size` ignores `max`. A field cut short at the end of the buffer gives a size that jumps past `endp`, and `operator++` then never moves again, so the iterator never equals `end()` | extra bytes `X Y i 0x01`: the iterator goes from 0 to 7 in a 4-byte buffer and stays at 7 | return -1 when the value would end past `max`, as the `B` branch does | high; not executed | BamAux.TruncatedScalarOvershoots | BamAux.ProgressFixed |
| ngs-bam/bam.hpp:261-264 | `type_size` lists `'F'` as the 4-byte type, but section 4.2.4 of the SAM/BAM format specification spells the float type `'f'` | an `XYf` field with 4 value bytes: its size is -1, so iteration jumps to the end and skips it and every field after it | `'f'` has size 4 | medium; not executed | BamAux.FloatFieldStops | BamAux.SizeOfEncoded |
