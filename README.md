# Puppy's rotating file loggers, in Dafny

This project models the archive lifecycle of the three rotating file loggers
in the Swift logging library Puppy. It also models three small value pieces
around them.

The three loggers:

- `FileRotationLogger` rotates by size. Old archives are renumbered `.1`, `.2`, ...
  or left alone when the date and UUID suffix is used. The target becomes the
  newest archive, and the oldest archives beyond `maxArchives` are removed.
- `FileRotationDailyLogger` keeps one target per calendar day, in the log folder
  or in a subfolder named after the day. It rotates whenever the day anchor
  `currentDate` is not today (every check in debug mode).
- `FileRotationTimeLogger` keeps one target per interval, in a subfolder named
  after the anchor instant. As written, it rotates unless the interval since
  the anchor has *expired*.

The value pieces are `RotationConfig` with its initialiser, the `FileError`
description table, and the swift-log adapter `PuppyLogHandler` (metadata merge,
recursive printing sorted by key, level mapping, metadata subscript).

Foundation's `FileManager` is replaced by an abstract disk, `FileSystem.Disk`.
It maps a path, a sequence of components, to an entry with a kind, a byte size,
a modification time and permission bits. It also holds the set of paths the
operating system refuses to change, so every move, removal and creation can
fail as it can on a real disk.

A catalogue (`ascArchivesURLs`) lists one directory, filters it and sorts what
is left by modification time. The sort is stable, so entries of equal age stay
in path order.

The loggers are classes. Their fields are the disk they act on, the trace of
delegate calls (`events`) and, for the folder loggers, `currentDate` and
`fileURL`. Each state-changing method is proved equal to a pure step function
(`Rotate`, `LogStep`, `Pruned`, `OpenDaily`, ...). The properties are lemmas
about those functions.

Module layout:

- `Wrappers`, `Paths`, `Order`, `Clock`: the value types, URL path operations,
  sorting by a total order, and the uninterpreted calendar.
- `Errors`, `Config`: the `FileError` table and `RotationConfig`.
- `FileSystem`, `Loggable`, `Archives`: the disk, the shared file-logger helpers,
  and the common catalogue and pruning.
- `SizeLogger`, `FolderLogging`, `DailyLogger`, `TimeLogger`: the loggers. The
  daily and time loggers share `FolderLogging`.
- `LogHandler`: the swift-log adapter.

The library's quirks are modelled as written:

- The generation number is `count + 1 - index`.
- The time logger returns early on an expired interval.
- `RotationConfig.init` drops its `rotationType` argument.
- A throwing rename or removal ends its loop.
- The folder loggers prune before they open the new target, so between two
  checks the log folder can hold `maxArchives + 1` subdirectories.

## Model

| member | source | states |
|---|---|---|
| Config.Init | Sources/Puppy/RotationConfig.swift:19-24 | the suffix style, `maxFileSize` and `maxArchives` are stored as given; the rotation type is always `.filesize` |
| Config.InitDefaults | Sources/Puppy/RotationConfig.swift:19 | the defaults are numbering, `.filesize`, 10485760 bytes and 5 archives |
| Config.InitIgnoresRotationType | Sources/Puppy/RotationConfig.swift:23 | two `rotationType` arguments give the same configuration |
| Errors.ErrorDescription | Sources/Puppy/FileError.swift:13-32 | every case has a description (never nil) |
| Errors.UrlText | Sources/Puppy/FileError.swift:16 | an interpolated file URL starts with `file://`; a URL with a directory path ends in `/` after the text of the same path as a file URL, which ends with the last character of its name |
| Errors.DescriptionIdentifiesCase | Sources/Puppy/FileError.swift:13-32 | the description's fixed prefix or suffix determines the case: reading it back gives the error's kind, for all eight cases |
| Errors.UrlFirstIdentified | Sources/Puppy/FileError.swift:15-18 | the two URL-first messages end in " is not a Directory" or " is not a file" and are told apart by that ending |
| Errors.PermissionIdentified | Sources/Puppy/FileError.swift:19-22 | both permission messages begin "invalid file permission. " and are told apart by "file: " or "Folder: " |
| Errors.FailureIdentified | Sources/Puppy/FileError.swift:23-30 | the four failure messages are told apart by their own "failed to ..." prefix |
| Errors.DescriptionNamesUrl | Sources/Puppy/FileError.swift:13-32 | every description contains the URL's text, with the trailing `/` for the directory URLs of `isNotFile`, `invalidFolderPermission` and `creatingDirectoryFailed` |
| Errors.DescriptionNamesPermission | Sources/Puppy/FileError.swift:19-22 | the two permission messages end with ", permission: " and the rejected permission string |
| Paths.Child | Sources/Puppy/FileRotationDailyLogger.swift:84 | `appendingPathComponent` adds one component whose parent is the directory |
| Paths.LastDot | Sources/Puppy/FileRotationLogger.swift:123 | the position of the last extension's dot, or -1 when the name has none |
| Paths.ExtensionRoundTrip | Sources/Puppy/FileRotationLogger.swift:84-123 | deleting the last extension undoes appending an extension without a dot |
| Paths.ExtensionKeepsDirectory | Sources/Puppy/FileRotationLogger.swift:103 | appending or deleting an extension keeps the path's directory and depth |
| Paths.DecimalInjective | Sources/Puppy/FileRotationLogger.swift:103 | different generation numbers print as different decimal extensions |
| Paths.AppendingExtensionInjective | Sources/Puppy/FileRotationLogger.swift:84-87 | an archive name is never the target, and different extensions give different names |
| FileSystem.ContentsOfDirectory | Sources/Puppy/FileRotationLogger.swift:121 | the listing succeeds exactly for a directory and holds exactly its children |
| FileSystem.MoveItem | Sources/Puppy/FileRotationLogger.swift:89-106 | a move succeeds exactly when the source exists, the destination does not, its directory exists and neither is locked; it carries the entry, its modification time included, to the destination and touches nothing else |
| FileSystem.RemoveItem | Sources/Puppy/FileRotationLogger.swift:151 | a removal succeeds exactly for an existing, unlocked path |
| FileSystem.RemoveItemEffect | Sources/Puppy/FileRotationLogger.swift:151 | a removal deletes the path and everything below it, and nothing else |
| FileSystem.CreateDirectory | Sources/Puppy/FileRotationDailyLogger.swift:76 | `createDirectory(withIntermediateDirectories:)` succeeds exactly when the chain can be made; it keeps every entry and adds only paths on the chain |
| FileSystem.CreateDirectoryMakesChain | Sources/Puppy/FileRotationDailyLogger.swift:76 | afterwards every directory of the chain exists |
| FileSystem.CreateExistingDirectory | Sources/Puppy/FileRotationDailyLogger.swift:76 | creating a chain that exists succeeds and changes nothing |
| FileSystem.CreateFile | Sources/Puppy/FileRotationDailyLogger.swift:87 | `createFile` succeeds exactly when the parent directory exists and the path is neither locked nor a directory, and then sets the path to an empty regular file with the given permission |
| FileSystem.CreateIfAbsentAndOpen | Sources/Puppy/FileRotationDailyLogger.swift:86-106 | an existing target is kept as it is; an absent one is created; the error is `creatingFileFailed` or `openingForWritingFailed` for the step that failed |
| FileSystem.Append | Sources/Puppy/FileRotationLogger.swift:43 | appending grows only the target, by the record's byte count, and stamps its modification time |
| FileSystem.ParseOctal | Sources/Puppy/FileRotationDailyLogger.swift:6 | `UInt16(filePermission, radix: 8)` accepts an optional sign, then at least one octal digit; the value is that of the digits and fits 16 bits, and is 0 after a `-` |
| FileSystem.ParseOctalSign | Sources/Puppy/FileRotationDailyLogger.swift:6 | a leading `+` changes nothing, and a leading `-` is accepted exactly before digits of value 0 |
| FileSystem.ParseOctalExamples | Sources/Puppy/FileRotationDailyLogger.swift:6 | "640" and "+640" parse to 416 and "-0" to 0; "999", "abc", "", "+", "-" and "-1" do not parse |
| Loggable.Mode | Sources/Puppy/FileRotationDailyLogger.swift:5-7 | a validated permission string gives at most octal 777 |
| Loggable.OpenFile | Sources/Puppy/FileRotationLogger.swift:38-73 | `openFile` creates the target's directory or throws `creatingDirectoryFailed`, keeps every entry, creates an absent target empty, and leaves it writable when it does not throw |
| Loggable.StartFile | Sources/Puppy/FileRotationLogger.swift:36-38 | construction throws `isNotFile` for a directory URL, then `invalidPermission`, else whatever `openFile` throws |
| Loggable.ValidateFolder | Sources/Puppy/FileRotationDailyLogger.swift:36-37 | folder validation passes exactly for a directory URL and a valid permission, and throws `isNotDirectory` or `invalidFolderPermission` otherwise |
| Loggable.DefaultPermissionValid | Sources/Puppy/FileRotationLogger.swift:18 | the default permission "640" is valid, mode 416 |
| Order.SortedBy | Sources/Puppy/FileRotationLogger.swift:125-137 | sorting a set by a total order lists each element exactly once |
| Order.SortedByAscending | Sources/Puppy/FileRotationLogger.swift:125-137 | the sorted listing has no repeats and is ascending |
| Order.SortedByUnique | Sources/Puppy/PuppyLogHandler.swift:61 | any repeat-free ascending listing of a set is the sorted listing |
| Order.StrLeTotalOrder | Sources/Puppy/PuppyLogHandler.swift:61 | the string order used to sort metadata keys is total |
| Order.PathLeTotalOrder | Sources/Puppy/FileRotationLogger.swift:121 | the order of directory listings is total |
| Archives.AgeOrderTotal | Sources/Puppy/FileRotationLogger.swift:125-137 | age order, with path order among equal ages, is total |
| Archives.OldestFirst | Sources/Puppy/FileRotationLogger.swift:125-137 | sorting a set of archives lists each exactly once |
| Archives.Catalogue | Sources/Puppy/FileRotationLogger.swift:117-143 | a catalogue holds exactly the directory's children that pass the filter; an unreadable directory gives none |
| Archives.CatalogueOrdered | Sources/Puppy/FileRotationLogger.swift:125-137 | a catalogue has no repeats and ascends in modification time |
| Archives.Excess | Sources/Puppy/FileRotationLogger.swift:148-149 | the number to remove is 0 within the bound, and otherwise leaves exactly `maxArchives` |
| Archives.Pruned | Sources/Puppy/FileRotationLogger.swift:145-159 | pruning removes at most the excess |
| Archives.RemoveOldest | Sources/Puppy/FileRotationLogger.swift:145-159 | the removal loop computes `Pruned` |
| Archives.PruneShape | Sources/Puppy/FileRotationLogger.swift:148-157 | pruning removes a prefix of the catalogue (the oldest), and only what it reports, and it stops only at a removal that throws |
| Archives.PruneCompletes | Sources/Puppy/FileRotationLogger.swift:148-154 | when no removal throws, exactly the `count - maxArchives` oldest go |
| Archives.LaterArchivesSurvive | Sources/Puppy/FileRotationLogger.swift:149-157 | the archives after the removed prefix stay on disk |
| Archives.CatalogueAfterPrune | Sources/Puppy/FileRotationLogger.swift:145-159 | the next catalogue is the old one without the removed prefix |
| Archives.PruneBoundsArchives | Sources/Puppy/FileRotationTimeLogger.swift:136-150 | with removable archives, the excess oldest go and `min(count, maxArchives)` remain |
| SizeLogger.ArchivesOf | Sources/Puppy/FileRotationLogger.swift:117-142 | the catalogue holds exactly the entries beside the target that are not the target and are the target once the last extension is deleted; an unreadable directory gives none |
| SizeLogger.RenumberFrom | Sources/Puppy/FileRotationLogger.swift:101-107 | renumbering only renames: the number of entries and the locks are kept |
| SizeLogger.Renumber | Sources/Puppy/FileRotationLogger.swift:96-115 | the renaming loop of `rotateOldArchives` computes `RenumberFrom` |
| SizeLogger.RenumberNeverClobbers | Sources/Puppy/FileRotationLogger.swift:105-106 | a rename happens only onto a free name, so every entry outside the catalogue remains unchanged |
| SizeLogger.NumberedFacts | Sources/Puppy/FileRotationLogger.swift:103 | archive `.k` sits beside the target, is an archive of it, and renumbers to `.m` |
| SizeLogger.NumberedInjective | Sources/Puppy/FileRotationLogger.swift:103 | different generations have different names |
| SizeLogger.NumberedCatalogue | Sources/Puppy/FileRotationLogger.swift:117-142 | archives `.1..n`, each newer than the next, are catalogued as `.n, ..., .1` |
| SizeLogger.RenumberChain | Sources/Puppy/FileRotationLogger.swift:101-107 | along a chain of free destinations, each archive moves up one name |
| SizeLogger.NumberedShift | Sources/Puppy/FileRotationLogger.swift:101-107 | from `.1..n`, renumbering `count + 1 - index` gives `.2..n+1` and frees `.1` |
| SizeLogger.ArchiveNameIsCatalogued | Sources/Puppy/FileRotationLogger.swift:82-88 | the archive name is `.1`, or `.stamp_uuid`; either way the next catalogue lists it |
| SizeLogger.ArchiveTarget | Sources/Puppy/FileRotationLogger.swift:89-90 | the target is moved to its archive name, and `didArchiveFileURL` is heard only when the move succeeded |
| SizeLogger.NumberingRotationIsGapFree | Sources/Puppy/FileRotationLogger.swift:84-107 | when the archives are exactly `.1..n`, each older than the one before, renumbering and archiving leave exactly the archives `.1..n+1`: the target's entry is `.1` and each `.g` has become `.g+1` |
| SizeLogger.RemovalEvents | Sources/Puppy/FileRotationLogger.swift:153 | one `didRemoveArchivesURL` per removed archive, in order |
| SizeLogger.Rotate | Sources/Puppy/FileRotationLogger.swift:59 | nothing changes when the size cannot be read or is at most `maxFileSize` |
| SizeLogger.RotationBoundsArchives | Sources/Puppy/FileRotationLogger.swift:58-77 | with no archive name locked, a rotation that is due leaves `min(count + made, maxArchives)` archives, `made` being 1 exactly when `didArchiveFileURL` was heard |
| SizeLogger.RotationReport | Sources/Puppy/FileRotationLogger.swift:58-159 | the delegate hears at most one archive call, first, naming the archive made from the target; every other call removes an archive of the target, which is then gone; an archive made and not removed holds what the target held |
| SizeLogger.NumberingRotationKeepsNewest | Sources/Puppy/FileRotationLogger.swift:96-159 | from exactly `.1..n` ordered by age, with nothing locked, a numbering rotation leaves exactly `.1..k`, `k = min(n + 1, maxArchives)`, `.1` holding the old target, `.g+1` the old `.g`, still ordered by age, so the next rotation starts from the same shape |
| SizeLogger.PruneSparesTarget | Sources/Puppy/FileRotationLogger.swift:68 | pruning removes archives only and never the target |
| SizeLogger.SecondCheckIsNoOp | Sources/Puppy/FileRotationLogger.swift:41-59 | after a rotation that archived the target and reopened it, the target is empty and the next check does nothing |
| SizeLogger.ArchivedOnlyByMove | Sources/Puppy/FileRotationLogger.swift:89-90 | an archive event comes from the move step, never from pruning |
| SizeLogger.FailedArchiveKeepsTarget | Sources/Puppy/FileRotationLogger.swift:91-93 | when the target could not be moved, it keeps its size and is still due for rotation |
| SizeLogger.LogWithoutRotation | Sources/Puppy/FileRotationLogger.swift:41-45 | a record that keeps the target within bound is only appended |
| SizeLogger.LogRestartsOversizedTarget | Sources/Puppy/FileRotationLogger.swift:41-45 | a log call on an oversized target rotates it first, so the record starts a fresh target |
| SizeLogger.FileRotationLogger.Opened | Sources/Puppy/FileRotationLogger.swift:18-35 | the constructed logger holds the given settings and an empty trace |
| SizeLogger.FileRotationLogger.Create | Sources/Puppy/FileRotationLogger.swift:18-39 | `init` runs the validations and `openFile`; it throws their error or returns the opened logger, which keeps the given URL, permission text and configuration |
| SizeLogger.FileRotationLogger.RotateOldArchives | Sources/Puppy/FileRotationLogger.swift:96-115 | the disk becomes the renumbered disk |
| SizeLogger.FileRotationLogger.ArchiveTargetFiles | Sources/Puppy/FileRotationLogger.swift:79-94 | the disk and the trace follow `ArchiveTarget` |
| SizeLogger.FileRotationLogger.RemoveArchives | Sources/Puppy/FileRotationLogger.swift:145-159 | the disk and the trace follow `Pruned` |
| SizeLogger.FileRotationLogger.RotateFiles | Sources/Puppy/FileRotationLogger.swift:58-77 | the disk and the trace follow `Rotate` |
| SizeLogger.FileRotationLogger.Log | Sources/Puppy/FileRotationLogger.swift:41-45 | the disk and the trace follow a check, an append and a check |
| Archives.NotifyConcat | Sources/Puppy/FileRotationDailyLogger.swift:157 | the delegate trace of two runs of calls is the trace of their concatenation |
| FolderLogging.Subfolders | Sources/Puppy/FileRotationTimeLogger.swift:108-134 | the catalogue holds exactly the child directories of the folder; an unreadable folder gives none |
| FolderLogging.TargetNameInjective | Sources/Puppy/FileRotationDailyLogger.swift:84 | `swift_<stamp>.log` names differ for different stamps |
| FolderLogging.OpenIn | Sources/Puppy/FileRotationDailyLogger.swift:75-106 | a directory failure throws `creatingDirectoryFailed` and leaves `fileURL`; otherwise `fileURL` is `dir/name`, and without an error the target is writable |
| FolderLogging.OpenTarget | Sources/Puppy/FileRotationDailyLogger.swift:86-106 | the create-if-absent and open steps compute `CreateIfAbsentAndOpen` |
| FolderLogging.OpenInTarget | Sources/Puppy/FileRotationDailyLogger.swift:86-106 | every entry is kept; an absent target is created empty with the permission; the error names the failed step |
| FolderLogging.OpenInAgain | Sources/Puppy/FileRotationDailyLogger.swift:75-106 | reopening an opened target changes nothing and throws nothing |
| FolderLogging.OpenedFolderIsListed | Sources/Puppy/FileRotationDailyLogger.swift:121-123 | the subfolder of an opened target is in the folder's catalogue |
| FolderLogging.OpenInListing | Sources/Puppy/FileRotationDailyLogger.swift:75-106 | opening a target in a subfolder keeps the folder's other subdirectories and adds none but that subfolder, which it adds when the opening succeeds |
| FolderLogging.PruneThenOpenCount | Sources/Puppy/FileRotationTimeLogger.swift:56-65 | with removable excess, pruning then opening leaves `m = min(count, maxArchives)` subdirectories, or `m + 1`: `m` when the new target's subfolder survived the prune, `m + 1` when it did not and the opening succeeded |
| DailyLogger.DayTarget | Sources/Puppy/FileRotationDailyLogger.swift:69-84 | the target is `folder/swift_<yMMdd>.log`, or the same inside `folder/<y-MM-dd>` in subfolder mode |
| DailyLogger.DayTargetsDistinct | Sources/Puppy/FileRotationDailyLogger.swift:82-84 | two days have two targets when `yMMdd` tells them apart |
| DailyLogger.OpenDaily | Sources/Puppy/FileRotationDailyLogger.swift:66-107 | the anchor becomes today's start even when the directory cannot be made, `fileURL` then staying; otherwise `fileURL` is today's target |
| DailyLogger.DailyArchives | Sources/Puppy/FileRotationDailyLogger.swift:121-123 | in subfolder mode the catalogue is the folder's child directories |
| DailyLogger.PlainCatalogueEmpty | Sources/Puppy/FileRotationDailyLogger.swift:125-127 | in plain mode no child of the folder passes the filter, so the catalogue is empty |
| DailyLogger.InitConfigNeverPrunes | Sources/Puppy/RotationConfig.swift:23 | a configuration fresh from `init` never puts the daily logger in subfolder mode, so pruning removes nothing |
| DailyLogger.Rotate | Sources/Puppy/FileRotationDailyLogger.swift:48-64 | with an anchor equal to today's start and no debug mode nothing changes; after any check the anchor is today |
| DailyLogger.RotationPrunesThenOpens | Sources/Puppy/FileRotationDailyLogger.swift:54-63 | a rotating check prunes the oldest prefix of the catalogue, then opens today's target; a directory failure is dropped and `fileURL` stays |
| DailyLogger.RotationListsAtMostOneMore | Sources/Puppy/FileRotationDailyLogger.swift:48-64 | in subfolder mode, a rotating check leaves `min(count, maxArchives)` subdirectories, or one more when today's did not survive the prune and the opening succeeded |
| DailyLogger.SameDayCheckIsNoOp | Sources/Puppy/FileRotationDailyLogger.swift:49-51 | outside debug mode, a second check on the same day does nothing |
| DailyLogger.SameDayLogOnlyAppends | Sources/Puppy/FileRotationDailyLogger.swift:42-46 | a log call on the anchor's day only appends |
| DailyLogger.FileRotationDailyLogger.Init | Sources/Puppy/FileRotationDailyLogger.swift:22-35 | the fields start as given, `fileURL` at the folder and no anchor |
| DailyLogger.FileRotationDailyLogger.Create | Sources/Puppy/FileRotationDailyLogger.swift:22-40 | `init` validates the folder, opens the day's file, and re-anchors at the start of the day of a second clock reading; the logger keeps the given permission text, so later targets get its mode |
| DailyLogger.FileRotationDailyLogger.OpenDailyFile | Sources/Puppy/FileRotationDailyLogger.swift:66-107 | the fields follow `OpenDaily` |
| DailyLogger.FileRotationDailyLogger.RemoveArchives | Sources/Puppy/FileRotationDailyLogger.swift:149-163 | the disk and the trace follow `Pruned` over the catalogue |
| DailyLogger.FileRotationDailyLogger.RotateFiles | Sources/Puppy/FileRotationDailyLogger.swift:48-64 | the fields and the trace follow `Rotate` |
| DailyLogger.FileRotationDailyLogger.Log | Sources/Puppy/FileRotationDailyLogger.swift:42-46 | the fields and the trace follow a check, an append and a check |
| TimeLogger.Defaults | Sources/Puppy/FileRotationTimeLogger.swift:24 | the folder format defaults to "yyyy-MM-dd" and the interval to 34560 seconds |
| TimeLogger.TimeTarget | Sources/Puppy/FileRotationTimeLogger.swift:70-84 | the target is `folder/<folderDateFormat>/swift_<yyyyMMdd_HHmmss>.log` |
| TimeLogger.TimeTargetsDistinct | Sources/Puppy/FileRotationTimeLogger.swift:82-84 | two instants have two targets when the file pattern tells them apart |
| TimeLogger.OpenTimed | Sources/Puppy/FileRotationTimeLogger.swift:68-107 | the anchor becomes now before anything can throw; a directory failure leaves `fileURL`; otherwise `fileURL` is the target |
| TimeLogger.OpenedDirectoryIsArchive | Sources/Puppy/FileRotationTimeLogger.swift:108-134 | the directory of an opened target is one of the folder's archives |
| TimeLogger.Rotate | Sources/Puppy/FileRotationTimeLogger.swift:50-66 | with an expired anchor nothing changes; otherwise the anchor becomes now |
| TimeLogger.RotationPrunesThenOpens | Sources/Puppy/FileRotationTimeLogger.swift:56-65 | a rotating check prunes the oldest prefix of the folders, then opens the target; a directory failure is dropped and `fileURL` stays |
| TimeLogger.RotationKeepsNewest | Sources/Puppy/FileRotationTimeLogger.swift:136-150 | with removable folders, the prune inside a rotating check removes exactly the excess oldest and leaves `min(count, maxArchives)` subdirectories |
| TimeLogger.RotationListsAtMostOneMore | Sources/Puppy/FileRotationTimeLogger.swift:50-66 | after the whole check the folder lists `min(count, maxArchives)` subdirectories, or one more when the directory of now did not survive the prune and the opening succeeded |
| TimeLogger.ExpiryIsPermanent | Sources/Puppy/FileRotationTimeLogger.swift:51-53 | once the interval has expired, every later check does nothing |
| TimeLogger.CheckWithinIntervalReanchors | Sources/Puppy/FileRotationTimeLogger.swift:51-69 | a rotating check moves the anchor to now, so a later check is skipped exactly when it is more than the interval later |
| TimeLogger.ExpiredLogOnlyAppends | Sources/Puppy/FileRotationTimeLogger.swift:44-48 | with an expired anchor a log call only appends |
| TimeLogger.FileRotationTimeLogger.Init | Sources/Puppy/FileRotationTimeLogger.swift:24-37 | the fields start as given, `fileURL` at the folder and no anchor |
| TimeLogger.FileRotationTimeLogger.Create | Sources/Puppy/FileRotationTimeLogger.swift:24-42 | `init` validates the folder and opens the first target; the logger keeps the given permission text, so later targets get its mode |
| TimeLogger.FileRotationTimeLogger.OpenDailyFile | Sources/Puppy/FileRotationTimeLogger.swift:68-107 | the fields follow `OpenTimed` |
| TimeLogger.FileRotationTimeLogger.RemoveArchives | Sources/Puppy/FileRotationTimeLogger.swift:136-150 | the disk and the trace follow `Pruned` over the subfolders |
| TimeLogger.FileRotationTimeLogger.RotateFiles | Sources/Puppy/FileRotationTimeLogger.swift:50-66 | the fields and the trace follow `Rotate` |
| TimeLogger.FileRotationTimeLogger.Log | Sources/Puppy/FileRotationTimeLogger.swift:44-48 | the fields and the trace follow a check, an append and a check |
| LogHandler.MergedMetadata | Sources/Puppy/PuppyLogHandler.swift:29-31 | without call metadata the result is the handler's; otherwise the keys are the union and the call's value wins |
| LogHandler.OverriddenEntriesVanish | Sources/Puppy/PuppyLogHandler.swift:30 | handler entries the call overrides do not affect the merge |
| LogHandler.MergeNeutral | Sources/Puppy/PuppyLogHandler.swift:30 | merging no entries, or the handler's own, gives the handler's metadata |
| LogHandler.Describe | Sources/Puppy/PuppyLogHandler.swift:49-56 | arrays and dictionaries print in brackets and strings in double quotes, and the first character tells which |
| LogHandler.JoinLayout | Sources/Puppy/PuppyLogHandler.swift:51 | `joined(separator:)` puts every part in order at its offset, one separator between neighbours, nothing before the first part or after the last |
| LogHandler.DescribeArrayLayout | Sources/Puppy/PuppyLogHandler.swift:51 | an array prints as `[`, then each element's rendering in order at its offset, with ", " between neighbours, then `]` |
| LogHandler.DescribeDictionaryLayout | Sources/Puppy/PuppyLogHandler.swift:52 | a dictionary prints as `[`, then each entry as `key: value` in strictly ascending key order at its offset, with ", " between neighbours, then `]` |
| LogHandler.ArrayExample | Sources/Puppy/PuppyLogHandler.swift:51 | two strings print as `["a", "b"]` |
| LogHandler.NestedArrayExample | Sources/Puppy/PuppyLogHandler.swift:51 | an empty array inside an array prints as `[]` |
| LogHandler.SortedKeys | Sources/Puppy/PuppyLogHandler.swift:61 | every key is listed exactly once |
| LogHandler.EntryTexts | Sources/Puppy/PuppyLogHandler.swift:62 | one text per entry |
| LogHandler.SortedDescriptionEntries | Sources/Puppy/PuppyLogHandler.swift:60-64 | entries are printed in strictly ascending key order, each as `key: value`, joined by ", " |
| LogHandler.SingleEntry | Sources/Puppy/PuppyLogHandler.swift:60-64 | one entry prints as `key: value` |
| LogHandler.TwoEntries | Sources/Puppy/PuppyLogHandler.swift:60-64 | two entries print in key order, whatever order the map was built in |
| LogHandler.LexReflexive | Sources/Puppy/PuppyLogHandler.swift:61 | every key is its own lower bound in the key order |
| LogHandler.StringCasesAlike | Sources/Puppy/PuppyLogHandler.swift:53-54 | a string and a convertible value with the same text print alike |
| LogHandler.QuotesRoundTrip | Sources/Puppy/PuppyLogHandler.swift:53 | removing the two quotes from a printed string gives the string back |
| LogHandler.ToPuppyInjective | Sources/Puppy/PuppyLogHandler.swift:35-45 | different levels map to different Puppy levels |
| LogHandler.LogCall | Sources/Puppy/PuppyLogHandler.swift:22-27 | the record carries tag "swiftlog", the mapped level and the call site, and an info map with exactly `label`, `source` and the bracketed, printed merged metadata |
| LogHandler.NoMetadataRendersEmpty | Sources/Puppy/PuppyLogHandler.swift:23 | without metadata anywhere the metadata text is "[]" |
| LogHandler.CallSiteWins | Sources/Puppy/PuppyLogHandler.swift:23-30 | a key set by the call hides the handler's value in what is forwarded |
| LogHandler.GetAfterSet | Sources/Puppy/PuppyLogHandler.swift:8-11 | getting a key after setting it gives what was set (nil removes it) and other keys are unchanged |
| LogHandler.PuppyLogHandler.constructor | Sources/Puppy/PuppyLogHandler.swift:5-20 | the handler holds its label and metadata, and its level starts at `.info` |
| LogHandler.PuppyLogHandler.Set | Sources/Puppy/PuppyLogHandler.swift:10 | the setter writes the key, and reading it back gives the new value; other keys and the level are kept |

## Left out

- Foundation I/O is replaced by `FileSystem.Disk`. File contents are not modelled: appending records only the byte count and the modification time, and a move carries one entry (a moved archive is a regular file).
- The `FileLoggerable` helpers (`append`, `openFile`, `validateFileURL`, `validateFilePermission`, `validateFolderURL`, `validateFolderPermission`) are not part of this model. They are given the contracts their callers rely on, in `Loggable`.
- `hasDirectoryPath` is modelled by the entry kind `Directory` for listed URLs, and by a boolean argument for the URL passed to a constructor.
- A directory's modification time is not updated when an entry inside it changes.
- Time is integer seconds. `Double` intervals, sub-second instants, time zones and locales are not modelled. `DateFormatter` and `startOfDay` are uninterpreted functions in `Clock.Calendar`.
- Each rotation check reads the clock once, and the value is passed in. The source reads `Date()` several times per check: the daily logger at FileRotationDailyLogger.swift:49 (the skip test), :67 (the anchor) and :68 (the file's day), the time logger at FileRotationTimeLogger.swift:51 (the expiry test) and :69 (the anchor, which also names the folder and the file). The single parameter stands for all of them, so a check that straddles midnight or a second boundary is not modelled. The daily logger's constructor reads the clock again for its final anchor (line 39), which is modelled with a second argument.
- UUIDs are arbitrary strings passed in.
- Swift's `<` on strings compares Unicode scalars after normalisation. The model compares characters one by one.
- Directory listings are taken to arrive in path order, so the stable sort orders equal modification times by path.
- An attribute read cannot fail for a listed entry, so the catalogue's error path is only an unreadable directory.
- Concurrency (`DispatchQueue`, `Sendable`) is left out: each logger's calls are modelled as a sequence.
- Windows branches are folded into the single size and modification-time lookup.
- `puppyDebug` and `print` are left out. Delegate calls are an appended trace, and a delegate that is not set records nothing.
- `Puppy.logMessage` is a call into code outside the model; only its arguments (`Forwarded`) are modelled. The `puppy` field is omitted.
- LogLevel.swift is not part of this model. Only the seven cases that `toPuppy` produces are declared.
- `PuppyLogHandler` is a struct; it is modelled as a class whose setter updates `metadata` in place.
- `FileRotationLogger` is a struct too (FileRotationLogger.swift:4). Its methods change the file system and call the delegate rather than its own fields, so the class's `disk` and `events` fields stand for the file system and the delegate's trace.
- Errors.UrlText: no percent-encoding; a path prints its components between `/` as they are. Whether a URL has a directory path is taken from the error case, since a `Path` does not record it; `deletingFailed`, which the model never throws, prints as a file URL.
- Paths.StripExtension: follows the Foundation rule that the text after the last dot is the extension unless that dot starts the name. A name ending in a dot, such as `app.log.`, therefore strips to `app.log` and counts as an archive of `app.log`; Foundation versions that keep such names whole would not list it.
- FileSystem.RemoveItem: all-or-nothing. A lock on a path stands for any undeletable entry at or below it, so a folder archive with an undeletable entry inside is modelled by locking the folder itself; Foundation can delete part of such a tree before it throws, and the model then leaves the disk as it was.
- FileSystem.CreateDirectory: all-or-nothing. Foundation can make some of the intermediate directories and then throw; the model then leaves the disk as it was.
- FolderLogging.PruneThenOpenCount: assumes the log folder exists as a directory, as it does once the first target was opened. On a disk without it the count is not stated.
- TimeLogger.RotationListsAtMostOneMore: makes the same assumption about the log folder.
- DailyLogger.RotationListsAtMostOneMore: makes the same assumption, and covers subfolder mode only; plain mode never prunes (`PlainCatalogueEmpty`).
- `line: UInt` is a `nat`.
- A failed constructor's disk effects are returned from `Create` beside the error, but no logger object exists afterwards.
- `logLevel`, `logFormat`, `label` and the queue of each logger are left out, since they do not affect the archives.
- Errors.ErrorDescription: its own contract states only that the result is never nil. What each description says is stated by `DescriptionIdentifiesCase` (its case), `DescriptionNamesUrl` (its URL) and `DescriptionNamesPermission` (the permission of the two permission cases).
- DailyLogger.DayTargetsDistinct: assumes that the calendar tells day starts apart under `yMMdd`, because the formatter is not interpreted.
- TimeLogger.TimeTargetsDistinct: assumes that the file pattern is injective on integer seconds, for the same reason.
