# dev-publish-plugin, modelled in Dafny

The dev-publish Gradle plugin publishes each Maven publication of a project into a
project-local "dev" Maven repository. Other projects can then depend on it. A publish
task is skipped when nothing it publishes has changed.

The plugin decides this with a *publication checksum*. This is a text holding the
publication's `group:artifact:version` identifier, a `---` rule, and one sorted
`path:checksum` line per file. In the current value source each checksum is the Base64 of
the file's SHA-256 digest, or `missing` when the file does not exist. The older renderers
call `utils.checksum`, which is not part of this model: there the per-file checksum is a
`Path -> string` parameter.

The model covers:

* **The checksum text.** Both generations are modelled.
  * The current `CreatePublicationChecksum` value source.
  * The older `data/LoadPublicationChecksum.kt` and `PublicationData.createChecksumContent`.
* **Writing and reading the checksum.**
  * Writing: the two tasks that write checksums into a checksum store through a
    temporary directory: `GeneratePublicationDataChecksumTask` and `GeneratePublicationHashTask`.
  * Reading: the value source that reads a stored checksum back (`LoadPublicationChecksum`).
* **The plugin's per-task logic.**
  * The `onlyIf` gate that compares the current and the stored checksum.
  * The `doFirst`/`doLast` actions that capture the staged publication.
  * `createPublicationData` and the metadata task name.
  * `DevPublishService.createPublicationData`, which also collects the publication's artifact files.
* **Updating the dev repository.** `UpdateDevRepoTask` syncs the publication stores and
  other projects' repository contents into the dev repository, dropping the first directory.
* **The debug renderings.** Both `checksumsToDebugString` versions, their
  `StringTableBuilder`, and the `splitToPair` / `groupBy` parsing.
* **Gradle helpers.** `dropDirectory`/`dropDirectories` and the
  declarable/consumable/resolvable configuration helpers.
* **The test fixtures' helpers.**
  * The `toTreeString` file-tree renderer with its include/exclude filter.
  * `replaceNonAlphaNumeric`.
  * kotest's `slashSeparatedPath`.

The file system is a map from paths (segment sequences) to nodes (directories, or files
with bytes). The `FileSystem` class holds that map. Its methods `DeleteRecursively`,
`Mkdirs`, `WriteBytes`, `CreateNewFile` and `Sync` change it the way the Java/Gradle calls do.

A Gradle `sync { into(dst) }` replaces everything below `dst` with the copied tree and
leaves the rest of the file system alone (`Disk.SyncResult`).

External computations are parameters of the model. SHA-256 is a function
`seq<byte> -> Digest`, and glob matching is a `GlobMatcher` function. Text goes to and from
bytes through a modelled UTF-8 encoder and decoder. Base64 is modelled with its inverse.

## Model

| member | source | states |
|---|---|---|
| FileChecksums.Checksum | src/main/kotlin/internal/checksums/checksums.kt:10-23 | There are three cases, and every checksum is one token with no whitespace and no `:`. <br>• A missing file gives `missing`. <br>• A regular file gives 44 characters that Base64-decode to the SHA-256 digest of its bytes. <br>• A directory cannot be read. |
| FileChecksums.EncodedDigest | src/main/kotlin/internal/checksums/checksums.kt:14-22 | A 32-byte digest encodes to a 44-character token, so it is never `missing`. |
| FileChecksums.ChecksumInjective | src/main/kotlin/internal/checksums/checksums.kt:13-23 | Two files have the same checksum exactly when their digests are equal. |
| Base64.Encode | src/main/kotlin/internal/checksums/checksums.kt:22 | The output is 4·⌈n/3⌉ characters, each an alphabet symbol or `=`. |
| Base64.DecodeEncode | src/main/kotlin/internal/checksums/checksums.kt:22 | Decoding the encoding gives back the bytes. |
| Base64.EncodeInjective | src/main/kotlin/internal/checksums/checksums.kt:22 | Different byte strings never share an encoding. |
| FilePaths.RelativeTo | src/main/kotlin/internal/checksums/CreatePublicationChecksum.kt:39 | `relativeTo` gives one `..` for every segment of the base after the common prefix, then the file's own segments after that prefix. |
| FilePaths.RelativeToUnder | src/main/kotlin/internal/checksums/CreatePublicationChecksum.kt:39 | A file inside the project directory gives its path below that directory. |
| FilePaths.InvariantPathPlain | src/main/kotlin/internal/checksums/CreatePublicationChecksum.kt:39 | A path whose segments hold no line break is written on one line. |
| CreateChecksum.Entry | src/main/kotlin/internal/checksums/CreatePublicationChecksum.kt:38-40 | A file's `path:checksum` line is absent exactly when the file is a directory. |
| CreateChecksum.EntryLineInjective | src/main/kotlin/internal/checksums/CreatePublicationChecksum.kt:40 | Two lines for the same path are equal exactly when their checksums are. |
| CreateChecksum.Entries | src/main/kotlin/internal/checksums/CreatePublicationChecksum.kt:37-41 | There are lines exactly when every file is readable. Then there is one line per file, in order, and each is that file's entry. |
| CreateChecksum.SortedEntries | src/main/kotlin/internal/checksums/CreatePublicationChecksum.kt:34-43 | The lines are present exactly when every file is readable. They are sorted, and they are a permutation of the unsorted lines. |
| CreateChecksum.Fingerprint | src/main/kotlin/internal/checksums/CreatePublicationChecksum.kt:17-32 | `obtain()` fails exactly when some artifact or module-metadata file is a directory. |
| CreateChecksum.BuildText | src/main/kotlin/internal/checksums/CreatePublicationChecksum.kt:22-30 | The string builder ends up holding the identifier line, `---`, the metadata lines and the artifact lines, each followed by a line feed. |
| CreateChecksum.Obtain | src/main/kotlin/internal/checksums/CreatePublicationChecksum.kt:17-32 | The imperative `obtain()` returns the fingerprint that the specification function defines. |
| CreateChecksum.RenderLines | src/main/kotlin/internal/checksums/CreatePublicationChecksum.kt:22-31 | The lines of the trimmed text are: the identifier, `---`, the metadata lines, then the artifact lines. |
| CreateChecksum.RenderEmpty | src/main/kotlin/internal/checksums/CreatePublicationChecksum.kt:22-31 | With no files, the text is `identifier\n---`: trimming removes the final line feed. |
| CreateChecksum.RenderFirstLines | src/main/kotlin/internal/checksums/CreatePublicationChecksum.kt:23-24 | Whatever the files are, the first line is the identifier and the second is `---`. |
| CreateChecksum.RenderInjective | src/main/kotlin/internal/checksums/CreatePublicationChecksum.kt:22-31 | Two texts for the same identifier are equal exactly when their blocks of lines are equal. |
| CreateChecksum.FingerprintLines | src/main/kotlin/internal/checksums/CreatePublicationChecksum.kt:17-52 | The fingerprint's lines are the header, then the sorted metadata lines and the sorted artifact lines, with one line per file. |
| CreateChecksum.FingerprintLineCount | src/main/kotlin/internal/checksums/CreatePublicationChecksum.kt:22-31 | The fingerprint has 2 + (number of metadata files) + (number of artifacts) lines. |
| CreateChecksum.FingerprintOfNoFiles | src/main/kotlin/internal/checksums/CreatePublicationChecksum.kt:17-32 | With no files, the fingerprint is `identifier\n---`. |
| CreateChecksum.FingerprintPermutation | src/main/kotlin/internal/checksums/CreatePublicationChecksum.kt:34-52 | The order of the files does not change the fingerprint, because the lines are sorted. |
| CreateChecksum.ChangedArtifactChangesFingerprint | src/main/kotlin/internal/checksums/CreatePublicationChecksum.kt:17-43 | Giving one artifact contents with a different digest changes the fingerprint. |
| CreateChecksum.FingerprintFrame | src/main/kotlin/internal/checksums/CreatePublicationChecksum.kt:34-52 | The fingerprint depends only on the states of the listed files. |
| LoadChecksum.Resolve | src/main/kotlin/internal/checksums/LoadPublicationChecksum.kt:20-21 | `resolve(name)` gives `store/name`, strictly below the store. An empty name resolves to the store itself. |
| LoadChecksum.ReadExisting | src/main/kotlin/internal/checksums/LoadPublicationChecksum.kt:22-23 | A missing file gives null. A directory makes the read fail. A regular file gives its decoded text. |
| LoadChecksum.Load | src/main/kotlin/internal/checksums/LoadPublicationChecksum.kt:16-25 | An unset file name gives null. A text that is read is trimmed. |
| LoadChecksum.LegacyLoad | src/main/kotlin/data/LoadPublicationChecksum.kt:18-26 | An unset file name gives null. Otherwise the named file is read as it is, without trimming. |
| LoadChecksum.LoadTrimsLegacy | src/main/kotlin/internal/checksums/LoadPublicationChecksum.kt:23-24 | The current loader fails, or gives null, exactly when the older one does. Otherwise it gives the older one's text, trimmed. |
| LoadChecksum.LoadMissing | src/main/kotlin/internal/checksums/LoadPublicationChecksum.kt:22 | When no file exists under the name, both loaders give null. |
| LoadChecksum.LoadReadsOnlyNamedFile | src/main/kotlin/internal/checksums/LoadPublicationChecksum.kt:20-23 | Both loaders read nothing but the named file. |
| LoadChecksum.LoadAfterWrite | src/main/kotlin/internal/checksums/LoadPublicationChecksum.kt:23-24 | Reading back a trimmed text written as UTF-8 gives the text again. |
| LoadChecksum.LoadStored | src/main/kotlin/internal/checksums/LoadPublicationChecksum.kt:23-24 | For a stored UTF-8 text, the older loader gives the text and the current one gives it trimmed. |
| LegacyChecksum.ChecksumFilename | src/main/kotlin/data/PublicationData.kt:49-52 | The checksum file is `<name>.txt`, with the publication's own name (`getName()`). |
| LegacyChecksum.ChecksumFilenameInjective | src/main/kotlin/data/PublicationData.kt:52 | Two publications share a checksum file exactly when they share a name. |
| LegacyChecksum.RenderIsJoin | src/main/kotlin/data/LoadPublicationChecksum.kt:60-64 | `trimMargin()` of the template gives the identifier, `---` and the lines, joined with line feeds. |
| LegacyChecksum.RenderEmpty | src/main/kotlin/data/LoadPublicationChecksum.kt:60-64 | With no artifacts, the older text is `identifier\n---\n`: the empty body line remains. |
| LegacyChecksum.RenderMatchesCurrent | src/main/kotlin/data/LoadPublicationChecksum.kt:56-64 | For the same lines, the older text equals the current one. With no lines, the older text has one extra trailing line feed. |
| LegacyChecksum.CreatePermutation | src/main/kotlin/data/LoadPublicationChecksum.kt:50-56 | The order of the artifacts does not change the older `obtain()` text. |
| LegacyChecksum.ContentPermutation | src/main/kotlin/data/PublicationData.kt:54-58 | The order of the artifacts does not change `createChecksumContent`. |
| StdlibUtils.SplitToPair | src/main/kotlin/utils/stdlibUtils.kt:4-5 | When the delimiter occurs, the string is split at its first occurrence and the parts rebuild the string. Otherwise the result is the whole string and `""`. |
| StdlibUtils.SplitToPairOfGlued | src/main/kotlin/utils/stdlibUtils.kt:4-5 | `a + c + b` splits back into `a` and `b` when `a` holds no `c`. |
| Grouping.GroupByLookup | src/main/kotlin/internal/checksums/debugUtils.kt:20 | `groupBy` gives distinct keys. Each key maps to the values paired with it, in their original order. |
| Grouping.GroupByKeys | src/main/kotlin/internal/checksums/debugUtils.kt:20 | The keys of `groupBy` are exactly the first components of the pairs, each once. |
| Grouping.GroupsNotEmpty | src/main/kotlin/internal/checksums/debugUtils.kt:20 | No group is empty. |
| Grouping.LookupAbsent | src/main/kotlin/internal/checksums/debugUtils.kt:28 | An absent key has no checksums (`?: emptyList()`). |
| Grouping.UnionKeys | src/main/kotlin/internal/checksums/debugUtils.kt:25 | The union of the key sets starts with the current keys and holds every key of either side exactly once. |
| DebugStrings.ParseLines | src/main/kotlin/internal/checksums/debugUtils.kt:17-19 | Each line yields at most one pair. |
| DebugStrings.ParseLine | src/main/kotlin/internal/checksums/debugUtils.kt:18-19 | A line yields a pair exactly when it holds the separator. The pair is the line split at the first separator. |
| DebugStrings.ParseNothing | src/main/kotlin/internal/checksums/debugUtils.kt:16 | A checksum that is absent or empty yields no groups. |
| DebugStrings.ParseRule | src/main/kotlin/internal/checksums/debugUtils.kt:18 | The `---` rule is not read as an entry. |
| DebugStrings.ParseEntryLines | src/main/kotlin/internal/checksums/debugUtils.kt:17-19 | Parsing the `path:checksum` lines of colon-free paths gives back the pairs. |
| DebugStrings.DebugMapOfFingerprint | src/main/kotlin/internal/checksums/debugUtils.kt:15-20 | Parsing a fingerprint gives the grouping of its entries. The identifier line is included too when it holds a `:`: `g:a:v` is read as file `g` with checksum `a:v`. |
| DebugStrings.FilesOf | src/main/kotlin/internal/checksums/debugUtils.kt:22-25 | The files listed are distinct: the current ones first, then the stored-only ones. |
| DebugStrings.MissingIsTrimmed | src/main/kotlin/internal/checksums/debugUtils.kt:31-32 | A checksum is the i-th value trimmed, or `<missing>`. |
| DebugStrings.Row | src/main/kotlin/internal/checksums/debugUtils.kt:38-41 | A row holds the current checksum, the stored checksum and a mark. |
| DebugStrings.RowMark | src/main/kotlin/internal/checksums/debugUtils.kt:40 | The mark is ✅ exactly when the two checksums agree. |
| DebugStrings.TableRows | src/main/kotlin/internal/checksums/debugUtils.kt:34-42 | The table has a header row, then one row per index up to the longer list's length. |
| DebugStrings.TableRowAt | src/main/kotlin/internal/checksums/debugUtils.kt:37-41 | Row i + 1 compares the i-th checksums. |
| DebugStrings.SectionTable | src/main/kotlin/internal/checksums/debugUtils.kt:34-43 | The imperative table build renders exactly the header and comparison rows. |
| DebugStrings.Sections | src/main/kotlin/internal/checksums/debugUtils.kt:27-45 | There is one section per file, in the files' order. Each is the file's name followed by the indented table of that file's current and stored lines. |
| DebugStrings.SectionStartsWithFile | src/main/kotlin/internal/checksums/debugUtils.kt:45 | A section's first line is the file name. |
| DebugStrings.SectionNotBlank | src/main/kotlin/internal/checksums/debugUtils.kt:45-46 | A section is never blank. |
| DebugStrings.ChecksumsBody | src/main/kotlin/internal/checksums/debugUtils.kt:27-46 | With no files, the body is `(no checksums)`. Otherwise it is the sections, joined. |
| DebugStrings.FramedShape | src/main/kotlin/internal/checksums/debugUtils.kt:48-52 | `trimMargin()` of the frame starts and ends with the `--------` rule. |
| DebugStrings.DebugStringFramed | src/main/kotlin/internal/checksums/debugUtils.kt:48-52 | Every debug string starts and ends with the rule. |
| StringTable.Columns | src/main/kotlin/utils/StringTableBuilder.kt:34 | The column count is the largest row size, or 0 when there are no rows. |
| StringTable.ColumnWidth | src/main/kotlin/utils/StringTableBuilder.kt:36-39 | A column's width is its widest cell. A missing cell counts as `""`. |
| StringTable.MaxColWidths | src/main/kotlin/utils/StringTableBuilder.kt:33-44 | There is one width per column, each that column's width. |
| StringTable.RowsFit | src/main/kotlin/utils/StringTableBuilder.kt:33-44 | Every cell fits its column's width. |
| StringTable.StringTableBuilder.constructor | src/main/kotlin/utils/StringTableBuilder.kt:8-12 | A new builder has no rows. |
| StringTable.StringTableBuilder.Row | src/main/kotlin/utils/StringTableBuilder.kt:14-17 | `row(…)` appends one row and changes nothing else. |
| StringTable.StringTableBuilder.Render | src/main/kotlin/utils/StringTableBuilder.kt:19-31 | The imperative render gives the row texts of the rows, each ended by a line feed. |
| StringTable.AppendRow | src/main/kotlin/utils/StringTableBuilder.kt:24-27 | The inner loop appends each cell padded to its width with a space after it. |
| StringTable.BuildTable | src/main/kotlin/utils/StringTableBuilder.kt:47-48 | `buildTable` renders the rows that were added. |
| StringTable.RenderedEmpty | src/main/kotlin/utils/StringTableBuilder.kt:22-34 | A table with no rows renders as `""`. |
| StringTable.CellLength | src/main/kotlin/utils/StringTableBuilder.kt:26 | A cell that fits is its column width plus one. |
| StringTable.RowTextLength | src/main/kotlin/utils/StringTableBuilder.kt:24-27 | A row's length is the sum of its columns' widths plus one per cell. |
| StringTable.CellAt | src/main/kotlin/utils/StringTableBuilder.kt:24-27 | Cell c of a row sits at the offset of the columns before it, so the columns line up. |
| StringTable.EqualRowsEqualLines | src/main/kotlin/utils/StringTableBuilder.kt:23-29 | Rows with the same number of cells render to lines of equal length. |
| StringTable.RenderedLines | src/main/kotlin/utils/StringTableBuilder.kt:22-30 | The rendered lines are the row texts, then a final empty line. |
| LegacyDebugStrings.GetChecksum | src/main/kotlin/utils/debugUtils.kt:28-29 | The older checksum cell is at least the fixed width. With its left padding dropped, it is the trimmed value or `<missing>`. |
| LegacyDebugStrings.PaddedEqual | src/main/kotlin/utils/debugUtils.kt:28-35 | Two padded cells are equal exactly when the unpadded checksums are. |
| LegacyDebugStrings.Rows | src/main/kotlin/utils/debugUtils.kt:31-37 | There is one row per index up to the longer list's length. |
| LegacyDebugStrings.RowMark | src/main/kotlin/utils/debugUtils.kt:33-36 | A row ends with ✅ exactly when the checksums agree, and with ❌ otherwise. |
| LegacyDebugStrings.Blocks | src/main/kotlin/utils/debugUtils.kt:24-40 | There is one block per file. |
| LegacyDebugStrings.BlockLines | src/main/kotlin/utils/debugUtils.kt:39 | A block's lines are the file name, then its rows. |
| LegacyDebugStrings.ParseEqualsLine | src/main/kotlin/utils/debugUtils.kt:12-17 | The older parser reads a line exactly when it holds `=`, and splits it at the first `=`. |
| LegacyDebugStrings.DebugStringStart | src/main/kotlin/utils/debugUtils.kt:42 | The older debug string starts with its title. |
| GradleUtils.DropDirectories | src/main/kotlin/utils/gradleUtils.kt:109-110 | The first `count` segments are dropped (all of them when there are fewer). The result names a file. |
| GradleUtils.DropDirectory | src/main/kotlin/utils/gradleUtils.kt:114-115 | `dropDirectory()` drops exactly one directory: the first segment, or nothing from an empty path. The result names a file. |
| GradleUtils.DropNothing | src/main/kotlin/utils/gradleUtils.kt:109-110 | Dropping nothing keeps the segments. |
| GradleUtils.DropTwice | src/main/kotlin/utils/gradleUtils.kt:109-110 | Dropping a and then b directories is dropping a + b. |
| GradleUtils.DropDirectoryOfCons | src/main/kotlin/utils/gradleUtils.kt:114-115 | `head/rest` becomes the file path `rest`. |
| GradleUtils.Configuration.CanBeDeclared | src/main/kotlin/utils/gradleUtils.kt:77-84 | `canBeDeclared` reads as false on Gradle versions without the flag. |
| GradleUtils.Configuration.SetCanBeDeclared | src/main/kotlin/utils/gradleUtils.kt:85-92 | Setting the flag takes effect only where it is supported, and leaves the other two flags alone. |
| GradleUtils.Configuration.Declarable | src/main/kotlin/utils/gradleUtils.kt:31-35 | A declarable configuration is neither resolvable nor consumable, and is declarable where that is supported. |
| GradleUtils.Configuration.Consumable | src/main/kotlin/utils/gradleUtils.kt:47-51 | A consumable configuration is consumable only. |
| GradleUtils.Configuration.Resolvable | src/main/kotlin/utils/gradleUtils.kt:63-67 | A resolvable configuration is resolvable only. |
| Disk.FileSystem.DeleteRecursively | src/main/kotlin/tasks/GeneratePublicationDataChecksumTask.kt:50 | Everything at and below the path is removed, and nothing else. |
| Disk.FileSystem.Mkdirs | src/main/kotlin/tasks/GeneratePublicationDataChecksumTask.kt:51 | The path becomes a directory unless a file is already there. |
| Disk.FileSystem.WriteBytes | src/main/kotlin/tasks/GeneratePublicationDataChecksumTask.kt:66 | The write succeeds exactly when the parent is a directory and the target is not one. On success, only the target holds the new bytes. |
| Disk.FileSystem.CreateNewFile | src/main/kotlin/tasks/GeneratePublicationHashTask.kt:43-46 | `createNewFile` succeeds exactly when the file is absent and its parent is a directory. |
| Disk.FileSystem.Sync | src/main/kotlin/tasks/GeneratePublicationDataChecksumTask.kt:75-78 | `fs.sync { from; into }` leaves the new state of a Gradle sync. |
| Disk.SubtreeOfSync | src/main/kotlin/tasks/GeneratePublicationDataChecksumTask.kt:75-78 | After a sync, the target holds exactly the copied tree. |
| Disk.OutsideOfSync | src/main/kotlin/tasks/GeneratePublicationDataChecksumTask.kt:75-78 | A sync changes nothing outside its target. |
| Disk.SyncKeepsDisjoint | src/main/kotlin/tasks/UpdateDevRepoTask.kt:75-90 | A tree that neither contains the target nor lies inside it is unchanged by a sync. |
| Disk.SyncIdempotent | src/main/kotlin/tasks/UpdateDevRepoTask.kt:75-90 | Syncing the same tree twice is syncing it once. |
| Utf8.Encode | src/main/kotlin/tasks/GeneratePublicationDataChecksumTask.kt:66 | `writeText` writes between one and four bytes per character. |
| Utf8.DecodeEncode | src/main/kotlin/internal/checksums/LoadPublicationChecksum.kt:23 | `readText` of what `writeText` wrote gives the text back. |
| Text.Trim | src/main/kotlin/internal/checksums/CreatePublicationChecksum.kt:31 | `trim()` leaves text that neither starts nor ends with whitespace. |
| Text.TrimmedIsFixpoint | src/main/kotlin/internal/checksums/LoadPublicationChecksum.kt:24 | Trimming a trimmed text changes nothing. |
| Text.TrimIdempotent | src/main/kotlin/internal/checksums/LoadPublicationChecksum.kt:24 | Trimming twice is trimming once. |
| Text.LinesHaveNoBreaks | src/main/kotlin/internal/checksums/debugUtils.kt:17 | `lines()` gives lines without line breaks. |
| Text.LinesOfJoin | src/main/kotlin/internal/checksums/debugUtils.kt:17 | `lines()` of breakless lines joined with `\n` gives those lines back. |
| Text.PadEnd | src/main/kotlin/utils/StringTableBuilder.kt:26 | `padEnd` keeps the value and adds spaces after it up to the width. |
| Text.PadStart | src/main/kotlin/utils/debugUtils.kt:29 | `padStart` keeps the value and adds spaces before it up to the width. |
| Text.PadStartRoundTrip | src/main/kotlin/utils/debugUtils.kt:29 | Left padding is undone by dropping the leading spaces. |
| Text.PadStartInjective | src/main/kotlin/utils/debugUtils.kt:29 | Padded cells are equal exactly when the values are. |
| Text.IndexOf | src/main/kotlin/utils/stdlibUtils.kt:5 | The index found is the first occurrence of the delimiter. None means it does not occur. |
| Sorting.SortStrings | src/main/kotlin/internal/checksums/CreatePublicationChecksum.kt:42 | `sorted()` gives a sorted permutation of the lines. |
| Sorting.SortStringsPermutationInvariant | src/main/kotlin/internal/checksums/CreatePublicationChecksum.kt:42 | Any two orderings of the same lines sort to the same result. |
| Sorting.SortStringsOfSorted | src/main/kotlin/internal/checksums/CreatePublicationChecksum.kt:42 | Sorting sorted lines changes nothing. |
| Sorting.LexLeIsOrder | src/main/kotlin/internal/checksums/CreatePublicationChecksum.kt:42 | String comparison is a total order. |
| Sorting.MapPermutation | src/main/kotlin/internal/checksums/CreatePublicationChecksum.kt:37-41 | Mapping permuted files gives permuted lines. |
| Collect.Traverse | src/main/kotlin/tasks/GeneratePublicationDataChecksumTask.kt:55-64 | When every publication's checksum can be obtained, there is one text per publication. |
| Collect.TraverseSome | src/main/kotlin/tasks/GeneratePublicationDataChecksumTask.kt:55-64 | The texts are obtained exactly when each publication's checksum is. |
| GenerateTasks.Staged | src/main/kotlin/tasks/GeneratePublicationDataChecksumTask.kt:55-66 | The temporary directory holds only files, one per publication name. |
| GenerateTasks.Generate | src/main/kotlin/tasks/GeneratePublicationDataChecksumTask.kt:47-79 | `generate()` succeeds exactly when every publication's artifacts can be read. <br>• On success, each text is staged in the cleared temporary directory and synced into the output directory. <br>• On failure, nothing outside the temporary directory has changed. |
| GenerateTasks.TextsSucceed | src/main/kotlin/tasks/GeneratePublicationDataChecksumTask.kt:60-64 | The texts are obtained exactly when all artifacts are readable. |
| GenerateTasks.ArtifactsUntouched | src/main/kotlin/tasks/GeneratePublicationDataChecksumTask.kt:50-66 | Staging does not change artifacts outside the temporary directory. |
| GenerateTasks.StagedKeys | src/main/kotlin/tasks/GeneratePublicationDataChecksumTask.kt:58 | The files staged are exactly the publications' `<name>.txt`. |
| GenerateTasks.StagedAt | src/main/kotlin/tasks/GeneratePublicationDataChecksumTask.kt:58-66 | With distinct names, each publication's file holds its own text as UTF-8. |
| GenerateTasks.StoreHoldsExactlyStaged | src/main/kotlin/tasks/GeneratePublicationDataChecksumTask.kt:75-78 | The output directory ends up holding exactly the staged files, with nothing stale. |
| GenerateTasks.StoredAt | src/main/kotlin/tasks/GeneratePublicationDataChecksumTask.kt:58-78 | Each publication's `<name>.txt` in the output directory is a regular file holding its text. |
| GenerateTasks.StoredChecksumRoundTrip | src/main/kotlin/tasks/GeneratePublicationDataChecksumTask.kt:66 | Each stored text loads back: as written with the older loader, and identically with the current one when the text is trimmed. |
| GenerateTasks.FingerprintTrimmed | src/main/kotlin/internal/checksums/CreatePublicationChecksum.kt:31 | Every fingerprint is trimmed. |
| GenerateTasks.GenerateThenLoad | src/main/kotlin/tasks/GeneratePublicationDataChecksumTask.kt:60-78 | Loading a publication's checksum after `generate()` gives the value source's text, as computed on the file system the checksum task started from. |
| GenerateTasks.WriteChecksumFile | src/main/kotlin/tasks/GeneratePublicationHashTask.kt:42-47 | `parentFile.mkdirs()`, `createNewFile()` and `writeText` leave the parent directory, with the file holding the bytes. |
| GenerateTasks.WriteLegacyFile | src/main/kotlin/tasks/GeneratePublicationHashTask.kt:42-48 | One publication's older checksum is written into the temporary directory. |
| GenerateTasks.StageLegacy | src/main/kotlin/tasks/GeneratePublicationHashTask.kt:39-51 | The `forEach` loop stages every publication's older checksum text. With no publications, the temporary directory is left deleted. |
| GenerateTasks.GenerateLegacy | src/main/kotlin/tasks/GeneratePublicationHashTask.kt:36-57 | The older `generate()` deletes the temporary directory, stages the texts and syncs them into the output directory. |
| GenerateTasks.GenerateLegacyThenLoad | src/main/kotlin/tasks/GeneratePublicationHashTask.kt:47-56 | The older loader reads back each publication's `createChecksumContent`. |
| UpdateDevRepo.Copied | src/main/kotlin/tasks/UpdateDevRepoTask.kt:75-89 | The copied tree holds only files and never the root. |
| UpdateDevRepo.Collect | src/main/kotlin/tasks/UpdateDevRepoTask.kt:76-85 | Visiting the files in order builds the copied tree. |
| UpdateDevRepo.Update | src/main/kotlin/tasks/UpdateDevRepoTask.kt:74-91 | `updateDevRepo()` leaves the file system synced with the files of both inputs, each with its first directory dropped. The publication-store files are exactly the regular files below `publicationsStore` on the file system it changes, with their bytes. |
| UpdateDevRepo.CopiedKeys | src/main/kotlin/tasks/UpdateDevRepoTask.kt:76-85 | A path is copied exactly when some file's target is that path. |
| UpdateDevRepo.CopiedAt | src/main/kotlin/tasks/UpdateDevRepoTask.kt:75-88 | With distinct targets, every file lands at its target with its own bytes. |
| UpdateDevRepo.DevRepoHoldsCopied | src/main/kotlin/tasks/UpdateDevRepoTask.kt:75-90 | The dev repository ends up holding exactly the copied files: no empty directories and nothing stale. |
| UpdateDevRepo.UpdateIdempotent | src/main/kotlin/tasks/UpdateDevRepoTask.kt:75-90 | Running the update again with the same inputs changes nothing. |
| UpdateDevRepo.InputsUntouched | src/main/kotlin/tasks/UpdateDevRepoTask.kt:87 | Inputs that lie apart from the dev repository are not changed. |
| UpdateDevRepo.FileLandsBelowDevRepo | src/main/kotlin/tasks/UpdateDevRepoTask.kt:76-85 | A file `<dir>/<rest>` of an input becomes `<devRepo>/<rest>` with its bytes. |
| UpdateDevRepo.ListedIndex | src/main/kotlin/tasks/UpdateDevRepoTask.kt:76 | Every regular file `<publicationsStore>/<dir>/<rest>` on disk is visited with relative path `<dir>/<rest>` and its bytes. |
| UpdateDevRepo.StoredFileLandsInDevRepo | src/main/kotlin/tasks/UpdateDevRepoTask.kt:76-80 | A file that `Plugin.DoLast` left at `<publicationsStore>/<taskName>/<rest>` lands at `<devRepo>/<rest>` with the bytes it has on disk. |
| Plugin.ConfiguredTasks | src/main/kotlin/DevPublishPlugin.kt:96-100 | Every `…ToDevPublishMavenRepository` publish task is configured. A name shorter than the suffix never is. |
| Plugin.Gate | src/main/kotlin/DevPublishPlugin.kt:199-211 | The gate has three outcomes. <br>• A publish task for another repository always runs. <br>• For the dev repository, the publish task runs exactly when the current and stored checksums differ. <br>• A stored checksum that cannot be read makes the publish task fail. |
| Plugin.GateRunsWithoutStoredChecksum | src/main/kotlin/DevPublishPlugin.kt:194-211 | Before any checksum is stored, the publish task runs. |
| Plugin.CurrentChecksumReadsNoFile | src/main/kotlin/DevPublishPlugin.kt:189-192 | The plugin's current checksum is `identifier\n---`, whatever the files hold. |
| Plugin.GateSeesOnlyStoredFile | src/main/kotlin/DevPublishPlugin.kt:189-211 | As written, the gate's decision depends only on the stored checksum file. |
| Plugin.StoredAfterGenerate | src/main/kotlin/DevPublishPlugin.kt:194-197 | After the checksum task runs, the stored checksum is the value source's text over the artifacts. |
| Plugin.ArtifactLinesDiffer | src/main/kotlin/DevPublishPlugin.kt:189-192 | A publication with artifacts never has a current checksum equal to a stored one. |
| Plugin.GateNeverSkipsStoredArtifacts | src/main/kotlin/DevPublishPlugin.kt:189-211 | As written, data with artifacts is never skipped after its checksum is stored. The plugin itself never builds such data. |
| Plugin.GateAlwaysSkipsAsWired | src/main/kotlin/DevPublishPlugin.kt:138-211 | As wired, with the plugin's own artifact-less data in both the checksum task and the gate, the publish task is skipped after `generate()` whatever the other files hold, while the stored file stays as it left it. |
| Plugin.CorrectedGateSkipsUnchanged | src/main/kotlin/DevPublishPlugin.kt:189-211 | Corrected, an unchanged publication is skipped. |
| Plugin.CorrectedGateRunsOnChange | src/main/kotlin/DevPublishPlugin.kt:189-211 | Corrected, the publish task runs exactly when the fingerprint differs from the one stored. |
| Plugin.GenerateKeepsArtifacts | src/main/kotlin/tasks/GeneratePublicationDataChecksumTask.kt:60-64 | The checksum task leaves artifacts outside its temporary directory and checksum store untouched, and so their fingerprint. |
| Plugin.RewrittenArtifact | src/main/kotlin/DevPublishPlugin.kt:189-211 | Rewriting an artifact outside the checksum store with content of another digest keeps the stored file and changes the fingerprint. |
| Plugin.CorrectedGateRunsOnArtifactChange | src/main/kotlin/services/DevPublishService.kt:32-53 | Corrected, over data built with the publication's artifacts, rewriting one of them after the checksum is stored makes the publish task run. |
| Plugin.DoFirst | src/main/kotlin/DevPublishPlugin.kt:217-223 | For the dev repository, the staging directory is emptied. Otherwise nothing changes. |
| Plugin.DoLast | src/main/kotlin/DevPublishPlugin.kt:225-238 | For the dev repository, staging is synced into the publication store and then cleared. |
| Plugin.ClearedIsEmpty | src/main/kotlin/DevPublishPlugin.kt:220-221 | After clearing, staging is an empty directory and nothing else has changed. |
| Plugin.CapturedHoldsStaging | src/main/kotlin/DevPublishPlugin.kt:228-236 | The publication store ends up holding what staging held, and staging is emptied. |
| Plugin.PublicationCaptured | src/main/kotlin/DevPublishPlugin.kt:217-238 | What the publish writes into the cleared staging is exactly what the publication store holds afterwards. |
| Plugin.IdentifierParts | src/main/kotlin/DevPublishPlugin.kt:265 | `group:artifact:version` splits back into its parts when the group and artifact hold no `:`. |
| Plugin.CreatePublicationData | src/main/kotlin/DevPublishPlugin.kt:256-281 | A null publication gives null. Otherwise the data has the publication's name and identifier, and no artifacts. |
| Plugin.ServicePublicationData | src/main/kotlin/services/DevPublishService.kt:32-53 | A null publication gives null. Otherwise the data has the publication's name and identifier, and its artifact files. |
| Plugin.ServiceDataAddsArtifacts | src/main/kotlin/services/DevPublishService.kt:41-52 | The service's data differs from the plugin's only in holding the artifact files. |
| Plugin.UppercaseFirstChar | src/main/kotlin/DevPublishPlugin.kt:302 | Only a lower-case first letter changes, to the upper-case letter 32 code points below it. |
| Plugin.UppercaseFirstCharIdempotent | src/main/kotlin/DevPublishPlugin.kt:302 | Upper-casing the first character twice is the same as once. |
| Plugin.GenerateModuleMetadataTaskName | src/main/kotlin/DevPublishPlugin.kt:301-302 | The name is `generateMetadataFileFor` + the capitalised name + `Publication`. |
| Plugin.MetadataTaskNameMatches | src/main/kotlin/DevPublishPlugin.kt:301-302 | Two publications share a metadata task exactly when their capitalised names agree. |
| FileTree.PathGlobMatchers.constructor | src/testFixtures/kotlin/filetree.kt:108-111 | A new matcher has no patterns. |
| FileTree.PathGlobMatchers.Include | src/testFixtures/kotlin/filetree.kt:113-117 | `include(…)` appends include patterns only. |
| FileTree.PathGlobMatchers.Excludes | src/testFixtures/kotlin/filetree.kt:119-123 | `excludes(…)` appends exclude patterns only. |
| FileTree.MatchesIff | src/testFixtures/kotlin/filetree.kt:131-136 | A regular file matches exactly when no exclude and every include matches it. Anything else always matches. |
| FileTree.NoneMatchIff | src/testFixtures/kotlin/filetree.kt:133 | `none` holds exactly when no pattern matches. |
| FileTree.AllMatchIff | src/testFixtures/kotlin/filetree.kt:133 | `all` holds exactly when every pattern matches. |
| FileTree.SortsBeforeIsOrder | src/testFixtures/kotlin/filetree.kt:147-155 | `FileSorter` is a total, transitive order: directories first, then by name. |
| FileTree.Keep | src/testFixtures/kotlin/filetree.kt:63-69 | `filter` keeps exactly the entries that satisfy the predicate. |
| FileTree.KeepPermutation | src/testFixtures/kotlin/filetree.kt:63-69 | Filtering permuted entries gives permuted results. |
| FileTree.ListDirectoryEntries | src/testFixtures/kotlin/filetree.kt:58-70 | The listing holds exactly the entries that are directories or matching files. |
| FileTree.Shown | src/testFixtures/kotlin/filetree.kt:33-36 | Only entries of the directory are drawn. |
| FileTree.ShownIff | src/testFixtures/kotlin/filetree.kt:33-36 | An entry is drawn exactly when either it is a matching file, or it is a directory with a matching file somewhere below it. |
| FileTree.ShownOrder | src/testFixtures/kotlin/filetree.kt:70 | Drawn directories come before files, with each kind in name order. |
| FileTree.ShownNonEmpty | src/testFixtures/kotlin/filetree.kt:33-36 | A directory with a matching file draws at least one entry. |
| FileTree.Selected | src/testFixtures/kotlin/filetree.kt:28-56 | The drawing keeps each node's name and kind. |
| FileTree.DirectoryHeader | src/testFixtures/kotlin/filetree.kt:47-51 | A directory with matching files is drawn with `/` and entries below it. |
| FileTree.ListingOrderIrrelevant | src/testFixtures/kotlin/filetree.kt:61-70 | The tree string does not depend on the order in which the file system lists entries. |
| FileTree.SelectedEntriesClean | src/testFixtures/kotlin/filetree.kt:28-56 | Every entry below a directory with plain names draws cleanly. |
| FileTree.EntryEnd | src/testFixtures/kotlin/filetree.kt:44-54 | A drawn entry never ends with a line feed. |
| FileTree.JoinEnd | src/testFixtures/kotlin/filetree.kt:38-55 | Joined entries never end with a line feed. |
| FileTree.TreeEnd | src/testFixtures/kotlin/filetree.kt:28-56 | A non-empty tree string never ends with a line feed. |
| FileTree.RenderTree | src/testFixtures/kotlin/filetree.kt:18-26 | `toTreeString { … }` configures the matcher, then draws the tree with it. |
| StringUtils.ReplaceAppend | src/testFixtures/kotlin/stringUtils.kt:4-6 | Characters are replaced one at a time, so the result for a concatenation is the concatenation of the results. |
| StringUtils.ReplaceInPlace | src/testFixtures/kotlin/stringUtils.kt:4-6 | With a one-character replacement, letters and digits stay in place and every other character becomes the replacement. |
| StringUtils.ReplaceKeepsAlphaNumeric | src/testFixtures/kotlin/stringUtils.kt:4-6 | A string of letters and digits is unchanged. |
| StringUtils.DefaultLeavesOnlyAllowed | src/testFixtures/kotlin/stringUtils.kt:4-6 | With the default `-`, only letters, digits and `-` remain. |
| StringUtils.DefaultIdempotent | src/testFixtures/kotlin/stringUtils.kt:4-6 | Replacing twice is replacing once. |
| KotestUtils.RemovePrefix | src/testFixtures/kotlin/kotestUtils.kt:10 | `removePrefix` removes the prefix when it is there, and leaves the string unchanged otherwise. |
| KotestUtils.SpecPath | src/testFixtures/kotlin/kotestUtils.kt:10 | A spec's path is its id, without the package prefix, followed by the suffix. |
| KotestUtils.PathAsWritten | src/testFixtures/kotlin/kotestUtils.kt:8-12 | As written, a test's path is the spec part plus the outermost test's segment only. |
| KotestUtils.NestedTestsShareDirectory | src/testFixtures/kotlin/kotestUtils.kt:11 | As written, two tests in one context get the same path. |
| KotestUtils.PathOfChain | src/testFixtures/kotlin/kotestUtils.kt:7-12 | Corrected, the path is the spec part, then one segment per nested test (outermost first), then the suffix. |
| KotestUtils.ChildBelowParent | src/testFixtures/kotlin/kotestUtils.kt:7-11 | Corrected, a test's directory is its parent's directory plus its own segment. |
| KotestUtils.SiblingsApart | src/testFixtures/kotlin/kotestUtils.kt:7-11 | Corrected, sibling tests share a directory only when their sanitised names agree. |
| KotestUtils.SegmentShape | src/testFixtures/kotlin/kotestUtils.kt:11 | A segment is `/` followed only by letters, digits and `-`. |

## Left out

- SHA-256 and glob matching are function parameters, not implementations. SHA-256 is treated as any function to 32-byte digests. No collision-freedom is assumed, so lemmas about changed files require the digests to differ.
- Base64 is the standard alphabet with padding. `Base64.Decode` is specified only on the encoder's output, which is all the model needs.
- UTF-8 decoding replaces a malformed lead byte with U+FFFD one byte at a time. It is proved inverse to encoding; it does not model the JDK's handling of every malformed sequence.
- String lengths count Unicode scalar values, not UTF-16 code units, so padding differs from Kotlin for characters outside the Basic Multilingual Plane. `compareTo` is the ordering of char values.
- `isLetterOrDigit` and `uppercaseFirstChar` are ASCII-only. Other Unicode letters count as non-alphanumeric and are not upper-cased.
- `Disk.FileSystem.Mkdirs` creates only the named directory. Ancestors are implicit: the file system keeps no parent-chain invariant.
- Logging, the shared build service, Gradle's task wiring, lazy providers, configuration-cache inputs and up-to-date checks are not modelled. The plugin's `provider {…}` values are computed eagerly from the file system the gate sees.
- Gradle versions are reduced to one flag on `GradleUtils.Configuration`: whether `isCanBeDeclared` is supported (Gradle 8.2 and later).
- `Plugin.CreatePublicationData` always gives empty artifacts, as the source does. How a publication's artifact files are collected in Gradle is not modelled; `Plugin.ServicePublicationData` takes them as a field of the publication.
- Plugin.CreatePublicationData: the module-metadata file collection the source builds from the `generateMetadataFileFor…Publication` task and passes to `gradleModuleMetadata` (src/main/kotlin/DevPublishPlugin.kt:267-279) is dropped. `data/PublicationData.kt` has no such property and nothing reads it; `Plugin.GenerateModuleMetadataTaskName` models only the task's name.
- `utils.checksum` and `utils.FileChecksumSeparator`, imported at src/main/kotlin/data/PublicationData.kt:4-5, are not part of this model. The older renderers take the per-file checksum as a `Path -> string` parameter and use `:` as the separator.
- GradleUtils.DropDirectories: the count is a `nat`. The exception Kotlin's `drop` throws on a negative count is not modelled.
- The module-metadata files (`gradleModuleMetadata`) of a publication are always empty as the checksum task sets them. They are modelled in `CreateChecksum` but never non-empty in `GenerateTasks`.
- UpdateDevRepo.Update: the repository-contents files (`repositoryContents`, other projects' publications) are taken as a parameter and not read from the file system. Only the publication-store files are tied to it. The order in which Gradle visits files is not modelled either.
- UpdateDevRepo.CopiedAt: when two input files have the same target, the later one wins, and only that one is described. The lemmas assume distinct targets. A file directly at an input's root has no directory to drop, so it is not copied.
- FileTree.ListingOrderIrrelevant: requires the names in a directory to be distinct, as on a real file system. The last entry is picked by its index.
- FileTree.RenderTree: the concrete expected trees of the fixtures' own tests are not reproduced. The `includes.all` semantics is followed as the code has it; it is not the usual "any include".
- LegacyDebugStrings.Blocks: only the number of blocks and their line structure are stated, not the full rendered layout.
- LoadChecksum.Load: its own contract states only "null for no name" and "trimmed". The full relation to the file on disk is in `LoadChecksum.LoadTrimsLegacy` and `LoadChecksum.ReadExisting`.

## Findings

| source | as written | input that shows it | evidently intended | confidence | as-written member | corrected member |
|---|---|---|---|---|---|---|
| src/main/kotlin/DevPublishPlugin.kt:189-192 | The current checksum is computed from only the project directory and the identifier. The checksum task is fed the same `createPublicationData` results (src/main/kotlin/DevPublishPlugin.kt:138-148), which hold no artifacts. So its stored text is `identifier\n---` as well, and the gate reads nothing but the stored file. Given data with artifacts, which only `DevPublishService` builds and which the plugin does not create, the texts would never agree. | Any publication whose checksum `generate()` has just stored: adding a dependency or editing an artifact never re-runs the publish task. It is always skipped, against src/test/kotlin/IncrementalBuildTest.kt:35-45. | The current checksum is taken over the same parameters as the stored one, over data whose artifacts come from `publication.artifacts` as src/main/kotlin/services/DevPublishService.kt:41-51 builds them. An unchanged publication is then skipped and a changed one re-runs, as src/test/kotlin/IncrementalBuildTest.kt:25-45 expects. With the plugin's own data, which has no artifacts, the corrected gate still sees only the identifier. | not executed | Plugin.GateAlwaysSkipsAsWired | Plugin.CorrectedGateRunsOnArtifactChange |
| src/testFixtures/kotlin/kotestUtils.kt:11 | A test descriptor passes only its own segment to its parent and drops the suffix it was given. So only the outermost test's segment survives. | Spec `dev.adamko.gradle.dev_publish.FooTest`, context `a`, tests `x` and `y`: both paths are `FooTest/a`. | One segment per nested test, as the comment at line 7 says ("a distinct subdirectory for each test case"): `FooTest/a/x` and `FooTest/a/y`. | not executed | KotestUtils.NestedTestsShareDirectory | KotestUtils.PathOfChain |
