# Verified model of the Hudi reader's core

This project models five parts of hudi-rs in Dafny and proves what they promise, or exactly when they
keep it.

* **File groups** (`LogFiles`, `FileSlices`, `Placement`, `BatchOrder`, `FileGroups`, `MergeAlgebra`,
  `Builder`). A file group is an ordered map from instants to file slices. Base files open slices; a log
  file goes to the slice of the greatest instant not after its placement time (completion time if known,
  else requested time), or opens a slice of its own. Batches are sorted first, groups are merged key by
  key, and reads look slices up as of a time.
* **Filters and reads** (`InValues`, `Filters`, `RowMasks`, `ReadPipeline`, `ProjectionWidening`). Filters
  travel as text, become row masks over nullable columns, and are applied with a commit-time window and a
  projection to a whole slice, or batch by batch to a stream.
* **Pushdown** (`Pushdown`, `PushedFilters`). SQL expressions under three-valued logic are split,
  classified, turned into filters, carried as text and applied to rows.
* **Memory** (`Admission`, `Reservation`, `SharedPool`, `LimitStream`, `CappedAllocator`). A scan's budget
  becomes a slice count, each partition reserves from a shared pool, a limit cuts the stream off, and a
  capped allocator counts bytes with two atomics.
* **Formats** (`VarLong`, `OptionsText`). Hadoop variable-length longs and `key=value` option files.

Code that updates state in place is written as classes and loops, each proved against a function; the
laws are lemmas about those functions. Protocols of several threads or partitions are state machines whose
runs are arbitrary interleavings.

Conventions: instants, write tokens and cell values are only compared, so they are values of one ordered
type (`Rank`, the reals, in which every countable total order embeds). An ordered set of logs is a map from
sort keys to logs, because the set keeps one log of each key. 64-bit arithmetic saturates or wraps where
the program's does. Hash maps are walked in an arbitrary order.

Assumptions stated where they are used: a commit is requested no later than it completes (`WellTimed`;
`Placement.PlacedLogIsFoundIff` shows what happens otherwise); a counter of allocated bytes does not
overflow (`Fits`; under a cap, `CappedAllocator.CappedRunsNeverOverflow` gives a condition to check once);
for the meaning of exact filters, the text of each of their literals is cast back to that literal
(`ReadsBack`); filters have at least one value (`ValuedFilter`). `Filter::new` checks the last, but
`in_list` and `not_in_list` (`crates/core/src/expr/filter.rs:286-306`) build filters without it, and
comparing with an empty one would index past its end.

## Where the code does not do what its comments say

* `crates/core/src/file_group/mod.rs:281-282` says the order of log files keys on what placement looks up.
  It does for logs of one kind, but `log_file/mod.rs:243-250` puts every completed log before every pending
  one, and a log of an archived commit is "pending" to that order. A batch of both kinds can open two slices
  (`Placement.BatchOpensAtMostOneUnlessItSplits` says exactly when), and a read then misses the older log
  (`BatchOrder.ArchivedLogIsSplitOff`).
* The same order ties logs that differ in requested instant or extension, so an ordered set drops one of
  them, and which one depends on arrival (`BatchOrder.BatchIsConservedIff`, `BatchIsOrderIndependentIff`).
* `crates/core/src/file_group/builder.rs:43-58` merges groups in the order they come; where logs of one slice
  and sort key differ, the first stays (`MergeAlgebra.MergeIsOrderIndependentIff`), and so does the first in
  the order a hash map yields a listing (`Builder.BuildIsOrderIndependentIff`).
* `crates/datafusion/src/util/expr.rs:53-62` calls extracted filters weaker than their expressions. A
  comparison `literal < column` becomes `column < literal`, and the literals of a list are trimmed on their
  way, so that IN can miss a padded literal and NOT IN can refuse a row it should keep. Exactly when a
  conjunct is safe is `PushedFilters.ConjunctIsSafeIff`.
* `crates/core/src/file_group/reader.rs:907-917` widens a projection by the commit time only when a start is
  set, while the mask at 1124-1129 also needs it for a bare list of instants
  (`ProjectionWidening.WideningPreservesMeaningIff`, `BareInstantListFails`). The table's own incremental
  reads always set a start together with the list (`crates/core/src/table/mod.rs:796-836`), so this takes
  the internal option set by hand.
* A base file stream drops emptied batches before later steps can fail, so it can end quietly where the
  eager read reports an error (`ReadPipeline.StreamCanEndQuietly`; `StreamFailureIsReportedIff` says exactly
  when it does report one).
* `crates/datafusion/src/hudi_exec.rs:101` multiplies without a check: in a build that wraps, slices can be
  granted that nothing is reserved for (`Reservation.GrantsArePaidForIff`).
* The comment at `crates/core/src/hfile/block.rs:273` gives `-111 - first_byte` as the number of further
  bytes; the code takes it as the whole size. That is right for markers down to -120, and eight too many
  below, where Hadoop writes negative values (`VarLong.RoundTripIff`).

## Model

| member | source | states |
|---|---|---|
| LogFiles.CompareIsKeyOrder | crates/core/src/file_group/log_file/mod.rs:231-260 | The comparison of log files is a total order of their (pending, time, version, token) keys; two logs tie exactly when they share the key, which ignores requested instant and extension |
| LogFiles.CompareMeaning | crates/core/src/file_group/log_file/mod.rs:231-260 | Completed logs come before pending ones, then the earlier completion or requested time, then the lower version, then the lower token; two logs share a key exactly when they agree in all of these |
| LogFiles.SortSorts | crates/core/src/file_group/mod.rs:287-288 | The sort before placement orders any batch by that comparison |
| LogFiles.SortPermutes | crates/core/src/file_group/mod.rs:287-288 | Sorting neither adds nor loses a log |
| LogFiles.SortKeepsFirst | crates/core/src/file_group/mod.rs:287-288 | The sort is stable: of logs that tie, the first to arrive stays first |
| LogFiles.SortSplits | crates/core/src/file_group/log_file/mod.rs:231-260 | Sorting any batch is sorting its completed logs, followed by its pending logs sorted among themselves |
| Placement.PlacementSettles | crates/core/src/file_group/mod.rs:201-268 | Placing logs one by one, in any order and from any slices, gives a result described without any order: every new key lies below every old one, and every slice holds what it had plus the logs that a lookup in the final keys sends to it |
| Placement.PlaceMeaning | crates/core/src/file_group/mod.rs:201-268 | One log goes to the latest slice not after its completion time, or its requested instant when pending; with none, to a slice of its requested instant, new and without base file; all other slices stay, and a log already held under its key stays |
| Placement.PlacedLogIsFound | crates/core/src/file_group/mod.rs:201-304 | After any sequence of placements, a read as of a log's own time finds a slice holding that log's key, kept from before or else the first log placed |
| Placement.PlacedLogIsFoundIff | crates/core/src/file_group/mod.rs:213-242 | A single placed log is found as of its own time if and only if an earlier slice existed or its requested instant is not after its placement time |
| Placement.StoredLogsAreAccountedFor | crates/core/src/file_group/mod.rs:201-268 | A slice holds a key if and only if it held it before or a placed log of that key looks up to this very slice; nothing is invented or moved |
| Placement.BatchKeys | crates/core/src/file_group/mod.rs:283-293 | The slices a sorted batch opens: one for its earliest completed log when no slice precedes it, then one for its earliest pending log when still none precedes that; each keyed by that log's requested instant |
| Placement.BatchOpensAtMostOneUnlessItSplits | crates/core/src/file_group/mod.rs:270-293 | A batch opens at most one slice if and only if it does not split, and two if and only if it does; it opens one at all exactly when some log has no slice at or before its time; a batch of only completed or only pending logs never splits |
| BatchOrder.BatchIsOrderIndependentIff | crates/core/src/file_group/mod.rs:270-293 | All arrival orders of a batch give the same slices if and only if no two different logs compete for one key that its slice does not hold yet |
| BatchOrder.BatchIsConservedIff | crates/core/src/file_group/mod.rs:220-268 | Every log of a batch is found as of its time after placement if and only if no two different logs of it share a key and every log whose key was held already is the one held |
| BatchOrder.FirstToArriveIsKept | crates/core/src/file_group/mod.rs:283-293 | Of competing logs the first to arrive is the one a later read finds |
| BatchOrder.UnsortedPlacementSplits | crates/core/src/file_group/mod.rs:270-282 | Two completed logs of one slice, placed in listing order with the later one first, end up in two slices; sorted they share one |
| BatchOrder.ArchivedLogIsSplitOff | crates/core/src/file_group/log_file/mod.rs:243-250 | Even sorted, a log whose commit is archived (no completion time) and a log of a later active commit are split over two slices, and a read as of any later time misses the archived one |
| BatchOrder.LogsOfOneInstantCompete | crates/core/src/file_group/log_file/mod.rs:238-242 | Two different logs completed at one instant with one version and token: one of them is dropped |
| FileGroups.HistoryKeeps | crates/core/src/file_group/mod.rs:82-304 | Over any sequence of calls, failed ones included: keys are creation instants, files and partition belong to the group, a base file's commit is its slice's key, a log-only slice never acquires a base file, and no slice or log is lost |
| FileGroups.AsOfIsLatest | crates/core/src/file_group/mod.rs:299-304 | The as-of lookup is the slice with the greatest key not after the time, fails exactly when all keys are later, and never goes back as the time grows |
| FileGroups.FileGroup.constructor | crates/core/src/file_group/mod.rs:82-88 | A new group has the given id and partition and no slices |
| FileGroups.FileGroup.AddBaseFile | crates/core/src/file_group/mod.rs:131-152 | A base file is admitted exactly when its file id matches and its commit is not a key yet; it then opens the slice of its commit, and nothing else changes |
| FileGroups.FileGroup.AddBaseFiles | crates/core/src/file_group/mod.rs:155-163 | Base files go in one by one up to the first that is refused, which fails the call and keeps what went in before |
| FileGroups.AdmittedCountMeaning | crates/core/src/file_group/mod.rs:131-163 | The base files that go in are of the group and of distinct new commits; the first that does not is of another group, or of a commit that is there already or went in before it |
| FileGroups.FileGroup.AddLogFile | crates/core/src/file_group/mod.rs:201-268 | A log of the group goes where the placement function says, whichever of the two branches takes it; a foreign log is refused and changes nothing |
| FileGroups.FileGroup.AddLogFiles | crates/core/src/file_group/mod.rs:283-293 | The sorted batch is placed up to the first foreign log; the call succeeds exactly when there is none |
| FileGroups.FileGroup.MergeSlice | crates/core/src/file_group/mod.rs:108-117 | One slice is merged into the slice of its key, which fails and changes nothing when the two differ in more than logs, or taken in when there is none |
| FileGroups.FileGroup.Merge | crates/core/src/file_group/mod.rs:102-119 | Merging succeeds exactly when the ids match and no slices under one key differ; otherwise exactly the slices before the first conflicting key have been merged |
| FileGroups.FileGroup.GetFileSliceAsOf | crates/core/src/file_group/mod.rs:299-304 | Returns the slice of the greatest key not after the time, if any |
| MergeAlgebra.MergedIsUnion | crates/core/src/file_group/mod.rs:102-119 | A successful merge has the union of the keys and, under each key, the union of the logs, keeping its own log where both have one of a key |
| MergeAlgebra.AgreeIff | crates/core/src/file_group/file_slice.rs:109-118 | Two groups of one id can be merged if and only if under no shared key one has a base file the other lacks, or one of another token or extension |
| MergeAlgebra.MergeStopsAtFirstConflict | crates/core/src/file_group/mod.rs:102-119 | A merge that fails has taken in exactly the slices before the first that disagrees, and touched nothing from there on |
| MergeAlgebra.MergeIsIdempotent | crates/core/src/file_group/mod.rs:102-119 | Merging a group with itself succeeds and changes nothing |
| MergeAlgebra.MergeCommutesIff | crates/core/src/file_group/file_slice.rs:109-118 | Merging succeeds both ways or neither, and gives equivalent slices if and only if logs sharing a slice and key agree |
| MergeAlgebra.MergeAssociates | crates/core/src/file_group/mod.rs:102-119 | Both ways of merging three groups succeed together and give the very same slices |
| MergeAlgebra.MergeAllSucceedsIff | crates/core/src/file_group/builder.rs:43-58 | Folding groups into the set succeeds if and only if all groups under each id agree pairwise, and then holds for each id the merge of everything under it |
| MergeAlgebra.FoldUnites | crates/core/src/file_group/builder.rs:43-58 | The merge of everything under one id has exactly the slices of all its parts and, of logs that share a slice and sort key, the one of the part that came first |
| MergeAlgebra.MergeOrderChangesOnlyFirstLogs | crates/core/src/file_group/builder.rs:43-58 | Lists of the same groups in any order succeed alike and give the same ids with the same slice keys, whatever their logs; the results are equivalent exactly when the same logs come first |
| MergeAlgebra.MergeIsOrderIndependentIff | crates/core/src/file_group/builder.rs:43-58 | Every order of merging a list into a set gives equivalent groups if and only if under each id logs sharing a slice and sort key agree, save where the set held one before |
| MergeAlgebra.FileGroupSet.TakeMergeInsert | crates/core/src/file_group/builder.rs:48-55 | One group goes in under its id, merged with the namesake there was; if the two conflict the call fails and the namesake is gone |
| MergeAlgebra.FileGroupSet.Merge | crates/core/src/file_group/builder.rs:43-58 | The set's in-place merge is that fold; on failure the groups before the failing one are merged and the one taken out is gone |
| Builder.Collect | crates/core/src/file_group/builder.rs:256-313 | Reading a listing fails exactly on an unparsable active name, and otherwise gathers per file id exactly the committed active base files and logs in listing order |
| Builder.BuildGroup | crates/core/src/file_group/builder.rs:319-328 | Building one group fails exactly when two base files share a commit |
| Builder.BuildPartition | crates/core/src/file_group/builder.rs:316-332 | A partition builds exactly when all active names parse and no id has two committed base files of one commit; the result is one group for each id with a base file, made of that id's files, whatever order the map is walked in |
| Builder.FileGroupsFromFilesPartitionRecords | crates/core/src/file_group/builder.rs:243-342 | The build over all records succeeds exactly when every ordinary partition builds; the partition list is skipped and partitions without groups are left out |
| Builder.FilesOfMeaning | crates/core/src/file_group/builder.rs:259-312 | A group's base files are exactly the active listed files that are no logs, have a base file's name, and are of a committed commit, with the timeline's completion time and the listed size where positive; likewise its logs among the names that start with a dot |
| Builder.OneFileGives | crates/core/src/file_group/builder.rs:259-312 | A single listed file gives exactly that base file or log, or nothing |
| Builder.FilesOfAppend | crates/core/src/file_group/builder.rs:259-312 | What a listing gives is what its parts give, in the order of the listing |
| Builder.BuildableIff | crates/core/src/file_group/builder.rs:266-320 | A partition can be built if and only if every active name that claims to be a log or base file can be read, and no two listed committed base files of one id share a commit |
| Builder.BuiltGroupsConserve | crates/core/src/file_group/builder.rs:243-342 | Told from the listing alone: a partition's groups are one for each id with a committed active base file; each holds exactly the base files listed for it, each under its commit, and only logs listed for it, and all of those if and only if no two different ones share a sort key |
| Builder.BuildConservesFiles | crates/core/src/file_group/builder.rs:316-332 | A built group's base files are exactly the committed active ones of its id, each under its commit; every log it holds is one of its id's, in the single slice its time looks up; and it holds all of them if and only if no two different logs share a sort key |
| Builder.SuccessIsOrderIndependent | crates/core/src/file_group/builder.rs:243-342 | Whether the build succeeds never depends on the order in which the hash maps yield files |
| Builder.BuildIsOrderIndependentIff | crates/core/src/file_group/builder.rs:243-342 | Every order of the listing gives a group the same slices if and only if no two different logs of it share a sort key |
| InValues.SplitInValues | crates/core/src/expr/filter.rs:108-140 | The character loop with its one-character lookahead computes the recursive splitting of the text |
| InValues.SplitTakesSegments | crates/core/src/expr/filter.rs:97-140 | For any text, written as segments of characters that are kept or escaped: it is cut at exactly the bare commas, exactly the escaped commas and backslashes become one character, every other character is kept, and each segment is trimmed or dropped when blank |
| InValues.EveryTextIsSegments | crates/core/src/expr/filter.rs:97-140 | Every text can be written so, which settles the splitter on all texts |
| InValues.PlainTextIsOneValue | crates/core/src/expr/filter.rs:97-104 | A text without commas and without two backslashes in a row is one value, itself trimmed, lone backslashes included, or none when blank |
| InValues.TrimMeaning | crates/core/src/expr/filter.rs:126-137 | Trimming takes only white space from the two ends of a text, and all of it |
| InValues.EscapeInValue | crates/core/src/expr/filter.rs:144-154 | The escaping loop doubles backslashes and puts one before each comma |
| InValues.SplitUndoesJoin | crates/core/src/expr/filter.rs:68-154 | For every list of values, splitting the comma-joined escaped values gives each value trimmed, with empty ones dropped |
| InValues.CleanedIsIdentityIff | crates/core/src/expr/filter.rs:97-104 | Trimming and dropping changes nothing if and only if every value is trimmed and non-empty |
| InValues.SplitJoinSplit | crates/core/src/expr/filter.rs:97-154 | On any text, splitting, joining and splitting again is splitting once |
| Filters.ParseOperatorIff | crates/core/src/expr/mod.rs:58-104 | A text is read as an operator if and only if it is that operator's token up to the case of ASCII letters |
| Filters.TokensAreRead | crates/core/src/expr/mod.rs:58-104 | The eight tokens, each read as its operator, the two words in lower case too |
| Filters.LettersMatchInEitherCase | crates/core/src/expr/mod.rs:91-104 | Two characters match exactly when they are the same, or one ASCII letter in its two cases |
| Filters.TupleCarries | crates/core/src/expr/filter.rs:68-101 | What any filter comes back as from its tuple: a list with each value trimmed and the empty ones gone, which fails when none is left; a scalar with its first value, untrimmed |
| Filters.TupleRoundTripIff | crates/core/src/expr/filter.rs:68-101 | A filter survives the trip through its text tuple if and only if it has one value (scalar operators) or a non-empty list of trimmed non-empty values |
| Filters.ParsedFiltersArePortable | crates/core/src/expr/filter.rs:84-101 | Every filter read from a tuple survives all later trips |
| RowMasks.ApplyComparison | crates/core/src/expr/filter.rs:359-388 | Cell by cell the comparison is null on null and otherwise tells whether the operator holds; the IN and NOT IN loops are membership and non-membership for any number of values |
| RowMasks.FiltersToRowMask | crates/core/src/expr/filter.rs:176-194 | The mask fails exactly when some text of an applicable filter cannot be cast; it is null exactly on rows with a null in a filtered column, and true exactly on rows with values that satisfy the texts of all applicable filters, absent columns skipped |
| RowMasks.MeetsIff | crates/core/src/expr/filter.rs:331-388 | A row meets an IN filter exactly when some text of it is cast to the row's value, a NOT IN filter when none is, and any other when the value compares so with what the one text is cast to |
| RowMasks.NegationComplements | crates/core/src/expr/mod.rs:76-87 | On every non-null cell exactly one of an operator and its negation holds, on a null neither does, and negating twice is the identity |
| RowMasks.FilterOrNegation | crates/core/src/expr/filter.rs:59-66 | A filter and its negation keep exactly one of each row with a value in the column, and neither keeps a null |
| RowMasks.FilterOrderDoesNotMatter | crates/core/src/expr/filter.rs:176-194 | What a list of filters says of a row depends on neither their order nor repetition |
| ReadPipeline.CreateCommitTimeFilterMask | crates/core/src/file_group/reader.rs:1089-1171 | The mask exists exactly when metadata fields are populated and an instant list or a start is set; it fails exactly when it then lacks the commit time column; it marks the rows of a listed instant, or else those after the start and at or before the end, and never a null |
| ReadPipeline.ApplyCommitTimeFilter | crates/core/src/file_group/reader.rs:1187-1193 | Keeps, in order, exactly the rows inside the window |
| ReadPipeline.ApplyFilterMask | crates/core/src/file_group/reader.rs:1199-1206 | Keeps, in order, exactly the rows meeting every filter |
| ReadPipeline.ApplyEagerOptions | crates/core/src/file_group/reader.rs:1180-1184 | Validation, filtering and projection in this order |
| ReadPipeline.ReadIsRowWise | crates/core/src/file_group/reader.rs:1172-1206 | Whether a read fails depends on the columns alone; when it does not, it is a row-by-row selection and projection |
| ReadPipeline.ReadSucceedsIff | crates/core/src/file_group/reader.rs:1180-1206 | A read succeeds exactly when the commit time is there where rows are masked by it, every filtered and every requested column is there, and every filter text can be cast; its columns are the requested ones, or all |
| ReadPipeline.OneRowIsRead | crates/core/src/file_group/reader.rs:1089-1206 | A row is read exactly when it was committed at a listed instant, or else after the start and at or before the end, and satisfies the texts of all filters; it is given as its requested cells |
| ReadPipeline.ReadRowsAppend | crates/core/src/file_group/reader.rs:1172-1206 | The rows read of two stretches of a batch are those read of each, in order |
| ReadPipeline.ConsecutiveReadsAddUp | crates/core/src/file_group/reader.rs:1089-1171 | For a <= b <= c, the incremental reads of (a, b] and of (b, c] fail together with that of (a, c] or give, row for row, its rows between them: none twice and none missed |
| ReadPipeline.DisjointListsAddUp | crates/core/src/file_group/reader.rs:1100-1126 | Reads of two lists of instants that share none give between them the rows of the read of both lists |
| ReadPipeline.NarrowIsIdempotent | crates/core/src/file_group/reader.rs:657-668 | Applying the commit time filter twice is applying it once |
| ReadPipeline.StreamingEqualsEager | crates/core/src/file_group/reader.rs:847-857 | For every way of cutting merged rows into batches, the streamed batches fail together with the eager read or concatenate to its rows, with its columns |
| ReadPipeline.StreamBaseFile | crates/core/src/file_group/reader.rs:1003-1057 | The stream with its validate-once flag and its dropping of emptied batches yields exactly the items of each batch in turn |
| ReadPipeline.BaseStreamEqualsEager | crates/core/src/file_group/reader.rs:867-1060 | Streaming a base file gives the eager read's rows and columns in batches of which none is empty; if the eager read fails every item of the stream is an error |
| ReadPipeline.StreamFailureIsReportedIff | crates/core/src/file_group/reader.rs:1003-1057 | The stream gives an error if and only if it has a batch and a filter field is missing, or the commit time is missing where rows are masked by it, or rows survive the window and a filter value cannot be cast, or rows survive window and filters and a requested column is missing; how the file is cut plays no part |
| ReadPipeline.StreamCanEndQuietly | crates/core/src/file_group/reader.rs:1035-1044 | For any row with a commit time there is a read that fails eagerly while its stream ends without an item |
| ProjectionWidening.WidenProjection | crates/core/src/file_group/reader.rs:919-937 | The widening loops compute the widened columns |
| ProjectionWidening.WidenedMeaning | crates/core/src/file_group/reader.rs:883-937 | The widened columns start with the requested ones, repeat none, and are exactly those, the filtered columns not dropped from the files, and the commit time when a start is set |
| ProjectionWidening.WideningPreservesMeaningIff | crates/core/src/file_group/reader.rs:883-1057 | A narrow read fails where the full read fails; where the full read succeeds it gives the same batch if and only if it loses neither a filter on a dropped, unrequested column nor the commit time of an instant list without a start, and otherwise fails |
| ProjectionWidening.BareInstantListFails | crates/core/src/file_group/reader.rs:907-917 | Every query with an instant list, no start, no filters and a projection without the commit time: the full read succeeds and the narrow one fails |
| ProjectionWidening.NarrowStreamEqualsEager | crates/core/src/file_group/reader.rs:867-1060 | Widened columns, batching and per-batch steps together give the rows of one eager read of the whole file |
| Pushdown.ConjunctsMeanFilter | crates/datafusion/src/lib.rs:557-565 | A filter is true of a row exactly when all its conjuncts are, under three-valued logic |
| Pushdown.KleeneIsMinMax | crates/datafusion/src/lib.rs:557-565 | The engine's connectives on true, false and null are minimum, maximum and mirror image in the order false, null, true |
| Pushdown.ConjunctsDecide | crates/datafusion/src/lib.rs:429-542 | A filter can be pushed exactly when some conjunct of it can, and is partition-only exactly when all its conjuncts are |
| Pushdown.PushedIffSimple | crates/datafusion/src/lib.rs:429-474 | Under any negations, what is no conjunction is pushed exactly when it is a comparison of columns and literals, a range between literals or a non-empty list of literals, over columns of the table |
| Pushdown.PushedConjunctsAccept | crates/datafusion/src/lib.rs:589-607 | A row that all filters accept is accepted by every conjunct pushed to listing or to the scan |
| Pushdown.PartitionFiltersSeeOnlyPartitions | crates/datafusion/src/lib.rs:511-542 | A conjunct classed as partition-only has the same truth value on rows agreeing on the partition columns |
| PushedFilters.AcceptsIffPasses | crates/datafusion/src/util/expr.rs:103-223 | A comparison of a column and a literal on either side, its negation, and IN and NOT IN over literals are true, under three-valued logic, of exactly the rows whose column has a value of which the operator, turned round when the literal is on the left, holds |
| PushedFilters.TestArrives | crates/core/src/expr/filter.rs:68-165 | Such an expression arrives at the scan as one filter, for all literals and any list: scalars untouched, a list with each text trimmed and blank ones gone; the options fail when all texts of a list are blank |
| PushedFilters.TestIsSafeIff | crates/datafusion/src/util/expr.rs:103-223 | The filter that arrives can be applied and keeps every row the expression accepts, if and only if no order has its literal on the left and the arriving texts can be cast and ask for no more than the literals: cast to it for = and !=, to no stricter bound for an order, some text to every literal for IN, and each text to some literal for NOT IN |
| PushedFilters.RangeIsSafeIff | crates/datafusion/src/util/expr.rs:140-181 | The two filters of BETWEEN keep every row it accepts if and only if their bounds can be cast and do not shrink the range, unless it was empty |
| PushedFilters.ConjunctIsSafeIff | crates/datafusion/src/util/expr.rs:80-100 | Any conjunct that yields filters loses no row on its way to the scan if and only if it is safe to push, whatever the literal texts and casts |
| PushedFilters.TestMeansFilterIff | crates/datafusion/src/util/expr.rs:103-223 | The filter that arrives accepts exactly the rows of its expression if and only if it is not backward and the texts that arrive can all be cast and are cast to the very literals |
| PushedFilters.ClassificationFitsExtraction | crates/datafusion/src/lib.rs:429-474 | Of a conjunct that yields filters: pushable exactly when their columns are the table's, and partition-only exactly when their columns are partition columns |
| PushedFilters.PushdownNamesRealColumns | crates/datafusion/src/lib.rs:589-607 | All extracted filters name columns of the table, those for listing partition columns |
| PushedFilters.FiltersArriveIff | crates/core/src/expr/filter.rs:156-165 | A list of filters reaches the scan unchanged as text if and only if every one of them survives as text |
| PushedFilters.ScanKeepsAcceptedRows | crates/datafusion/src/lib.rs:843-855 | When every pushed conjunct is safe to push, all the filters arriving at the scan can be read and applied, and keep every row the engine's filters accept |
| PushedFilters.ExactIff | crates/datafusion/src/lib.rs:557-582 | A filter is reported exact if and only if each conjunct equates a partition column of the table with a literal |
| PushedFilters.ExactIsPushedWhole | crates/datafusion/src/lib.rs:557-607 | A filter reported exact is true of a row exactly when all the partition expressions it is pushed as are, it sees only partition columns, and its filters arrive unchanged; a filter is unsupported exactly when nothing of it is pushed |
| PushedFilters.EqualityMeansFilterIff | crates/datafusion/src/lib.rs:544-555 | The filter of an exact conjunct arrives unchanged, and accepts exactly its rows if and only if the text of its literal is cast back to that literal |
| PushedFilters.ExactMeansExact | crates/datafusion/src/lib.rs:557-607 | Where its literals are cast back to themselves, a filter reported exact is equivalent row by row to the partition filters it is pushed as |
| Admission.EstimateIsSaturatedCost | crates/core/src/file_group/admission.rs:45-73 | The estimate is 33 MiB plus four bytes for each log byte, saturated at the largest 64-bit value |
| Admission.SlicesInFlight | crates/core/src/file_group/admission.rs:85-117 | Without a budget the answer is the ceiling; with one, a slice of unknown size makes it one; it is always between one and the ceiling |
| Admission.AdmitsTheMost | crates/core/src/file_group/admission.rs:85-117 | Up to the ceiling, a count is admitted if and only if it is one or that many worst slices in every partition fit the budget |
| Admission.ScanStaysWithinBudget | crates/core/src/file_group/admission.rs:75-117 | When more than one slice is admitted, any choice of that many slices in each partition has unsaturated costs summing to at most the budget |
| Admission.AdmissionIsMonotone | crates/core/src/file_group/admission.rs:85-117 | A larger budget admits no fewer; more partitions, more slices or more log bytes admit no more |
| Admission.SplitKeepsAll | crates/core/src/util/collection.rs:37-49 | Chunking keeps every slice in order, makes no more chunks than asked for, and none but the last is shorter than an equal share rounded up, which none exceeds |
| Reservation.PlannedSlices | crates/datafusion/src/hudi_exec.rs:85-90 | One when a size is unknown; otherwise no more than the ceiling and the slices there are, and one of the two unless that is none |
| Reservation.PerSlice | crates/datafusion/src/hudi_exec.rs:338-346 | The estimate a partition reserves per slice is the greatest of its slices' estimates, one of unknown size counted as without logs; with all sizes known it is the worst the plan divides by |
| Reservation.MemoryReservation.TryGrow | crates/datafusion/src/hudi_exec.rs:101 | The pool grants exactly what it has free and is unchanged when it refuses |
| Reservation.ReserveForSlices | crates/datafusion/src/hudi_exec.rs:92-106 | The descending loop takes the greatest count whose wrapped product the pool can grant, else one with nothing reserved; a zero estimate takes all planned |
| Reservation.GrantIsGreatestAndPaidFor | crates/datafusion/src/hudi_exec.rs:92-106 | Without overflow, the count is the greatest the pool can pay for in full and exactly that many estimates are reserved; a zero estimate takes all planned slices and reserves nothing |
| Reservation.GrantsArePaidForIff | crates/datafusion/src/hudi_exec.rs:92-106 | Every granted count above one has all its bytes reserved, whatever the pool has free, if and only if the product for the planned count fits 64 bits; only builds without overflow checks wrap |
| Reservation.ConcurrencyIff | crates/datafusion/src/hudi_exec.rs:337-347 | A partition reads a number of slices at once exactly when it is one, or within the ceiling and the slices there are, with all sizes known, and the pool has that many of its worst estimates free |
| Reservation.Concurrency | crates/datafusion/src/hudi_exec.rs:337-347 | The count a partition executes with is at least one and at most the admitted count |
| Reservation.ExecutionStaysWithinBudget | crates/datafusion/src/lib.rs:721-730 | From budget through chunking, planning and reservation to execution, everything open at one time costs no more than the budget when it admitted more than one slice |
| SharedPool.RunIsSafe | crates/datafusion/src/hudi_exec.rs:92-106 | With many partitions and other consumers interleaved in any way, the pool is never over capacity, its use is exactly what is held, and every partition admits at least one slice |
| SharedPool.EveryPartitionGetsThrough | crates/datafusion/src/hudi_exec.rs:92-106 | Whatever the others do, a partition is through after at most as many tries as it planned slices, with between one and that many |
| SharedPool.DroppingReturnsBytes | crates/datafusion/src/hudi_exec.rs:92-106 | In every safe state a partition that reads can stop, and exactly the bytes it held are free again |
| SharedPool.UndisturbedTriesAreTheLoop | crates/datafusion/src/hudi_exec.rs:92-106 | A partition's tries with nothing in between end in exactly the count and bytes the reservation loop grants of what is free, and change nothing else |
| LimitStream.LimitBatchStream.PollNext | crates/datafusion/src/hudi_exec.rs:185-205 | One poll: nothing is asked of the inner stream once nothing remains; an over-long batch is cut to what remains; all else passes and only rows are counted |
| LimitStream.Drain | crates/datafusion/src/hudi_exec.rs:182-206 | Polling the stream to its end sees the run the lemmas speak of, and leaves the inner stream advanced by exactly the answers that run consumes |
| LimitStream.RunGivesPrefix | crates/datafusion/src/hudi_exec.rs:165-206 | Over every run the rows given are the first rows of the input, as many as the limit allows, and rows given and remaining always make up the limit |
| LimitStream.RunPassesThrough | crates/datafusion/src/hudi_exec.rs:185-205 | Answer by answer the output is the input but for a cut last batch; pending and errors pass as they are |
| LimitStream.AnswersAreConsumed | crates/datafusion/src/hudi_exec.rs:185-205 | The inner stream is consumed by one answer for each answer given, and by its end only if the limit was not met first |
| CappedAllocator.RunIsSafeIff | benchmark/filegroup/src/main.rs:195-216 | In every possible interleaving, all states keep the accounting and the cap if and only if no addition of the run overflows the counter |
| CappedAllocator.CappedRunsNeverOverflow | benchmark/filegroup/src/main.rs:195-216 | With a cap, if the cap plus the largest request or the cap for each thread fits the counter, no interleaving of requests up to that size ever overflows it, system refusals included, and every state is safe |
| CappedAllocator.AllocatorIsSafe | benchmark/filegroup/src/main.rs:195-216 | Under every interleaving without counter overflow: granted blocks never total more than the cap, the counter covers them and all requests in flight, exactly so when the system allocator never refuses, and no subtraction underflows |
| CappedAllocator.StepIsSafeIff | benchmark/filegroup/src/main.rs:198-216 | An atomic step keeps the accounting, and keeps granted, let-through and leaked bytes within the cap, if and only if it does not overflow the counter |
| CappedAllocator.LetThroughIff | benchmark/filegroup/src/main.rs:199-209 | A request whose steps nothing interrupts is let through if and only if no cap is set or the new wrapped count is at most the cap |
| CappedAllocator.UncappedNeverRefuses | benchmark/filegroup/src/main.rs:185-209 | Without a cap no interleaving ever refuses a request |
| CappedAllocator.RequestsThatFitAreNeverRefused | benchmark/filegroup/src/main.rs:195-216 | Under a cap with room for all a run requests, no interleaving ever refuses one of its requests |
| CappedAllocator.SystemAnswers | benchmark/filegroup/src/main.rs:209 | A request the system grants becomes a block; one it refuses stays counted for good |
| CappedAllocator.FreeUndoesGrant | benchmark/filegroup/src/main.rs:212-215 | Freeing a block leads back to the state before it was requested |
| CappedAllocator.RefusedCallLeavesNoTrace | benchmark/filegroup/src/main.rs:198-208 | The four steps of a refused call, with nothing in between, lead back to the very state before it, even when the counter wrapped |
| CappedAllocator.QuietCounterIsExact | benchmark/filegroup/src/main.rs:185-216 | When no call is in progress the counter is the granted bytes plus what the system refused |
| CappedAllocator.OverflowGrantsOverCap | benchmark/filegroup/src/main.rs:201-209 | A run in which the counter overflows and a block over the cap is granted |
| VarLong.ReadVarLong | crates/core/src/hfile/block.rs:274-297 | The shifting loop computes the big-endian value of the bytes, wrapped to 64 bits and complemented for markers below -120 |
| VarLong.SizeAgreesIff | crates/core/src/hfile/block.rs:299-311 | The size told from the first byte is the encoded length if and only if the value is at least -112 |
| VarLong.DecodeEncode | crates/core/src/hfile/block.rs:274-297 | Handed exactly the bytes of an encoded long, the decoder gives that long, negative ones included |
| VarLong.RoundTripIff | crates/core/src/hfile/block.rs:264-311 | At any offset in any bytes an encoded long is read back with its length when it is at least -112; when it is less it is taken for eight bytes longer than it is, and read as the complement of the eight bytes that follow it |
| OptionsText.ParseDataForOptions | crates/core/src/config/util.rs:60-84 | The line loop computes the fold of the lines into a map |
| OptionsText.PaddedEntryIsRead | crates/core/src/config/util.rs:67-81 | A line is read as its key and value whatever blanks stand around key, separator and value, for every separator that is no blank; the first separator counts |
| OptionsText.LoneKeyIsRead | crates/core/src/config/util.rs:72-81 | A line without a separator is a key with an empty value |
| OptionsText.RemarkIsSkipped | crates/core/src/config/util.rs:68-71 | Blank lines and lines whose first character that is no blank is a hash say nothing |
| OptionsText.LinesMeaning | crates/core/src/config/util.rs:61-62 | A text is cut after each line feed, a return before it goes too, and a rest that is not empty is a last line |
| OptionsText.EntryIsRead | crates/core/src/config/util.rs:67-81 | The line written for a well-formed key and value is read back as that key and value |
| OptionsText.ParseUndoesWrite | benchmark/filegroup/src/gen.rs:394 | Reading entries written in any order, with blank and comment lines among them, gives the map they mean, the last entry for a key winning |
| OptionsText.RoundTripIff | crates/core/src/config/util.rs:60-84 | A map written out and read again comes back if and only if its keys and values are trimmed, on one line, and its keys free of separators and not starting a comment |

## Left out

- Slices are values inside the map of a `FileGroup` object, which owns them; `FileSlice::merge` in place and the update of a slice through the map are an update of that map. Aliasing does not arise, since a slice has one owner.
- The groups inside `FileGroupSet` are values; its in-place take, merge and insert are updates of one map.
- File names: parsing and printing them is a parameter of `Builder`; base file equality compares the parts of the name.
- `FileSlice` sizes: `log_size_bytes` and `total_size_bytes` are plain sums; `Admission` takes the optional sums as its input.
- File metadata estimates (`byte_size`, `num_records`), column statistics and error messages.
- Groups of log files without a base file are not built from the listing, as the program itself says; commit-metadata and replace-commit builders are not modelled.
- Storage, Parquet, Arrow and Tokio: batches are rows of cells, a projection pushed into a file selects columns or fails, a cast is a parameter, streams are lists of answers.
- The comma-separated text of the admitted instants: the window holds the set it stands for.
- Schema evolution and null-filling (`stream_target_schema`), log scanning and record merging: reads start from merged rows.
- Filters built by `in_list` with no values at all: `ValuedFilter` excludes them.
- `PushedFilters.ScanKeepsAcceptedRows`: null literals and the text of decimals are not modelled, because literal formatting is a parameter; aliases in expressions are not modelled, because splitting conjunctions is the engine's own code.
- Floating-point comparison: cell values are totally ordered, so NaN is not among them.
- `ReadPipeline.StreamingEqualsEager`: says which batches fail and what rows come, not which of several errors is reported.
- `CappedAllocator.AllocatorIsSafe`: the cap is already visible to all threads and never changes, and the counter does not overflow (without a cap nothing in the program bounds it); the moment the cap is installed is not modelled.
- `SharedPool.RunIsSafe`: counts slices each partition admits, not every stream under construction, which two separate limits of the engine govern.
- The pool grants first come, first served; other pool policies are not modelled.
- `FileSlice` routing (`file_slices_are_parquet`), configuration enums and language bindings are not modelled.
- `OptionsText.RoundTripIff`: text is characters; bytes that are not UTF-8 and the read errors they cause are not modelled.
- `VarLong.ReadVarLong`: bytes that end before the announced length are the caller's fault and are excluded.
