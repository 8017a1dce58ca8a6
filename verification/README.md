# VillageInsight: a verified model

VillageInsight turns spreadsheet cells into audited records and answers questions from those records. This
project models the parts of it that keep state, branch heavily or must agree with each other, and proves that
they do, or exactly when they do.

The model follows the program's own form: what the program computes by expressions is a function, what it does
step by step is a class or a method with loops, proved against a function or an outright statement of the result.

| part | modules |
|---|---|
| cell values, decimals, dates | `Text`, `Decimals`, `Calendar`, `Values`, `Infinities` |
| materializer and its auditor | `Dicts`, `Records`, `RawEvidence`, `LostEvidence`, `Layouts`, `LayoutLoops`, `TableRows`, `Emission`, `ImportRuns`, `ImportProperties`, `ImportedRows`, `Auditor`, `AuditConditions`, `AuditExamples`, `FloatExamples`, `ClosureReports` |
| query engines | `Facts`, `IndexQueries`, `QueryEngines`, `IdentityCounts`, `ContextSums`, `MetricQueries`, `MetricMultiplicity`, `MetricReads`, `MetricAgreement`, `MetricCompilation`, `GroupCounts`, `FactCatalog`, `Governance` |
| build-result lifecycle | `DeletionProtocol`, `BuildTables`, `ReimportTables`, `BatchCounters` |
| source versions | `SourceVersions` |
| transfer bundle and resolver | `TransferBundle`, `BundleChecksums`, `SourcePaths`, `JsonLocations` |
| event stream and uploads | `EventStream`, `StreamFormat`, `UploadPool` |
| corpus analysis | `Lines`, `Corpus`, `CorpusClusters` |

Abstractions: a table is a sequence or a map, a SQL statement the bag of rows it returns; SHA-256 is a function
that separates the contents at hand; a decimal is a sign, a coefficient and an exponent; a string is a `seq<char>`;
a JSON reader or writer is a function with the stated laws; the time zone of the database session is a function that
gives a datetime without an offset one. An integer that its 32-bit column cannot hold ends the execution. The order
of the database's values and its LIKE operator are parameters, and so are clocks, random identifiers and what the
network or the disk returns.

## Where the code falls short of its promise

Each of these is proved, with the exact condition under which the promise holds.

- A value kept under the role `$value`, the key reserved for the empty role, makes the auditor reject its record; so does a datetime without an offset, which its column (src/village_insight/db/models.py:1634) returns with one, and a float such as 1e+23, which the jsonb raw data (src/village_insight/db/models.py:30) return as an integer the float does not equal. The audit is clean on exactly the other inputs (`AuditConditions.AllRecordsPassWhen`, `AuditExamples.OneDateTimePassesWhen`, `FloatExamples.PowerPassesWhen`).
- An infinite value of an integer field escapes as an OverflowError that nothing catches (`Infinities.OverflowsWhenInfinite`).
- The merge of selected cells hides a visible cell when it finds both keys of a later one taken (`LostEvidence.LostWhen`).
- A metric's caller filters do not pin the role, so a record is read once per choice of passing roles, and it reads one version of its field only (`MetricReads.MetricStatement`, `MetricAgreement.SameRecordsCounted`).
- A metric's sum over nothing is 0 where SQL answers NULL, and a sum of decimals is rounded to 28 digits where SQL is exact (`MetricAgreement.RunningSumsAgreeWhen`, `MetricAgreement.SumsAgreeWhen`).
- A group_count over a decimal, date or datetime field accepts requested groups on an empty record set only, and a repeated request counts its group twice (`GroupCounts.CoverageIsExact`, `GroupCounts.RequestedRowsTotal`).
- A catalogue entry's record_count is that of the last provenance tuple only (`FactCatalog.OneRowPerCode`).
- A published metric's query fails when the lookup finds another published manifest of its fact set that does not allow it (`Governance.MetricAlwaysCompilesWhen`, `Governance.SecondManifestBreaksTheQuery`).
- The design document (design/2026-07-31-ingestion-build-result-deletion-plan.md:331) promises that a failed deletion can be retried; the retry finds the failed job under its idempotency key and enqueues nothing (`DeletionProtocol.StrandedFromTheStart`). The function that imports an item again, when it meets a pending deletion, strands it (`DeletionProtocol.ReimportStrandsPendingDeletion`); the route that calls it checks the status first, without a lock.
- Taking a partial result off the imported counter undercounts the batch (`BatchCounters.Batch.Reimport`), and the two recounts differ on a batch with nothing finished (`BatchCounters.RecountsAgreeWhen`).
- A frozen scope whose replacement is outside the cut can be empty (`SourceVersions.AllReachDefaultsWhenClosed`).
- The event stream format ends lines at a lone carriage return; the decoder does not, and the decoder delivers an unterminated last block, which the format discards (`StreamFormat.BlocksAgreeWhen`, `StreamFormat.TrailingBlockDiffersWhen`).
- The resolver's cache answers with a replaced object of the same size and modification time (`SourcePaths.CacheAgreesWhen`).
- Uploading an empty list throws that all files failed (`UploadPool.UploadBatch`).
- A checkpoint line that is JSON but not an object stops the resumed analysis, and a line boundary inside a written outcome can make one (`Corpus.ReadCheckpoint`, `Corpus.ReadableWhen`).

## Model

| member | source | states |
|---|---|---|
| `Decimals.TextRoundTrip` | src/village_insight/materialization.py:200-202 | The text of a finite decimal, plain or in scientific notation, parses back to the same sign, coefficient and exponent |
| `Decimals.AcceptsExactlyWhatFits` | src/village_insight/materialization.py:146-160 | A finite decimal is accepted exactly when its rounding to ten places has at most 38 digits: the chosen context precision never rejects a value that fits |
| `Decimals.WithinHalfQuantum` | src/village_insight/materialization.py:150-157 | The stored value is the nearest multiple of the quantum, a tie going away from zero, so it errs by at most half a quantum |
| `Decimals.NormalizeIdempotent` | src/village_insight/materialization.py:146-160 | Normalizing a stored decimal changes nothing |
| `Decimals.NormalizeMonotone` | src/village_insight/materialization.py:146-160 | Normalization preserves the numeric order |
| `Calendar.DateTextParses` | src/village_insight/materialization.py:168-176 | The ISO text of a valid date parses to that date |
| `Calendar.DateTimeTextParses` | src/village_insight/materialization.py:177-181 | The ISO text of a valid datetime, with or without microseconds and offset, parses to that datetime |
| `Values.NormalizeTyped` | src/village_insight/materialization.py:134-183 | A normalized value is missing exactly if the cell is blank; otherwise it has the data type's own variant and can be stored: a date or datetime is valid, a decimal is quantized to ten places |
| `Values.OnlyInfinityOverflows` | src/village_insight/materialization.py:140-144 | The one input whose conversion escapes as an OverflowError instead of a rejection is an infinite integer |
| `Infinities.OverflowsWhenInfinite` | src/village_insight/materialization.py:134-145 | An integer field's conversion escapes exactly if the text, once stripped and freed of commas, invisible characters and underscores, spells infinity, with any sign and in any case |
| `Infinities.InfinityOverflows` | src/village_insight/materialization.py:134-145 | Every such spelling escapes, whatever spaces, commas and invisible characters surround it |
| `Values.RenormalizingReturnsTheIndexedValue` | src/village_insight/materialization.py:134-205 | For every data type, normalizing the value shown in the semantic projection gives the typed index value and its normalizer again |
| `Values.ProjectionsAgree` | src/village_insight/ingestion_regression.py:55-65 | The auditor's comparison accepts the semantic value and the typed column as the database returns it exactly if the value is not a datetime without an offset: the column makes such a datetime aware, and a naive one never equals an aware one |
| `Values.JsonbReturnsWhen` | src/village_insight/ingestion_regression.py:128-137 | The raw data, which are jsonb, return a value Python finds equal to the one written unless it is a float printed with an exponent whose digits, which come back as an integer, are no double |
| `Auditor.RecordViolations` | src/village_insight/ingestion_regression.py:68-138 | Reports exactly the violations there are, and none exactly for a clean record: current contracts, equal key sets, equal values, matching lineage and raw evidence under every key |
| `Auditor.CheckRows` | src/village_insight/ingestion_regression.py:107-137 | Whatever order the index rows are read in, a violation is reported exactly if some row with a semantic entry shows it |
| `Auditor.ReadSemantic` | src/village_insight/ingestion_regression.py:90-98 | The entries by field and role, `$value` read as the empty role, a later entry replacing an earlier one |
| `Auditor.ReadIndex` | src/village_insight/ingestion_regression.py:99-101 | The index rows by field and role, a later row replacing an earlier one |
| `Auditor.ReadCells` | src/village_insight/ingestion_regression.py:105-109 | The raw cells by identifier |
| `RawEvidence.RawProjection.IncludeSelected` | src/village_insight/materialization.py:40-66 | The columns after the in-place merge, in dictionary order, as the fold over the selected cells |
| `RawEvidence.MergeShowsEverySelectedCell` | src/village_insight/materialization.py:40-66 | Under the identifier hypotheses the merge makes every selected cell visible, loses no cell that was visible, and still shows only the sheet's cells |
| `RawEvidence.SelectedKeyColumn` | src/village_insight/materialization.py:50-56 | The made-up key of a further cell names its physical column: equal keys mean equal columns |
| `LostEvidence.StepLosesWhen` | src/village_insight/materialization.py:50-66 | One step of the merge hides a cell that was visible exactly if the mapping's own key and the made-up key are both taken, the latter by the cell's only column |
| `LostEvidence.LostWhen` | src/village_insight/materialization.py:40-66 | A cell visible after some selections is hidden after later ones exactly if one of the steps between did that to it: no later step brings it back |
| `LostEvidence.SelectedStaysWhen` | src/village_insight/materialization.py:40-66 | Without any hypothesis on identifiers a selected cell is visible in the end exactly if no step of the whole merge hid it |
| `LostEvidence.CollidingIdentifiersHideACell` | src/village_insight/materialization.py:765-796 | A headerless row of three mappings, two with one identifier and a third with the key made up for the first, loses the third cell; the identifiers are free text of the approval |
| `LayoutLoops.Select` | src/village_insight/materialization.py:723-745 | The loop that selects the mapped cells of one record and notes required ones that are absent or blank |
| `LayoutLoops.CollectInputs` | src/village_insight/materialization.py:672-866 | In every layout mode the loops produce the record inputs of the region, or the error of the first row that fails |
| `LayoutLoops.CollectForm` | src/village_insight/materialization.py:705-755 | A form gives one input over its bound cells, with every present cell of its range visible |
| `LayoutLoops.CollectRows` | src/village_insight/materialization.py:756-866 | Row layouts give the inputs of the business rows, in order, stopping at the first failure |
| `LayoutLoops.CollectHeaderlessRow` | src/village_insight/materialization.py:765-796 | A headerless row gives an input exactly if it is not excluded and a bound cell is present |
| `LayoutLoops.CollectTableRow` | src/village_insight/materialization.py:797-864 | The loops over one table row agree with the specification function, and the row yields an input exactly if it is a business row in the sense of the next line |
| `TableRows.RowYieldsWhen` | src/village_insight/materialization.py:797-864 | A table row yields an input if and only if it is not excluded, its mappings' selectors name physical columns, a named header's cell is present, its first sequence number, if it has one, reads as a number, a shown column is not a sequence column, and not every shown cell is unfilled |
| `LayoutLoops.ReadRowColumns` | src/village_insight/materialization.py:801-819 | The raw columns of a table row: the present cells below named headers |
| `Layouts.CollectedInputsAreSound` | src/village_insight/materialization.py:672-866 | In every layout mode the collected inputs meet what the evidence merge needs, so each selected cell will be visible in its record |
| `Layouts.InputsFromBounds` | src/village_insight/materialization.py:672-866 | In every layout mode each selection pairs one of the region's mappings with a cell of its sheet |
| `Emission.ProjectKeeps` | src/village_insight/materialization.py:974-1089 | Every value a record keeps comes from a selected cell, is a justified normalization or a marked spreadsheet error, and has its own field and role |
| `Emission.SemanticReadBack` | src/village_insight/materialization.py:1050-1067 | Reading the nested semantic dictionary back gives each kept value's entry under its field and role |
| `Emission.IndexReadBack` | src/village_insight/materialization.py:1067-1089 | Reading the index rows back gives each kept value's row under its field and role |
| `Emission.KeptValueAgrees` | src/village_insight/materialization.py:1050-1089 | A kept value's semantic entry and its index row, as the database returns it, satisfy the auditor's comparison exactly if the value is missing or not a datetime without an offset |
| `Emission.KeysAgree` | src/village_insight/materialization.py:1050-1056 | The auditor sees the same keys in the semantic and the index projection exactly when no role is the reserved `$value` |
| `Emission.EmittedRecordPassesAudit` | src/village_insight/materialization.py:867-1093 | An emitted record passes the audit of itself and its rows as read back if and only if none of its kept mappings has the reserved role, none of its kept datetimes lacks an offset, and the raw data return every kept cell's scalars as equal values |
| `ImportRuns.ImportRun.constructor` | src/village_insight/materialization.py:628-632 | A run starts with nothing written and all counters zero |
| `ImportRuns.ImportRun.WriteValues` | src/village_insight/materialization.py:974-1089 | The loop over one record's cells appends exactly the projection's index and lineage rows and one issue per rejected value, or aborts on a duplicate role, an unknown field version or an overflow |
| `ImportRuns.ImportRun.OpenRecord` | src/village_insight/materialization.py:868-973 | Required values, the scoped identity check and their issues, with the identity remembered only when accepted |
| `ImportRuns.ImportRun.WriteRecord` | src/village_insight/materialization.py:867-1093 | One input becomes one record with its rows and issues, as the log function says |
| `ImportRuns.ImportRun.ExecuteSection` | src/village_insight/materialization.py:633-1095 | One region's inputs are written in order |
| `ImportRuns.ImportRun.Execute` | src/village_insight/materialization.py:628-1109 | All regions are written in order, skipping those not to be materialized; the counters count what was written |
| `ImportProperties.EveryRecordPassesAudit` | src/village_insight/materialization.py:278-1114 | Every record of every execution, in every layout mode, passes the separately written audit of record and rows as the database returns them exactly when it keeps no value under the reserved role, no datetime without an offset and no cell whose float the raw data return as another number; identifiers are unique per sheet and no column has the made-up shape |
| `AuditConditions.AllRecordsPassWhen` | src/village_insight/materialization.py:278-1114 | On the inputs of the execution: all its records pass if and only if no selected cell that normalizes is mapped to the reserved role, is a datetime without an offset or holds a float that comes back as another number |
| `AuditConditions.PlainImportsPass` | src/village_insight/materialization.py:278-1114 | Before the import: if no mapping of a region to be materialized has the reserved role, none has a datetime field or all its datetime texts carry an offset, and the raw data return its cells as they are, every record passes |
| `AuditExamples.OneCellPassesWhen` | src/village_insight/ingestion_regression.py:55-138 | An execution of one kept cell, of any type and content and under any role, passes exactly if the role is not the reserved one, its value reads back as it was and the raw data return its scalar |
| `AuditExamples.DollarRoleIsRejected` | src/village_insight/ingestion_regression.py:90-98 | The execution that maps one text to the role `$value` is rejected |
| `AuditExamples.OneDateTimePassesWhen` | src/village_insight/ingestion_regression.py:62-64 | The execution of one datetime cell, printed as ISO text, passes exactly if the datetime has an offset; the workbook parser prints cells without one |
| `AuditExamples.OneFloatPassesWhen` | src/village_insight/ingestion_regression.py:128-137 | The execution of one float cell in a text field passes exactly if the float is printed without an exponent from ten to the 16th on, or is the double its digits spell |
| `FloatExamples.PowerPassesWhen` | src/village_insight/ingestion_regression.py:128-137 | For the float 1e+k it passes exactly up to k = 22: 1e+23 is the first power of ten that is no double |
| `ImportProperties.LayersClose` | src/village_insight/ingestion_regression.py:315-316 | Over a whole execution the keys of the semantic dictionaries, the index rows and the lineage rows are equal in number, and index rows are unique by record, field and role |
| `ClosureReports.BuildTotals` | src/village_insight/ingestion_regression.py:141-316 | The report's loop over records adds up the auditor's semantic counts, the index rows and those with a lineage row, and notes whether any violation was reported |
| `ClosureReports.FourLayersCloseWhen` | src/village_insight/ingestion_regression.py:315-316 | The report on an execution says four_layer_closed, no violation and three equal totals, if and only if no selected cell that normalizes is mapped to the reserved role, is a datetime without an offset or holds a float that comes back as another number |
| `ImportedRows.ImportedFieldIsTyped` | src/village_insight/materialization.py:1067-1089 | Every execution's index rows are what the query engines rely on: unique by record, field and role, each column holding a storable value of its own type |
| `ImportProperties.FailedMeansIssue` | src/village_insight/materialization.py:874-1049 | A record fails exactly when at least one issue was raised for it |
| `ImportProperties.PassedIdentitiesDiffer` | src/village_insight/materialization.py:925-973 | No two records of one execution that pass share a scoped identity |
| `ImportProperties.Materialize` | src/village_insight/materialization.py:628-1114 | The execution is `completed` exactly when every record passed and is completely mapped, and value_count counts all three value layers |
| `ImportProperties.RunIsConsistent` | src/village_insight/materialization.py:628-1109 | The invariant of the whole loop: numbering, distinct identities, statuses that follow issues, unique rows, closed layers |
| `ImportProperties.RunIsExplained` | src/village_insight/materialization.py:628-1109 | Every record of a run is explained by the cells and values it kept |
| `IndexQueries.ApplyFilters` | src/village_insight/safe_query.py:355-397 | The loop of filter joins, evaluated as a bag, gives exactly the rows all of whose conditions hold, in order and once each, or the first filter's error |
| `IndexQueries.AtMostOneMatch` | alembic/versions/20260729_0013_fact_value_roles.py:30 | With unique rows a record has at most one index row for a field without a role |
| `IndexQueries.JoinKeeps` | src/village_insight/safe_query.py:363-382 | One filter join keeps each row at most once, exactly if the condition holds of its record |
| `IndexQueries.ChainIsConjunction` | src/village_insight/safe_query.py:355-397 | A chain of filter joins means the conjunction of its conditions per record |
| `IndexQueries.FilterOrderIrrelevant` | src/village_insight/catalog_query.py:183-233 | Filters in any order give the same rows |
| `IndexQueries.AddingAFilterShrinks` | src/village_insight/catalog_query.py:183-233 | One more filter keeps a part of the rows, in the same order |
| `IndexQueries.DisplayedValueFindsItsRecord` | src/village_insight/safe_query.py:371-382 | An equality filter on the value a record displays compiles and selects that record, in every data type |
| `QueryEngines.FilteredRecords` | src/village_insight/catalog_query.py:236-264 | The filtered statement selects each meant record once, so the distinct record count is the number of meant records |
| `QueryEngines.JoinThenFilter` | src/village_insight/safe_query.py:564-596 | Joining a measure first and filtering afterwards reads the same rows as joining the measure to the filtered records |
| `QueryEngines.NonNullJoin` | src/village_insight/catalog_query.py:438-452 | Dropping NULL measures in the join or in the aggregate makes no difference |
| `QueryEngines.EnginesAggregateAlike` | src/village_insight/catalog_query.py:429-467 | SafeQuery and CatalogQuery feed sum, avg, min and max the same values in the same order over the same predicates |
| `IdentityCounts.IdentityChainMembers` | src/village_insight/safe_query.py:452-477 | The identity joins pair each record that has every identity value with exactly its identity tuple |
| `IdentityCounts.SameKernelSameCount` | src/village_insight/safe_query.py:478-497 | Two ways of naming records that tell the same records apart count the same number of identities |
| `IdentityCounts.SafeCountMeaning` | src/village_insight/safe_query.py:452-497 | SafeQuery's count is the number of distinct identities among the selected records that have every identity value |
| `MetricQueries.CollectIdentities` | src/village_insight/questions.py:245-262 | The loop over identity rows fills the dictionary with, for each record and field, the first column that is not NULL |
| `MetricQueries.CountIdentities` | src/village_insight/questions.py:226-271 | The number of distinct identity tuples among the records that have every identity field |
| `MetricQueries.JoinCallerFilters` | src/village_insight/questions.py:160-183 | The loop over the caller's filters gives the statement joined with one alias per filter, of any role, or the first filter's error |
| `MetricQueries.JoinStatusFilters` | src/village_insight/questions.py:184-219 | The loop over the published filters does so with the role pinned |
| `MetricQueries.ExecuteMetric` | src/village_insight/questions.py:114-300 | For metrics with and without a fact set: the filter and status loops build the statement or stop with the first filter's error; the answer counts identities or records, or sums the values that are not NULL with Python's rounding, or gives the values that avg, min and max fold; summing anything but numbers raises; records and files are counted distinctly |
| `MetricQueries.SumValues` | src/village_insight/questions.py:274-275 | The sum loop: integers and booleans add exactly, every addition of decimals is rounded to 28 digits, a tie to the even digit |
| `ContextSums.RoundedNear` | src/village_insight/questions.py:274-275 | Rounding to the context errs by at most half a unit of the last kept digit, and by nothing exactly if the number needs at most 28 digits |
| `ContextSums.RunningTotalsAgreeWhen` | src/village_insight/questions.py:274-275 | Every running sum is exact if and only if no exact running sum needs more than 28 digits |
| `ContextSums.OneValueIsRounded` | src/village_insight/questions.py:274-275 | One number of 29 digits is already rounded, and a second number can make up for it |
| `MetricQueries.IdentityRowsSuffice` | src/village_insight/questions.py:227-244 | The identity query loses no entry of the records and fields it asks for and adds no other |
| `MetricAgreement.LooseIsPinned` | src/village_insight/questions.py:160-183 | Where no row of a filtered field carries a role, the caller's filters, which do not pin the role, join the same rows as pinned ones |
| `MetricReads.MetricRepeats` | src/village_insight/questions.py:114-219 | The metric reads each measured record as often as there are ways to choose one passing index row per caller filter, if the record has the metric's version and satisfies the published filters, and never otherwise |
| `MetricReads.MetricStatement` | src/village_insight/questions.py:114-219 | The metric reads exactly the rows the SafeQuery with the same contract and filters reads if and only if it reads every record that satisfies all the conditions once and no other |
| `MetricAgreement.PlainIndexReadsOnce` | src/village_insight/questions.py:114-219 | So it does where the index holds the metric's field in one version and no row of a filtered field has a role |
| `MetricAgreement.MetricFoldsAlike` | src/village_insight/questions.py:220-285 | Where the metric reads every record once, the metric, SafeQuery and CatalogQuery fold the same values in the same order |
| `MetricAgreement.RunningSumsAgreeWhen` | src/village_insight/questions.py:274-275 | Where the metric reads every record once, each sum its loop passes through is SQL's sum of the values so far if and only if the field is no decimal or no running sum of the selected values needs more than 28 digits |
| `MetricAgreement.SumsAgreeWhileTheyFit` | src/village_insight/questions.py:274-275 | Then one selected value is enough for the final sums to agree; over nothing the metric says 0 and SQL NULL |
| `MetricAgreement.SumsAgreeWhen` | src/village_insight/questions.py:274-275 | The final sums alone agree if and only if some selected record has a value and the roundings, which only decimals undergo, add up to nothing |
| `MetricAgreement.WideValueIsRounded` | src/village_insight/questions.py:274-275 | One decimal that the index stores exactly, of 29 digits, already makes the two sums differ |
| `MetricAgreement.SameRecordsCounted` | src/village_insight/questions.py:220-271 | On every database whose identity rows hold values, the metric and SafeQuery count the identities of the same records if and only if, of the records in scope that have every identity value, the metric reads exactly those that satisfy all the conditions |
| `MetricAgreement.ReadOnceCounts` | src/village_insight/questions.py:220-271 | For a metric over an identity field, reading every record once is enough for that |
| `MetricAgreement.MetricCountIsSafeCount` | src/village_insight/questions.py:224-271 | Then a published identity-count metric and a SafeQuery count with the same contract, scope and filters return the same number, in whatever order each lists the identity fields |
| `MetricCompilation.MetricCompilesAlike` | src/village_insight/questions.py:160-219 | If the frozen catalogue gives the filtered fields their published types, the SafeQuery with all the metric's filters compiles to the metric's own conditions |
| `MetricCompilation.CompareCounts` | src/village_insight/questions.py:114-271 | execute_metric_query and the SafeQuery count run from the same filters both succeed and return one number, under that agreement of types and the per-record condition above |
| `MetricMultiplicity.FiltersMultiply` | src/village_insight/questions.py:160-183 | A record is read once for each way of choosing one passing index row, of any role, per caller filter |
| `MetricMultiplicity.LooseFiltersExactWhen` | src/village_insight/questions.py:160-183 | The caller's filters read what pinned filters read, each row once, if and only if for every measured record the passing rows multiply to one where the role-free values pass and to none elsewhere |
| `MetricMultiplicity.RoleDoublesTheSum` | src/village_insight/questions.py:160-183 | A database where one record whose status holds in two roles is summed twice by the metric and once by SafeQuery |
| `GroupCounts.SerializeInjective` | src/village_insight/catalog_query.py:93-96 | Different stored values of one type never share a serialized key |
| `GroupCounts.GroupsPartition` | src/village_insight/catalog_query.py:519-537 | Each record is counted in exactly one group |
| `GroupCounts.StatementGroups` | src/village_insight/catalog_query.py:519-537 | The grouped statement reads each filtered record with a group value once, with that value |
| `GroupCounts.ActualFaithful` | src/village_insight/catalog_query.py:538-541 | The dictionary of counts holds every group's size under its key, no group overwriting another |
| `GroupCounts.CoverageIsExact` | src/village_insight/catalog_query.py:542-564 | The coverage check accepts if and only if every filtered record has a group value and, when groups were requested, a text, integer or boolean value among the requested ones: a serialized decimal, date or datetime never counts as requested |
| `GroupCounts.RequestedRowsTotal` | src/village_insight/catalog_query.py:565-569 | On an accepted request the row values sum to the record count if and only if no requested value that some record has is requested twice |
| `GroupCounts.GroupCount` | src/village_insight/catalog_query.py:514-580 | group_count accepts exactly the covered record sets, counts every filtered record as grouped, and its rows sum to record_count under exactly the condition above; a requested value that does not normalize is an error |
| `FactCatalog.BuildFactSets` | src/village_insight/question_catalog.py:261-310 | The accumulation loop: for each code the entry of the last grouped row that feeds it, since a later row replaces an earlier one |
| `FactCatalog.IdentityMatches` | src/village_insight/question_catalog.py:104-128 | A row identified with a definition is matched by that definition and by no other |
| `FactCatalog.OwnRowIsExecuted` | src/village_insight/question_catalog.py:131-152 | Every scoped record satisfies the executable predicate of the fact set it is catalogued under |
| `FactCatalog.PublishedEntryExactWhen` | src/village_insight/question_catalog.py:80-152 | A published entry executes exactly its catalogued records if and only if no other published rule overlaps its own on a scoped record and no scoped record is claimed by another rule that shares its code |
| `FactCatalog.DerivedEntryExactWhen` | src/village_insight/question_catalog.py:104-152 | A derived entry executes exactly its catalogued records if and only if no scoped record of its provenance is claimed by a published rule or carries a narrower provenance |
| `FactCatalog.ListedCountExactWhen` | src/village_insight/question_catalog.py:279-310 | The listed record_count never exceeds the executed one, and equals it if and only if every selected record has the provenance columns of the row listed last |
| `FactCatalog.OneRowPerCode` | src/village_insight/question_catalog.py:279-310 | Where entries are exact, the listed count is the executed count if and only if one provenance tuple feeds the code |
| `Governance.Contracts.constructor` | src/village_insight/query_governance.py:65-70 | Nothing is published at first |
| `Governance.Contracts.PublishFactSet` | src/village_insight/query_governance.py:65-105 | Publishes a draft with a valid rule, published fields and an identity policy, in that order of checks; otherwise names the first check that fails and changes nothing; keeps the invariant |
| `Governance.Contracts.PublishManifest` | src/village_insight/query_governance.py:108-145 | Publishes a draft whose fact set is published with an equal fingerprint, whose root is declared and whose relationships have a join depth; keeps the invariant |
| `Governance.Contracts.PublishMetric` | src/village_insight/query_governance.py:148-250 | Publishes a draft that stands on matching published contracts in every respect checked; keeps the invariant |
| `Governance.AcceptedIsOfficial` | src/village_insight/query_governance.py:148-250 | What the checks accept stands on published, fingerprint-equal contracts that allow its aggregation, filters and identities |
| `Governance.MetricCompilesWhen` | src/village_insight/safe_query.py:148-276 | In every reachable state and for any manifest the lookup may return, the ungrouped SafeQuery of a published metric compiles if and only if the frozen catalogue holds what it touches and that manifest declares the measure with the aggregation and the filtered and identity fields as dimensions |
| `Governance.MetricAlwaysCompilesWhen` | src/village_insight/safe_query.py:148-276 | It compiles whichever manifest is found if and only if the catalogue holds what it touches and every published manifest of the fact set allows it |
| `Governance.PublishedMetricCompiles` | src/village_insight/safe_query.py:148-276 | With one published manifest of the fact set the query over the metric's own filters compiles if and only if the frozen catalogue holds what it touches: publishing has checked the rest |
| `Governance.SecondManifestBreaksTheQuery` | src/village_insight/safe_query.py:177-188 | A state with two published manifests of one fact set, the second without the measure: the published metric's query is refused under the second |
| `DeletionProtocol.BuildResult.constructor` | src/village_insight/build_result_deletion.py:102-116 | An item starts active, with no deletion record, jobs, plans or rows |
| `DeletionProtocol.BuildResult.Request` | src/village_insight/build_result_deletion.py:102-165 | An existing pending or completed deletion is returned; a running job refuses; otherwise pending jobs are cancelled and the deletion is pending, and a worker can carry it out if and only if the deletion job's idempotency key was free |
| `DeletionProtocol.BuildResult.Enqueue` | src/village_insight/jobs/queue.py:20-49 | An idempotency key that exists keeps its job, whatever became of it |
| `DeletionProtocol.BuildResult.Claim` | src/village_insight/jobs/queue.py:91-131 | A pending job, or a running one whose worker is gone, becomes running; only the former costs an attempt |
| `DeletionProtocol.BuildResult.Validate` | src/village_insight/worker.py:493-528 | A job other than the deletion passes validation only while the result is active |
| `DeletionProtocol.BuildResult.Work` | src/village_insight/worker.py:572-581 | Profiling, matching and recognition move the item along and write no dataset rows |
| `DeletionProtocol.BuildResult.BeginMaterialize` | src/village_insight/materialization.py:278-295 | Materializing is refused for a retired plan or an inactive item, and for a plan already executed writes nothing and marks the item as imported again |
| `DeletionProtocol.BuildResult.CommitMaterialize` | src/village_insight/worker.py:466-490 | Writing and committing, which does not look at the deletion status again, still only ever happens while it is active; the superseded plan loses its rows and keeps its execution |
| `DeletionProtocol.BuildResult.Delete` | src/village_insight/build_result_deletion.py:211-491 | The deletion refuses while another job runs or the scope differs; otherwise it removes every row, retires every plan and marks the item deleted; a completed one is returned unchanged |
| `DeletionProtocol.BuildResult.Succeed` | src/village_insight/jobs/queue.py:134-142 | The job ends and releases its lease |
| `DeletionProtocol.BuildResult.Fail` | src/village_insight/worker.py:596-725 | A failed attempt re-queues the job; the last one fails it and marks the item, or the deletion, as failed |
| `DeletionProtocol.BuildResult.Release` | src/village_insight/jobs/queue.py:181-219 | A released or deferred job is pending again with its attempt given back |
| `DeletionProtocol.BuildResult.Reimport` | src/village_insight/reimport.py:41-174 | Importing again succeeds exactly if no job runs, the source is intact and a deleted result is explicitly restored with a complete audit; it then clears rows, plans and jobs and queues one profiling job |
| `DeletionProtocol.Step` | src/village_insight/worker.py:544-751 | Every step, taken in any state the protocol allows, keeps the invariant |
| `DeletionProtocol.Interleave` | src/village_insight/build_result_deletion.py:102-165 | Over every interleaving of requests, claims, crashes, validations, work, deletions, failures, reimports and restores: a deleted result has no rows until an explicit restore, no other validated job runs while the result is not active, and a stranded deletion stays stranded |
| `DeletionProtocol.RetryIsStranded` | src/village_insight/build_result_deletion.py:123-163 | After a deletion failed for good, requesting it again records a pending deletion whose job is the failed one, which nothing can run |
| `DeletionProtocol.FailForGood` | src/village_insight/worker.py:596-725 | A new item whose deletion is requested and fails on its three attempts gets there |
| `DeletionProtocol.StrandedFromTheStart` | src/village_insight/build_result_deletion.py:102-163 | From a new item on, the request, three failed attempts and the second request leave a stranded deletion |
| `DeletionProtocol.ReimportStrandsPendingDeletion` | src/village_insight/reimport.py:132-155 | Importing again while a deletion is pending deletes its job and leaves the item inactive with a deletion nothing can run |
| `BuildTables.Database.DeleteRows` | src/village_insight/build_result_deletion.py:341-361 | The first five deletes, each seeing what the earlier ones left, remove exactly the rows of the preview |
| `BuildTables.Database.DeleteSides` | src/village_insight/build_result_deletion.py:363-379 | The remaining deletes remove exactly the item's rows of each table, with their counts |
| `BuildTables.Database.DeleteBuildRows` | src/village_insight/build_result_deletion.py:211-385 | The twelve deletes report exactly the previewed counts and remove exactly the item's rows, so the count-mismatch branch is never taken; it stops exactly if the item's records are not those of its plans; foreign keys stay intact |
| `BuildTables.ChildrenFirst` | src/village_insight/build_result_deletion.py:341-352 | In the written order no CASCADE has anything to remove before its own delete counts it |
| `ReimportTables.CountsAgreeWhen` | src/village_insight/build_result_deletion.py:48-83 | In whatever order the cascading deletes run, their counts agree with the preview if and only if no table that still has rows of the item comes after one whose cascade reaches it |
| `ReimportTables.PlansDeleted` | src/village_insight/reimport.py:104-118 | Once the plans are released and unlinked, RESTRICT stops their deletion exactly if another item's record or plan leans on them |
| `ReimportTables.ProposalsDeleted` | src/village_insight/reimport.py:119-125 | RESTRICT stops the deletion of ungoverned proposals exactly if another item's plan cites one |
| `ReimportTables.ResetPlans` | src/village_insight/reimport.py:96-118 | The statements up to the plans' deletion succeed exactly in that case |
| `ReimportTables.Reset` | src/village_insight/reimport.py:86-132 | The ordered statements succeed if and only if no other item leans on this item's plans or ungoverned proposals, clear exactly this item's rows, leave other items' rows as they were apart from released references, and keep every foreign key intact; a violation rolls back |
| `ReimportTables.PlanDeletesKeepIntact` | src/village_insight/reimport.py:108-118 | A plan deletion that RESTRICT lets through leaves no dangling reference |
| `ReimportTables.ProposalDeletesKeepIntact` | src/village_insight/reimport.py:119-125 | Nor does a proposal deletion |
| `ReimportTables.CascadesKeepIntact` | src/village_insight/build_result_deletion.py:76-82 | Nor do the cascading deletes of index rows and records |
| `BatchCounters.Batch.RefreshAfterDeletion` | src/village_insight/build_result_deletion.py:181-208 | The counters are a recount of the items, and the status the deletion's |
| `BatchCounters.Batch.RefreshByWorker` | src/village_insight/worker.py:190-227 | The counters are the same recount, and the status the worker's |
| `BatchCounters.Batch.Reimport` | src/village_insight/reimport.py:157-165 | The incremental change gives what a recount would give if and only if the item was not partial or nothing counts as imported |
| `BatchCounters.RecountsAgreeWhen` | src/village_insight/build_result_deletion.py:181-208 | The two recounts give one status if and only if an item is finished, or the batch has files and one is being worked on |
| `BatchCounters.RecountsAgreeAfterDeletion` | src/village_insight/build_result_deletion.py:181-208 | After a deletion they agree for every multiset of item states |
| `BatchCounters.RunningAfterReimport` | src/village_insight/reimport.py:164-165 | The running status set by importing again is always what the deletion's recount gives, and what the worker's gives exactly if another item is no longer pending |
| `SourceVersions.Sources.constructor` | src/village_insight/question_source_versions.py:63-72 | No declarations, so no cycle |
| `SourceVersions.Sources.Declare` | src/village_insight/question_source_versions.py:63-156 | Declares exactly if the early checks pass and the replacement does not lead back to the replaced source, which is what the terminating cursor walk decides; otherwise names the error and changes nothing; the graph stays acyclic |
| `SourceVersions.AddingKeepsAcyclic` | src/village_insight/question_source_versions.py:129-156 | An edge whose head does not lead back to its tail adds no cycle |
| `SourceVersions.ReachTransitive` | src/village_insight/question_source_versions.py:129-144 | Reachability by walks is transitive |
| `SourceVersions.EndIsFree` | src/village_insight/question_source_versions.py:50-60 | Without cycles every walk ends at a source nothing replaces |
| `SourceVersions.OneDefaultEach` | src/village_insight/question_source_versions.py:20-60 | For every cut, an eligible source of a closed set leads to exactly one default source, in the same tenant and unit and no older |
| `SourceVersions.AllReachDefaultsWhenClosed` | src/village_insight/question_source_versions.py:20-60 | Every eligible source leads to a default one if and only if the eligible set is closed under replacement |
| `SourceVersions.ApprovedIsRepresented` | src/village_insight/question_scope.py:29-66 | Every approved record of a closed frozen scope is represented by a source of that scope, so a non-empty eligible set has default sources |
| `SourceVersions.OpenScopeCanVanish` | src/village_insight/question_scope.py:39-66 | Without closure the frozen scope can be empty although a source is eligible |
| `TransferBundle.Identify` | src/village_insight/server_transfer.py:232-240 | A path is read at its first reference only, and has the same identity at every later one |
| `TransferBundle.CopySourceObjects` | src/village_insight/server_transfer.py:219-292 | A written bundle stores exactly the referenced contents, each under its digest, lists each once, and describes every reference; on a quiet disk it is written if and only if every reference is readable with its recorded identity, and a source that changes before it is copied is caught |
| `TransferBundle.VerifyBundle` | src/village_insight/server_transfer.py:485-532 | Accepts exactly the manifests whose objects, object set and references agree with the files |
| `TransferBundle.VerifyReferences` | src/village_insight/server_transfer.py:512-532 | Accepts exactly references to listed objects, no two of one path differing |
| `BundleChecksums.LineRoundTrip` | src/village_insight/server_transfer.py:326-335 | A checksum line gives back its digest and path, whatever spaces the path contains |
| `BundleChecksums.VerifyChecksums` | src/village_insight/server_transfer.py:458-471 | Accepts exactly non-empty lists whose every line names a file with the listed digest |
| `BundleChecksums.ChecksumsHoldWhen` | src/village_insight/server_transfer.py:326-335 | For paths without line boundaries the written list verifies on a later tree if and only if every listed file is still there with its digest |
| `SourcePaths.LoadManifest` | src/village_insight/source_paths.py:35-78 | Loads exactly the manifests whose references are valid and do not conflict, and knows each path's object |
| `SourcePaths.Resolver.constructor` | src/village_insight/source_paths.py:30-33 | The cache starts empty, which suits every history of contents |
| `SourcePaths.Resolver.Resolve` | src/village_insight/source_paths.py:80-119 | Answers from the manifest, the objects and the cache, in the order of the checks, and remembers what it accepted; under every history where a changed content changes size or modification time it is what hashing every time would answer |
| `SourcePaths.CacheAgreesWhen` | src/village_insight/source_paths.py:80-119 | The cached answer is the re-hashed one if and only if it is not an object whose cached entry is stale |
| `SourcePaths.AnswersStale` | src/village_insight/source_paths.py:114-118 | For any two contents of one size that hash differently, a replacement within one modification time makes a new resolver answer with an object whose content does not hash to its name |
| `SourcePaths.WrittenBundleVerifies` | src/village_insight/server_transfer.py:485-532 | What the writer writes the verifier accepts |
| `SourcePaths.WrittenBundleLoads` | src/village_insight/source_paths.py:35-78 | What the writer writes the resolver loads without conflict |
| `SourcePaths.WrittenBundleResolves` | src/village_insight/source_paths.py:80-119 | Each original path that is no longer a file resolves to an object with the content it had |
| `SourcePaths.ObjectsAreContents` | src/village_insight/server_transfer.py:219-292 | Object files and distinct contents are in bijection |
| `SourcePaths.MoveSources` | src/village_insight/server_transfer.py:219-292 | Writing, verifying, loading and resolving in sequence returns every original content |
| `JsonLocations.EscapeRoundTrip` | src/village_insight/source_paths.py:148 | Unescaping as in section 4 of RFC 6901 gives every key back |
| `JsonLocations.PrintRoundTrip` | src/village_insight/source_paths.py:144-155 | A printed location determines its steps |
| `JsonLocations.IterAbsoluteStrings` | src/village_insight/source_paths.py:144-155 | The recursive loops list the printed location and text of each absolute leaf, in document order |
| `JsonLocations.LeafIsThere` | src/village_insight/source_paths.py:144-155 | A listed leaf is where its steps lead |
| `JsonLocations.LeafIsListed` | src/village_insight/source_paths.py:144-155 | Every absolute text leaf is listed |
| `JsonLocations.LeavesDiffer` | src/village_insight/source_paths.py:144-155 | No two listed leaves have the same steps |
| `JsonLocations.EachAbsoluteStringOnce` | src/village_insight/source_paths.py:144-155 | Each absolute text leaf is listed exactly once, under a location of its own that leads back to it from the root |
| `EventStream.SplitContinues` | frontend/src/lib/api.ts:1751-1753 | Splitting s + t is the whole blocks of s followed by splitting what s left over with t |
| `EventStream.CarriageReturnsDoNotSeparate` | frontend/src/lib/api.ts:1752 | Text without a line feed has no separator: lone carriage returns, which the stream format allows, end no block |
| `StreamFormat.BlocksAgreeWhen` | frontend/src/lib/api.ts:1710-1753 | The decoder groups a text's lines as the stream format does if and only if the part it has consumed has no carriage return without a line feed and the format finds no complete group in the part left over |
| `StreamFormat.BlocksAgree` | frontend/src/lib/api.ts:1710-1753 | So it does on every text whose carriage returns are all followed by line feeds |
| `StreamFormat.LoneReturnsDiffer` | frontend/src/lib/api.ts:1752 | A line ended by two carriage returns is an event of the format and no block of the decoder |
| `StreamFormat.TrailingBlockDiffersWhen` | frontend/src/lib/api.ts:1746-1760 | At the end of the stream: on a text whose carriage returns are all followed by line feeds the decoder delivers what the format dispatches if and only if a block before failed to parse or the unterminated last block makes no event, since the decoder delivers that block and the format discards it |
| `StreamFormat.SkippedWhen` | frontend/src/lib/api.ts:1710-1720 | A block makes no event exactly if none of its lines is a data line |
| `StreamFormat.BlankLinesDoNotMatter` | frontend/src/lib/api.ts:1710-1720 | Leaving out blank lines does not change what a block decodes to |
| `EventStream.DecodeSseBlock` | frontend/src/lib/api.ts:1710-1720 | The loop over a block's lines keeps the last event name and all data lines; a block without data is skipped, one that does not parse throws |
| `EventStream.DeliverBlocks` | frontend/src/lib/api.ts:1754-1757 | The loop over a piece's blocks delivers their events in order up to a throw |
| `EventStream.StreamRun` | frontend/src/lib/api.ts:1746-1761 | However the text is cut into pieces, even inside a separator, the events delivered and a throw are those of decoding the whole text at once |
| `EventStream.FrameSplits` | src/village_insight/api/routes/questions.py:380-385 | A frame the server writes, with LF or CRLF line ends, is one whole block with nothing left over |
| `EventStream.BodyDecodes` | frontend/src/lib/api.ts:1710-1720 | A frame's block decodes to the event and payload that were sent |
| `EventStream.SentIsReceived` | src/village_insight/api/routes/questions.py:380-385 | Every message the server sends is received, in order, with either line end |
| `UploadPool.Pool.constructor` | frontend/src/lib/api.ts:1544-1546 | The workers start with the whole queue before them |
| `UploadPool.Pool.Turn` | frontend/src/lib/api.ts:1548-1568 | One turn of one worker takes the next file, ends its upload or stops; every file taken is in one worker's hands or done, once, and the remaining work shrinks |
| `UploadPool.UploadBatch` | frontend/src/lib/api.ts:1544-1588 | Whichever worker takes the next turn, every file is sent exactly once, the failures are those of the failed files, and the call throws if and only if every file failed, so also for an empty list |
| `UploadPool.OnceEach` | frontend/src/lib/api.ts:1549-1551 | The queue's indices, each once |
| `Corpus.ReadCheckpoint` | src/village_insight/corpus.py:152-164 | Remembers the last recorded outcome of each content and skips lines that are not JSON; it fails exactly if some line is JSON but not an object |
| `Corpus.Profile` | src/village_insight/corpus.py:203-238 | From a truthful checkpoint, and with the profilers finishing in any order, the outcomes are those of a fresh run; what is appended is only outcomes |
| `Corpus.JournalShape` | src/village_insight/corpus.py:167-173 | A checkpoint left by interrupted runs whose outcomes hold no line boundary is ended lines and a tail, each made of pieces of written lines |
| `Corpus.JournalRecords` | src/village_insight/corpus.py:152-173 | Reading such a checkpoint succeeds and remembers only outcomes some run had; the format need only not read run-together pieces as anything else |
| `Corpus.InterruptedRunsStayTruthful` | src/village_insight/corpus.py:152-173 | Runs cut off at any character, their last line running together with the next, leave a checkpoint that can be read and is truthful, if none of their outcomes holds a line boundary |
| `Corpus.AnyRunsStayTruthful` | src/village_insight/corpus.py:152-173 | Outcomes with line boundaries do not make a checkpoint untruthful, if no fragment reads as an outcome nobody had |
| `Corpus.ReadableWhen` | src/village_insight/corpus.py:152-173 | A checkpoint of whole lines can be read if and only if no written outcome holds, between the line boundaries in it, a fragment that is JSON but not an object |
| `Corpus.BoundaryInsideStopsResume` | src/village_insight/corpus.py:152-173 | The checkpoint of one run that wrote one outcome, whose text holds such a fragment between two of the boundaries JSON leaves as they are, cannot be read by the next run |
| `Lines.SplitEnded` | src/village_insight/corpus.py:156 | Splitting lines that were each ended by a line feed gives those lines, and the unfinished rest |
| `Lines.SplitAppend` | src/village_insight/corpus.py:156 | A line feed between a text that does not end in a boundary and another text separates their lines |
| `CorpusClusters.Cluster` | src/village_insight/corpus.py:244-253 | The loop puts every profiled member in its fingerprint's cluster and every other one among the failures, in order |
| `CorpusClusters.AnalyzeCorpus` | src/village_insight/corpus.py:176-317 | From a truthful checkpoint a resumed analysis reports the clusters and failures of a fresh one, or fails exactly if the checkpoint cannot be read |
| `CorpusClusters.ResumeAfterInterruptions` | src/village_insight/corpus.py:176-317 | After any number of interrupted runs whose outcomes hold no line boundary the resumed analysis reports what a fresh one reports |
| `CorpusClusters.ResumeWhenReadable` | src/village_insight/corpus.py:176-317 | Whatever the outcomes hold, the resumed analysis reports what a fresh one reports, exactly if it can read the checkpoint |
| `CorpusClusters.EachFileOnce` | src/village_insight/corpus.py:244-253 | Each candidate file lies in exactly one member, and that member in its own cluster or among the failures, never both |
| `CorpusClusters.CountsAddUp` | src/village_insight/corpus.py:244-301 | The members' path counts add up to the number of candidate files |
| `CorpusClusters.MembersSplit` | src/village_insight/corpus.py:297-303 | Profiled and failed members together are all members and all paths |

## Left out

- Numeric text: Unicode digits, underscores between digits and NaN payloads; infinite and NaN floats, which jsonb refuses, and the equality of two floats of different texts.
- Dates: ISO spellings other than the extended form with `T` and a full or absent offset, offsets with seconds, and date or datetime objects as cell values.
- Auditor.RecordViolations: does not model role maps and entries of another shape than the materializer writes, which the source also reports, records whose projections are not dictionaries, nor a comparison that raises on text that is not a decimal (here it is a difference).
- Index columns: which of several failures of one execution is reported, since a value too wide for its column only fails when the rows are flushed; values near the first and last year in another zone.
- MetricQueries.ExecuteMetric: avg, min and max stop at the values they fold; the division of avg and its rounding are not modelled.
- Template resolution, column resolution and the choice of layouts before the record loops; the unfilled-form heuristic is a parameter of a row.
- Superseded plans: deleting the rows of the plan a new one supersedes appears only in the deletion protocol; that the superseded plan belongs to the same item is taken as given.
- Lookup, list, rank, ordering, limits and grouped aggregates of the query engines; sensitive-field rules outside compilation.
- Group and identity values are told apart as the database returns them, with one scale and one zero per decimal and one offset per instant.
- Catalogue: field entries, metric compatibility and fingerprints; rule identifiers are UUIDs in canonical text.
- Query governance: editing drafts, and withdrawing or retiring published contracts, which the publish operations do not do.
- DeletionProtocol.BuildResult.Claim: does not model lease expiry while the first worker is still at work; a running job is reclaimed only from a worker that is gone.
- DeletionProtocol.BuildResult.Validate: does not model the comparison of tenant, unit, user and batch between job, item and batch.
- DeletionProtocol.BuildResult.Delete: does not model template versions retired with the result, nor the manifest and counts stored in the audit record.
- Job lanes, availability times, heartbeats, memory guards and error texts.
- BuildTables.Database.DeleteBuildRows: does not compare the tenant, unit and batch columns of the item's records, and keeps the plan and proposal rows, whose retirement marks are not modelled.
- Reimport: the check of the stored source file is a parameter; governance tables that only RESTRICT the item itself.
- Transfer bundle: symbolic links and directories of objects, the database dump, the settings key, reports, the summary and the sorted order of manifest entries.
- JSON metadata: duplicate keys cannot occur, and absolute means a leading slash.
- Event fields: what the stream format says of comments, ids and retry times; decoder and format are compared by the lines they group into events.
- UTF-8 decoding, JSON parsing and network errors of the event stream and the uploads; the batch is created and fetched outside the model.
- Corpus: file discovery and hashing, the profiler itself, the sorted order and header summary of clusters, and the subprocess's output, which names the content and path it was given.
- Alembic migrations, configuration, sessions, permissions, pages and wrappers: used only as evidence for uniqueness and foreign keys.
