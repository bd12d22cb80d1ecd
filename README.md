# Project and task management back end: a verified model of its core

This Dafny project models the core rules of a small project and task management back end, an Express and MySQL
service. The modelled rules are:

- **The task tree and its progress roll-up** (`backend/src/services/taskService.ts`). Tasks form a forest inside
  a project. A task that has subtasks carries the rounded mean of its direct children's progress, and every write
  walks up the ancestor chain recomputing it.
  - The service's reads and writes are methods of the class `TaskService.TaskStore`. The class's fields are the
    `tasks` table (`rows`), the next auto-increment ids, the `task_updates` log and the `projects` rows.
  - Each method is specified by a function of the old table: `Recalc`, `Propagate`, `AfterCreate`,
    `AfterUpdate`, `AfterDelete` and `AfterReport` in `TaskTable`, and `WrittenBack` in `TaskTree`.
  - The invariant "every parent holds the mean of its children" (`Aggregation.Consistent`) is proved preserved by
    creation, by deletion and by progress updates of leaves. `Scenarios` shows, on concrete tables, the writes that
    break it.
- **The tree builder** shared by the project view and the task list (`TaskTree`). It is a method over maps, proved
  against reference lists of root ids and child ids.
- **Contract numbers** (`backend/src/services/contractService.ts`). `局0113`, an eight-character date part and a
  serial of at least four digits. The next number is derived from the greatest existing one with JavaScript's
  `substring`, `slice(-4)`, `parseInt`, `toString` and `padStart`, all modelled in `JsText`. A uniqueness check
  sits beside it. The serial has four digits only up to 9999: the number after `…9999` ends in `…10000`,
  which sorts below `…9999` as a string, so the greatest number stays `…9999` and the same `…10000` number is
  generated on every later call (`ContractNumber.OverflowRepeats`).
- **Bearer tokens** (`backend/src/utils/jwt.ts`). `Bearer.ExtractToken` reads the token out of an
  `Authorization` header. It uses JavaScript's `split(' ')`, which is modelled and proved against its inverse,
  `Join`.
- **Role checks** (`backend/src/middleware/permission.ts`). Each middleware becomes a function from the request's
  user to a verdict: proceed, or answer 401/403 with the service's message and stop.

Database queries are not executed by the model; their semantics are written out:

- A statement that reads is a function of the table.
- A set of returned rows (the project view's `SELECT … ORDER BY`, the greatest contract number, the table
  read by `COUNT(*)`) is a parameter. Its relation to the store is stated in `requires`.
- A failed query is an `Err` value.
- `new Date().toISOString()` is the parameter `nowIso`.

Two behaviours of the code shape what the model promises about progress:

- **The project view does a single pass over the rows as fetched, shallowest first** (`TaskTree.Refresh`). Each
  task with children is given the mean of its children's progress as read from the table, so a grandparent may
  be averaged over values that the same pass updates later; `Scenarios.ReadPassLeavesGrandparentStale` exhibits
  this.
- **`createTaskUpdate` rewrites only its own row.** It does not recalculate the ancestors, so a progress report
  on a child leaves its parent stale; see `Scenarios.ReportLeavesParentStale`.

## Model

| member | source | states |
|---|---|---|
| Rounding.RoundedMean | backend/src/services/taskService.ts:537-539 | `Math.round(sum / n)` for a mean of naturals: the unique `r` with `2nr <= 2sum + n < 2n(r + 1)`, halves rounding up |
| Rounding.RoundedMeanUnique | backend/src/services/taskService.ts:537-539 | any value meeting that characterisation is the rounded mean |
| Rounding.RoundedMeanAtMost | backend/src/services/taskService.ts:153-155 | the rounded mean of values that are at most `bound` is at most `bound` (progress stays within its range) |
| Rounding.RoundedMeanOfConstant | backend/src/services/taskService.ts:537-539 | `n` equal values average to that value |
| TaskTable.Lookup | backend/src/services/taskService.ts:95-115 | the index found holds the id, and nothing is found exactly when no row has the id |
| TaskTable.Find | backend/src/services/taskService.ts:95-115 | `getTaskById`: the row found is in the table with that id; none exactly when no row has it |
| TaskTable.ChildRows | backend/src/services/taskService.ts:519-535 | `WHERE parent_id = ?`: exactly the rows whose parent is `p` |
| TaskTable.ChildStatsFrame | backend/src/services/taskService.ts:532-535 | the count and sum behind `AVG(progress)` of `q`'s children depend only on those children's progress |
| TaskTable.SetProgress | backend/src/services/taskService.ts:542-545 | `UPDATE tasks SET progress`: only the progress of the row with that id changes |
| TaskTable.RemoveRowMembers | backend/src/services/taskService.ts:313 | `DELETE … WHERE task_id = ?` keeps exactly the rows with other ids |
| TaskTable.RemoveRowCount | backend/src/services/taskService.ts:313 | with distinct ids the delete removes exactly one row when the id exists and leaves the table as it is otherwise |
| TaskTable.Recalc | backend/src/services/taskService.ts:517-548 | recalculating a task changes no column but progress |
| TaskTable.ChildMeanAtMost | backend/src/services/taskService.ts:532-539 | the rounded mean of the children stays within any bound that every row's progress keeps, so it stays within 0 to 100 |
| TaskTable.RecalcValueAtMost | backend/src/services/taskService.ts:517-548 | the value `calculateTaskProgress` returns, the children's mean or the leaf's own progress or 0, stays within such a bound |
| TaskTable.AncestorIds | backend/src/services/taskService.ts:551-574 | the ids the upward walk visits are each smaller than the start and strictly decreasing, so the walk ends |
| TaskTable.AncestorIdsSameTree | backend/src/services/taskService.ts:551-574 | the walk depends only on ids and parents, not on progress |
| TaskTable.Propagate | backend/src/services/taskService.ts:551-574 | the walk changes no column but progress |
| TaskTable.MaxSortOrder | backend/src/services/taskService.ts:220-228 | `MAX(sort_order)` among siblings (NULL parent compared with IS NULL): absent exactly when there are none, else attained and an upper bound |
| TaskTable.NextSortOrder | backend/src/services/taskService.ts:220-228 | `COALESCE(MAX(sort_order), 0) + 1`: above every sibling, 1 without siblings, otherwise exactly one more than some sibling |
| TaskTable.NewLevel | backend/src/services/taskService.ts:208-215 | the parent's level plus one when a non-zero parent id is given and that task exists, 0 otherwise |
| TaskTable.NewTaskRow | backend/src/services/taskService.ts:194-242 | the inserted row has the issued id, the request's project and parent, the caller as creator, 0 actual hours, that level, a sort order above every sibling's, and progress 0, status pending and priority medium when not supplied |
| TaskTable.AppendKeepsWellFormed | backend/src/services/taskService.ts:244-248 | inserting a row with the next auto-increment id and an earlier parent keeps ids distinct and parents below children |
| TaskTable.AfterCreate | backend/src/services/taskService.ts:244-258 | after `createTask` the table is the old rows plus the new one, differing elsewhere only in progress |
| TaskTable.ApplyFields | backend/src/services/taskService.ts:268-284 | the dynamic `UPDATE … SET` never changes ids or parents |
| TaskTable.Patched | backend/src/services/taskService.ts:268-284 | a patch never changes the id, project, parent, level, sort order or creator, keeps progress unless a progress is supplied, and an empty patch changes nothing |
| TaskTable.AfterUpdate | backend/src/services/taskService.ts:264-296 | `updateTask` with its propagation keeps every id and parent |
| TaskTable.AfterReport | backend/src/services/taskService.ts:418-438 | `createTaskUpdate`'s write keeps every id and parent |
| TaskTable.Reported | backend/src/services/taskService.ts:418-438 | a progress report writes only progress, status and actual hours; hours never decrease; progress and status not supplied are kept |
| TaskTable.RemoveRowKeepsShape | backend/src/services/taskService.ts:313 | deleting a row keeps ids distinct and parents below children |
| TaskTable.RemoveRowKeepsWellFormed | backend/src/services/taskService.ts:313 | deleting a row keeps the table invariant |
| TaskTable.RecalcUp | backend/src/services/taskService.ts:317-318 | recalculating the parent and walking up from it changes only progress |
| TaskTable.DeleteEffect | backend/src/services/taskService.ts:299-322 | `deleteTask` leaves the table itself when the task has children or is missing; otherwise one row fewer, none with that id, and the others changed only in progress |
| TaskTable.ProjectRows | backend/src/services/taskService.ts:475-479 | `WHERE project_id = ?`: exactly the project's rows |
| TaskTable.ProjectProgress | backend/src/services/taskService.ts:474-488 | 0 for a project without tasks, otherwise the rounded mean of the progress of all its tasks at every depth |
| Aggregation.RecalcFrame | backend/src/services/taskService.ts:541-545 | `calculateTaskProgress(p)` writes no row but `p`'s |
| Aggregation.PropagateFrame | backend/src/services/taskService.ts:551-574 | the walk from `s` writes only ancestors of `s`, never `s` or a later id |
| Aggregation.PropagateSkipsSiblings | backend/src/services/taskService.ts:551-574 | the walk never rewrites a sibling of the start |
| Aggregation.SameStatsSameMean | backend/src/services/taskService.ts:532-539 | equal child counts and sums give equal means |
| Aggregation.RecalcKeepsStats | backend/src/services/taskService.ts:541-545 | recalculating a task that is not a child of `q` keeps `q`'s child statistics |
| Aggregation.RecalcRestoresOutside | backend/src/services/taskService.ts:517-548 | recalculating `p` repairs `p`, leaving only `p`'s ancestors possibly off |
| Aggregation.PropagateRestores | backend/src/services/taskService.ts:551-574 | when only the ancestors of `s` are off, walking up from `s` makes the whole table consistent |
| Aggregation.ChildRowsConcat | backend/src/services/taskService.ts:519-535 | the children in two stretches of the table are the children in each |
| Aggregation.RemoveKeepsChildren | backend/src/services/taskService.ts:313 | deleting a non-child of `q` keeps `q`'s children |
| Aggregation.NoChildRows | backend/src/services/taskService.ts:519-523 | no row names `q` as parent, so `q` has no children |
| Aggregation.FreshIdIsLeaf | backend/src/services/taskService.ts:244-248 | a freshly inserted task has no children |
| Aggregation.CreateKeepsConsistent | backend/src/services/taskService.ts:244-258 | `createTask` with its propagation keeps every parent at its children's mean |
| Aggregation.PatchedHoldsMean | backend/src/services/taskService.ts:268-284 | the updated fields keep each task's mean except along the updated task's ancestor chain |
| Aggregation.UpdateKeepsConsistent | backend/src/services/taskService.ts:264-296 | `updateTask` keeps consistency unless it writes the progress of a task with children |
| Aggregation.DeleteKeepsConsistent | backend/src/services/taskService.ts:299-322 | `deleteTask` keeps every parent at its children's mean |
| Aggregation.RecalcRowOf | backend/src/services/taskService.ts:517-548 | the recalculated row holds its children's mean, or its own progress as a leaf |
| Aggregation.DistinctRowIs | backend/src/services/taskService.ts:95-115 | with distinct ids, each row is the only one with its id |
| Aggregation.RowIsFound | backend/src/services/taskService.ts:95-115 | the only row with an id is the one looked up |
| Aggregation.RecalcThenPropagateRow | backend/src/services/taskService.ts:317-318 | after recalculating `w` and walking up from it, `w` holds its children's mean |
| Aggregation.RemoveKeepsRow | backend/src/services/taskService.ts:313 | deleting another row keeps `w` |
| Aggregation.RecalcUpFinds | backend/src/services/taskService.ts:317-318 | looking up the recalculated task afterwards finds it with its new progress |
| Aggregation.LeafDeleteIsRecalcUp | backend/src/services/taskService.ts:308-319 | deleting a leaf with a parent is removing its row and then recalculating that parent, and the remaining rows keep parents below children |
| Aggregation.DeleteRecalculatesParent | backend/src/services/taskService.ts:299-319 | after deleting a leaf, its parent holds the mean of its remaining children |
| Aggregation.DeleteLastChildKeepsParent | backend/src/services/taskService.ts:316-318 | deleting a parent's only child leaves the parent's progress as it was (the leaf branch at lines 526-529) |
| TaskTree.RootRowsMembers | backend/src/services/taskService.ts:174-187 | the top level holds exactly the root rows, plus the orphans when they are promoted |
| TaskTree.RootIdsOfRows | backend/src/services/taskService.ts:174-187 | the top-level id list is the ids of the top-level rows |
| TaskTree.ChildIdsOfRows | backend/src/services/taskService.ts:179-181 | a node's child list is the ids of its child rows, in query order |
| TaskTree.Prefill | backend/src/services/taskService.ts:141-144 | the map holds each fetched row under its id, each with an empty child list |
| TaskTree.Attach | backend/src/services/taskService.ts:172-187 | the loop produces exactly the reference root list and child lists, for both orphan policies |
| TaskTree.GetTasksTree | backend/src/services/taskService.ts:61-88 | `getTasks` with `include_children`: the forest with orphans dropped, and `total` is the number of fetched rows |
| TaskTree.PlacedOnce | backend/src/services/taskService.ts:174-187 | each fetched row is at the top level iff its parent is null or not fetched, under `q` iff its parent is `q`, and appears in no list twice |
| TaskTree.RootRowsDistinct | backend/src/services/taskService.ts:174-187 | the top level has no duplicates |
| TaskTree.ChildRowsDistinct | backend/src/services/taskService.ts:179-181 | a child list has no duplicates |
| TaskTree.DropIsPromoteWithoutOrphans | backend/src/services/taskService.ts:76-86 | the task list's top level is the project view's top level without the promoted orphans |
| TaskTree.DropRowsArePromotedRows | backend/src/services/taskService.ts:76-86 | the same at the level of rows |
| TaskTree.OrphanDropped | backend/src/services/taskService.ts:80-84 | in the task list, a row whose parent was not fetched appears nowhere in the tree |
| TaskTree.SortedSnoc | backend/src/services/taskService.ts:135 | appending the next row of a sorted query result to a sorted sublist keeps it sorted |
| TaskTree.ListsKeepQueryOrder | backend/src/services/taskService.ts:135-187 | the top level and every child list are ordered by `(level, sort_order, task_id)` |
| TaskTree.Refresh | backend/src/services/taskService.ts:146-161 | the pass yields one node per fetched row |
| TaskTree.Refreshed | backend/src/services/taskService.ts:146-161 | a node of the pass differs from its fetched row only in progress, and a row without fetched children is kept as it is |
| TaskTree.WrittenBack | backend/src/services/taskService.ts:163-167 | the write-back changes only progress |
| TaskTree.FindSnoc | backend/src/services/taskService.ts:158-159 | looking up an id after appending a row |
| TaskTree.WrittenBackStep | backend/src/services/taskService.ts:147-168 | one iteration writes the mean of the fetched children for a task that has some, and nothing otherwise |
| TaskTree.StoreAgreesWithTree | backend/src/services/taskService.ts:157-167 | after the pass every fetched row in the store equals its node in the returned tree; other rows are untouched |
| TaskTree.RefreshExactAboveLeaves | backend/src/services/taskService.ts:146-169 | the single pass is right for a task whose children are all leaves |
| TaskTree.RefreshKeepsConsistent | backend/src/services/taskService.ts:146-169 | on a consistent table the pass changes nothing |
| TaskService.SetProjectProgress | backend/src/services/taskService.ts:507-510 | `UPDATE projects SET progress`: only the project with that id changes |
| TaskService.RemoveAbsentRow | backend/src/services/taskService.ts:313 | deleting a missing id leaves the table as it is |
| TaskService.NodeOf | backend/src/services/taskService.ts:158-159 | a row not yet visited is still in the map as fetched |
| TaskService.NodesStep | backend/src/services/taskService.ts:157-161 | one iteration updates the map node of a task with children to their mean |
| TaskService.TaskStore.CalculateTaskProgress | backend/src/services/taskService.ts:517-548 | returns the children's rounded mean (writing it) or, for a leaf, its progress, 0 if missing; only `rows` changes |
| TaskService.TaskStore.UpdateParentProgress | backend/src/services/taskService.ts:551-574 | the loop recalculates each ancestor nearest first and stops at a missing row or a root: the table becomes `Propagate(old, id)` |
| TaskService.TaskStore.CreateTask | backend/src/services/taskService.ts:193-261 | inserts the row with the defaults, level and next sort order for the next id, propagates from it when it has a parent, returns it, keeps the store valid and consistency |
| TaskService.TaskStore.UpdateTask | backend/src/services/taskService.ts:264-296 | applies the supplied fields, propagates when progress or status is supplied, returns the re-read row, or the not-found or reload error |
| TaskService.TaskStore.DeleteTask | backend/src/services/taskService.ts:299-322 | refuses a task with subtasks, otherwise deletes it, recalculates and walks up from its parent, and answers whether a row was deleted; keeps consistency |
| TaskService.TaskStore.CreateTaskUpdate | backend/src/services/taskService.ts:398-455 | fails on a missing task with nothing changed; otherwise logs old and new progress and status, hours (0 by default), then writes the task without propagating |
| TaskService.TaskStore.RecomputeOne | backend/src/services/taskService.ts:147-168 | one iteration of the pass, on the map and on the table |
| TaskService.TaskStore.RecomputeFetched | backend/src/services/taskService.ts:146-169 | every node holds its refreshed row and the table holds the write-back |
| TaskService.TaskStore.GetProjectTasks | backend/src/services/taskService.ts:118-190 | builds the forest of the project's rows with orphans promoted, nodes carrying the single-pass means, and writes those means back |
| TaskService.TaskStore.CalculateAllProjectsProgress | backend/src/services/taskService.ts:491-514 | one result per project in order, each the project's progress over all its tasks, and each project row updated to it |
| Scenarios.ExampleConsistent | backend/src/services/taskService.ts:537-539 | the example table (root at 60 over 80 and 40) is consistent |
| Scenarios.CreateIsWalkFromC | backend/src/services/taskService.ts:255-258 | adding C under B is the insertion followed by recalculating B and then the root |
| Scenarios.ExampleScenario | backend/src/services/taskService.ts:255-258 | from the consistent example table, adding C at 100 under B sets B to 100 and then the root to 90 |
| Scenarios.PairStale | backend/src/services/taskService.ts:537-539 | a parent whose value differs from its only child's is inconsistent |
| Scenarios.ReportLeavesParentStale | backend/src/services/taskService.ts:418-438 | `createTaskUpdate` on a child turns a consistent table inconsistent |
| Scenarios.OverwriteBreaksComposite | backend/src/services/taskService.ts:268-289 | `updateTask` with a progress on a task that has children turns a consistent table inconsistent |
| Scenarios.WholeProject | backend/src/services/taskService.ts:475-479 | when every row is in the project, the project's rows are the table |
| Scenarios.ProjectMeanCountsEveryLevel | backend/src/services/taskService.ts:474-488 | after the scenario the root holds 90 while the project's progress is 93, the mean over every level |
| Scenarios.RefreshChain | backend/src/services/taskService.ts:146-169 | the pass over a three-level chain |
| Scenarios.ChainRefreshedStale | backend/src/services/taskService.ts:146-169 | the chain after the pass is inconsistent |
| Scenarios.ReadPassLeavesGrandparentStale | backend/src/services/taskService.ts:146-169 | the project view's pass gives the middle task 100 but leaves the root at 0 |
| JsText.Substring | backend/src/services/contractService.ts:30 | `substring` within bounds is the slice, and never longer than the string |
| JsText.SliceLast | backend/src/services/contractService.ts:31 | `slice(-n)` is the last `n` characters, or the whole of a shorter string |
| JsText.TrimStart | backend/src/services/contractService.ts:31 | `parseInt` skips exactly the leading ECMAScript white space |
| JsText.TrimStartNone | backend/src/services/contractService.ts:31 | nothing is skipped before a non-space |
| JsText.DigitValue | backend/src/services/contractService.ts:31 | a digit's value is below the radix, and a decimal digit's is its code minus `'0'` |
| JsText.LeadingDigits | backend/src/services/contractService.ts:31 | the longest prefix of digits in the radix |
| JsText.DecimalDigit | backend/src/services/contractService.ts:35 | the character of a decimal digit reads back as that digit |
| JsText.NatToString | backend/src/services/contractService.ts:35 | `toString()` of a natural is a non-empty string of decimal digits |
| JsText.NatToStringValue | backend/src/services/contractService.ts:35 | those digits read back as the number |
| JsText.NatToStringLength | backend/src/services/contractService.ts:35 | a number below `10^n` has at most `n` digits |
| JsText.Zeros | backend/src/services/contractService.ts:35 | the zero padding |
| JsText.DigitsValueBelow | backend/src/services/contractService.ts:31 | `n` decimal digits are worth less than `10^n` |
| JsText.ZerosValue | backend/src/services/contractService.ts:31 | leading zeros do not change the value |
| JsText.ZerosValueAlone | backend/src/services/contractService.ts:31 | zeros alone are worth 0 |
| JsText.ZerosPrefix | backend/src/services/contractService.ts:35 | a shorter padding is a prefix of a longer one |
| JsText.ParseDecimal | backend/src/services/contractService.ts:31 | `parseInt` of an all-decimal string is its value |
| JsText.AllDigits | backend/src/services/contractService.ts:31 | a string of digits is its own longest digit prefix |
| JsText.PaddedRoundTrip | backend/src/services/contractService.ts:31-35 | `parseInt(String(v).padStart(4, '0')) == v` for every natural `v` |
| JsText.ParseMagnitude | backend/src/services/contractService.ts:31 | the radix-10 or `0x` radix-16 digit run is never negative, and a decimal run not starting `0x` is the value of its leading digits |
| JsText.Unsigned | backend/src/services/contractService.ts:31 | a string starting with a digit parses as its magnitude |
| JsText.Signed | backend/src/services/contractService.ts:31 | a leading minus sign negates the magnitude that follows |
| JsText.ParseLeadingDigits | backend/src/services/contractService.ts:31 | `parseInt` of a string starting with a digit (and not `0x`) is the value of its longest digit prefix, whatever follows |
| JsText.ParseNoDigit | backend/src/services/contractService.ts:31 | `parseInt` is `NaN` when, after white space, the string is empty or starts with neither a digit nor a sign |
| JsText.NegativeDigits | backend/src/services/contractService.ts:31 | a minus sign followed by decimal digits parses as the negated value |
| JsText.NumberRoundTrip | backend/src/services/contractService.ts:31-35 | `parseInt(n.toString()) == n` for every integer of the model and for `NaN`; JavaScript writes numbers from `1e21` on in exponent notation, which the model does not have, and the generator's serials never come near that |
| ContractNumber.GenerateContractNo | backend/src/services/contractService.ts:9-48 | fails exactly when the query fails, and every number it returns starts with `局0113` |
| ContractNumber.RemoveDashes | backend/src/services/contractService.ts:41 | `replace(/-/g, '')` leaves no dash and changes nothing in a dash-free string |
| ContractNumber.WellFormedSerial | backend/src/services/contractService.ts:31 | the serial of a 17-character number is between 0 and 9999 |
| ContractNumber.FourDigitsBelow | backend/src/services/contractService.ts:31 | four digits are worth less than 10000 |
| ContractNumber.Compose | backend/src/services/contractService.ts:30-37 | `substring(5, 13)` and `slice(-4)` find the date part and serial the number was assembled from |
| ContractNumber.Decompose | backend/src/services/contractService.ts:26-31 | a well-formed number is its prefix, its date digits and its serial digits |
| ContractNumber.NextSerialOfDigits | backend/src/services/contractService.ts:31-35 | below 9999, the next serial text is four digits worth one more |
| ContractNumber.NextSerialReadsBack | backend/src/services/contractService.ts:31-35 | whatever the tail, once it parses to a natural `v` the next serial text is at least four decimal digits and parses to `v + 1` |
| ContractNumber.NextNumber | backend/src/services/contractService.ts:24-37 | from a well-formed number with serial below 9999: a well-formed number on the same date with the serial one higher |
| ContractNumber.DateFromLastNumber | backend/src/services/contractService.ts:30-37 | while a number exists the date part is copied from it, so the clock does not matter |
| ContractNumber.SerialOverflow | backend/src/services/contractService.ts:31-37 | after serial 9999 the number ends in `10000` and has 18 characters |
| ContractNumber.SerialAfterOverflowRestarts | backend/src/services/contractService.ts:24-37 | when the query's answer is an 18-character number ending in `10000` (possible only once the same date's `…9999` row is gone, since `…9999` sorts above it), the next number goes back to serial `0001` on the same date, a number issued before |
| ContractNumber.NextAfterLastSerial | backend/src/services/contractService.ts:31-37 | from the number with serial `9999` on a date, the next one is that date followed by `10000` |
| ContractNumber.StringLessAsymmetric | backend/src/services/contractService.ts:19 | the exact string order of `ORDER BY contract_no` is asymmetric |
| ContractNumber.SharedPrefixLess | backend/src/services/contractService.ts:19 | after a shared prefix the first differing character decides the order |
| ContractNumber.OverflowSortsBelow | backend/src/services/contractService.ts:15-20 | on one date, the number ending in `10000` sorts below the one ending in `9999` |
| ContractNumber.OverflowRepeats | backend/src/services/contractService.ts:15-37 | while the `…9999` number is the greatest, the generated number is `…10000`, and adding it keeps `…9999` the greatest, so every later call generates `…10000` again |
| ContractNumber.NextAfterZeros | backend/src/services/contractService.ts:31-35 | the serial after `0000` is `0001` |
| ContractNumber.NonNumericSerial | backend/src/services/contractService.ts:31-37 | a last number whose last four characters begin, after white space, with neither a digit nor a sign (`abcd`, ` x12`) gets its date part followed by the serial `0NaN` |
| ContractNumber.FirstNumber | backend/src/services/contractService.ts:38-43 | with no number yet: a well-formed number with today's `YYYYMMDD` and serial 1 |
| ContractNumber.FirstShape | backend/src/services/contractService.ts:42 | prefix, eight date digits and `0001` form a well-formed number with that date |
| ContractNumber.FirstSerial | backend/src/services/contractService.ts:42 | that number's serial is 1 |
| ContractNumber.IsoDate | backend/src/services/contractService.ts:41 | `toISOString().slice(0, 10).replace(/-/g, '')` is the eight digits of year, month and day |
| ContractNumber.RemoveDashesJoin | backend/src/services/contractService.ts:41 | removing the two dashes of `YYYY-MM-DD` joins its parts |
| ContractNumber.DashJoin | backend/src/services/contractService.ts:41 | removing dashes on each side of one dash |
| ContractNumber.WellFormedCompose | backend/src/services/contractService.ts:37 | prefix, eight digits and four digits form a well-formed number whose serial reads as the four digits |
| ContractNumber.DashFree | backend/src/services/contractService.ts:41 | digits contain no dash to remove |
| ContractNumber.RemoveDashesConcat | backend/src/services/contractService.ts:41 | removing dashes distributes over concatenation |
| ContractNumber.IsContractNoUnique | backend/src/services/contractService.ts:53-74 | a failed query answers `false` |
| ContractNumber.CountNumber | backend/src/services/contractService.ts:58-67 | `COUNT(*)` is at most the number of projects, and 0 exactly when every project with the number is the excluded one |
| ContractNumber.UniqueIff | backend/src/services/contractService.ts:58-69 | unique iff every project with that number is the excluded one, which excludes only for a truthy id |
| Bearer.Split | backend/src/utils/jwt.ts:36 | `split(' ')` yields at least one piece |
| Bearer.JoinSplit | backend/src/utils/jwt.ts:36 | joining the pieces with spaces gives back the header |
| Bearer.SplitSpaceFree | backend/src/utils/jwt.ts:36 | no piece contains a space |
| Bearer.SplitCount | backend/src/utils/jwt.ts:36-37 | there is one piece more than there are spaces |
| Bearer.SplitJoin | backend/src/utils/jwt.ts:36 | space-free pieces joined with spaces split back into the same pieces |
| Bearer.JoinFirst | backend/src/utils/jwt.ts:36 | the joined string begins with the first piece |
| Bearer.BearerSplit | backend/src/utils/jwt.ts:36-37 | `Bearer ` and a space-free token split into exactly those two pieces |
| Bearer.ExtractToken | backend/src/utils/jwt.ts:31-42 | no token for a missing or empty header; a token that comes back is space-free and the header is `Bearer ` followed by it |
| Bearer.ExtractTokenIff | backend/src/utils/jwt.ts:31-42 | a token `t` comes back iff the header is exactly `Bearer `, then `t`, with no space in `t` |
| Bearer.RoundTrip | backend/src/utils/jwt.ts:31-42 | `Bearer ` and a space-free token yield that token, the empty token included |
| Bearer.PieceCount | backend/src/utils/jwt.ts:37-38 | a header without exactly one space has no token |
| Bearer.NoHeader | backend/src/utils/jwt.ts:32-34 | a missing or empty header, or a bare `Bearer`, has no token |
| Bearer.SchemeIsCaseSensitive | backend/src/utils/jwt.ts:37 | `bearer` or `BEARER` followed by a token has no token |
| Permission.CheckPermission | backend/src/middleware/permission.ts:8-29 | proceeds iff there is a user with a listed role; 401 iff there is no user; 403 iff the role is not listed; with the service's messages |
| Permission.IsAdmin | backend/src/middleware/permission.ts:35 | admits exactly administrators, 401 without a user |
| Permission.IsAdminOrDeptManager | backend/src/middleware/permission.ts:40-43 | admits exactly administrators and department managers |
| Permission.IsAdminOrManager | backend/src/middleware/permission.ts:48-52 | admits every role but employee |
| Permission.ManagerRoles | backend/src/middleware/permission.ts:48-52 | the three listed roles are those other than employee |
| Permission.CanEditProject | backend/src/middleware/permission.ts:58-84 | admits every authenticated user whatever the project id, 401 only without a user |
| Permission.CanDeleteProject | backend/src/middleware/permission.ts:89 | admits exactly administrators, like `isAdmin` |
| Permission.MoreRolesAdmitMore | backend/src/middleware/permission.ts:20-28 | listing more roles never rejects an admitted request and can only turn a 403 into proceeding |
| Permission.SameRolesSameVerdict | backend/src/middleware/permission.ts:20 | only the set of listed roles matters |
| Permission.PresetsNested | backend/src/middleware/permission.ts:35-84 | each preset admits everyone the narrower one admits, up to editing |
| Permission.CanEditIsAnyRole | backend/src/middleware/permission.ts:58-84 | editing is the role check over all four roles |
| Permission.EmployeeForbidden | backend/src/middleware/permission.ts:35-89 | an employee gets 403 from every preset and from project deletion |

## Left out

- SQL text, the connection pool, `LAST_INSERT_ID()` and the joined display columns (assignee and creator names,
  avatars, project name, `is_overdue`). Ids come from the store's counters `nextId` and `nextUpdateId`.
- `getWeeklyHours`, `getMyTasks`, `getMyTaskStats`, `getTaskUpdates` and the filters of `getTasks`. The model
  keeps the tree-building half of `getTasks`, with the filtered, ordered query result as a parameter. These
  functions do not take part in the progress roll-up.
- The controllers (including the progress synchronisation they trigger), routes, the JWT sign/verify calls,
  password hashing, the authentication middleware, the front end and maintenance scripts.
- Concurrency between requests. Each method runs to completion on its own, so interleaved statements of two
  requests are not modelled.
- The table is a sequence of rows with distinct ids, not a map keyed by id, and ids are natural numbers from 1.
  `while (currentTaskId)` is therefore `current != 0`.
- TaskService.TaskStore.CreateTask: requires the parent id to be `None` or an id already issued. The service
  accepts any parent id. One issued later can close a cycle on which `updateParentProgress` never ends, and the
  model keeps parents below children to rule that out.
- TaskService.TaskStore.GetProjectTasks: requires the fetched rows to have distinct ids and to be sorted by
  `(level, sort_order, task_id)`. These are the primary key and the `ORDER BY` of the query, not checked by the
  service; the sort itself is not modelled.
- ContractNumber.GenerateContractNo: the greatest existing number (`ORDER BY contract_no DESC LIMIT 1`) is a
  parameter. MySQL's collation (case folding, trailing spaces), which decides that order and the equality in
  `isContractNoUnique`, is not modelled; strings compare exactly.
- `AVG(progress)` is computed exactly as a rational rounded half up. MySQL returns it as a decimal with four
  places, which can only differ in means that are not exact to four places. Progress values are naturals, and a
  NULL progress is not modelled.
- Hours (`estimated_hours`, `actual_hours`, `hours_spent`) are integers in the model. The service takes any
  number, so a fractional report such as 0.5 passes the same `> 0` test and is added the same way, but it is
  not modelled.
- `updateTask` interpolates any key of the request body into the SQL; the model accepts only the fields of
  `UpdateTaskDto`, where a field's `None` is `undefined`. Field values are not range-checked, as in the service.
- Strings are sequences of Unicode scalar values, not UTF-16 code units. `substring` and `slice` therefore count
  a character outside the Basic Multilingual Plane as one, where JavaScript counts two.
- Exceptions are `Err` values of `TaskError`, `ContractError` or `StoreError`; their message texts are left out,
  and so is the `console.error` logging on the failure paths of `generateContractNo` and `isContractNoUnique`.
  The middleware messages are kept.
- The `Forest` result records the roots, child lists and nodes; it does not state that every node is reachable
  from a root. That follows from `TaskTree.PlacedOnce` with parents below children, but is not proved here.
