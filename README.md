# sequence-comparisons: the diff kernel, its compressed scripts, and the test oracle

This project models the core of the TypeScript library `sequence-comparisons` in Dafny.

- **The diff kernel.** `_diffWu` is Wu's O(NP) search for a middle point of a cheapest edit path, refined by Hirschberg's divide and conquer. It writes an edit script of KEEP_OP, DELETE_OP and INSERT_OP codes into a caller-supplied array, followed by SENTINEL_OP padding.
- **The entry points.** The entry points are `diffWu` and the class `DiffWu`, which keeps its working arrays between calls.
- **Compression for strings.** `compressOpsForString` turns a script into runs. A non-negative number is a run of keeps, a negative number a run of deletes, and a string the characters inserted.
- **Replay.** The class `ApplyCompressedOpsForString` replays such runs on an array of strings and reads the result back with `get`.
- **The test oracle.** The test-suite's reference checks are `editDistance` (a two-row dynamic programme), `editDistanceOfOps` and `checkOps`. The property test calls `checkOps` on every `diffWu` result.

The main results are these:

- **DiffWu is optimal.** `Diff.DiffWu` and `Reusable.DiffWu.Call` return an array whose operations before the first SENTINEL_OP form a complete alignment of `xs` with `ys` (`Ops.Aligns`). Its cost equals the insert/delete edit distance `Distance.Dist`. Every later cell holds SENTINEL_OP.
- **Dist is the least cost.** `Distance.DistIsLeastCost` proves that `Dist` is the least cost of any alignment. So the scripts are optimal, and the reference table `Oracle.EditDistance` computes `Dist`.
- **The round trip.** `RoundTrip.CompressApplyRoundTrip` proves that replaying `compressOpsForString(ops, ys)` rebuilds `ys` on a copy of `xs`. The concatenation is always equal; the array itself is equal when every element of `ys` is a single character.
- **A chain of revisions.** `Revisions.ReplayRevisions` chains diff, compression and replay over a list of texts and reads back every text.
- **Every diff passes the property test.** `Oracle.DiffPassesCheck` proves that every `diffWu` result passes `checkOps`.

How the solver is specified:

- **Fronts as functions.** The solver's forward and backward fronts are specified by the ghost functions `Replay.FFinal` and `Replay.BFinal`, which replay the rounds on values. The methods in `Solver` keep the arrays `fps` and `bps` equal to them slot by slot.
- **Box-relative coordinates.** The edit graph is read relative to the box (`EditGraph.Df`, `EditGraph.Db`). The budgets of the two fronts come from `Wavefront`; `Rounds` collects what a round proves about the distance.
- **Orientation.** Scripts written with the axes exchanged (`isSwapped`) are described by `Ops.AlignsOriented`.

Four places where the model departs from the code:

- **Equality.** `isEqual` is the default `===` throughout, written `==` on a type with equality.
- **Undefined elements.** A JavaScript `undefined` element, read past the end of an array, is the empty string in the string code (`Compress.Elem`), since `join("")` writes nothing for it. In `checkOps` it is the value `Oracle.Absent`, which compares equal only to itself, as `toStrictEqual` does.
- **Failed expectations.** A failed `expect` in `checkOps` is modelled as a `false` result.
- **The fixed-example tests.** Every fixed example in src/index.test.ts (lines 7-216) lists exactly `|xs| + |ys|` cells, one fewer than the `|xs| + |ys| + 1` cells that `diffWu` allocates and returns (src/_index.ts:176). The examples at lines 95, 139 and 175-185 also have no trailing SENTINEL_OP. The model follows src/_index.ts. The module `./index` that the test imports is not part of this model.

## Model

| member | source | states |
|---|---|---|
| Loops.GetForwardLoop | src/_index.ts:400-411 | Forward round p visits each diagonal of [-p, delta + p] exactly once: those below delta upwards, those above delta downwards, then delta itself |
| Loops.GetBackwardLoop | src/_index.ts:413-424 | A backward round visits each diagonal of [-nx, ny] exactly once: delta first, then those below it downwards, then those above it upwards |
| Loops.ForwardLoopVisits | src/_index.ts:400-411 | The three generator segments together enumerate the forward diagonals once each, at the positions `ForwardPos` names |
| Loops.BackwardLoopVisits | src/_index.ts:413-424 | The three generator segments together enumerate the backward diagonals once each, at the positions `BackwardPos` names |
| Snakes.SnakeForward | src/_index.ts:360-377 | Follows diagonal k through matching pairs from the corner after (ix, iy) without leaving the box. It stops at the box edge or at the first mismatch, and its result is the replay value `SnakeF` |
| Snakes.SnakeBackward | src/_index.ts:379-394 | Follows diagonal k backwards through matching pairs without passing ix1 or iy1. It stops at the first mismatch or edge, and its result is the replay value `SnakeB` |
| Arrays.Fill | src/_index.ts:134 | Sets exactly the cells in [lo, hi) to the value; every other cell keeps its old value |
| Solver.InitFronts | src/_index.ts:253-259 | Forward slots hold iy1 - 2 (unreached), except diagonal 0, which holds the origin row iy1 - 1. Backward slot j holds iy1 + j - 1 up to j = ny and iy2 from there to the end of the array. These are the initial fronts `FInit` and `BInit` in the solver's coordinates |
| Solver.ForwardVisit | src/_index.ts:272-290 | One forward diagonal: either the raw value has reached the backward front and names a middle point (a corner on a cheapest path, neither origin nor terminus), or the slot now holds the snake-extended value of round p |
| Solver.ForwardSweep | src/_index.ts:271-291 | The forward visiting loop: it stops at a middle point, or leaves every diagonal of round p holding its round-p value |
| Solver.ForwardRound | src/_index.ts:269-291 | Forward round p either finds a middle point or leaves the whole forward front of round p. In the second case the distance is at least 4p + delta when p >= 1 |
| Solver.WriteKeeps | src/_index.ts:296-300 | Writes a KEEP for every matching pair up to the stop row; the script written so far stays an alignment of the same cost |
| Solver.WriteStair | src/_index.ts:295-304 | One step of the shortcut stair: keeps along diagonal k, then one insert. The script aligns the corresponding prefixes at cost k + 1 |
| Solver.WriteShortcut | src/_index.ts:292-311 | When round 0 reaches the last row on diagonal delta, it writes an optimal script of len(B) operations, made of delta inserts and the keeps between them |
| Solver.BackwardVisit | src/_index.ts:314-325 | One backward diagonal: either the clamped raw value has reached the forward front and names a middle point, or the slot now holds the snake-extended value of round p |
| Solver.BackwardSweep | src/_index.ts:313-326 | The backward visiting loop: it stops at a middle point, or leaves every diagonal holding its round-p value |
| Solver.BackwardRound | src/_index.ts:313-326 | Backward round p either finds a middle point, or leaves the backward front of round p and a distance of at least 4p + delta + 2 |
| Solver.FindMiddle | src/_index.ts:253-327 | The alternating rounds end either with the shortcut's optimal script or with a middle point on a cheapest path, neither the origin nor the terminus; `ops` is untouched in the second case |
| Replay.FFinalOK | src/_index.ts:271-291 | After forward round p, diagonal k holds the furthest row reachable from the origin within its budget, snake included, or -1 exactly where no corner is within budget |
| Replay.BFinalOK | src/_index.ts:313-326 | After backward round q, diagonal k holds the earliest row from which the terminus is reachable within its budget, snake included; diagonals outside the box keep their initial value |
| Replay.FRawOK | src/_index.ts:272 | The raw forward value `max(left + 1, right)` is reached within budget, and every corner within budget is before it or joined to it by matching pairs |
| Replay.BRawOK | src/_index.ts:314-317 | The clamped raw backward value `max(min(left, right - 1), iy1 - 1)` reaches the terminus within budget and is complete in the same sense |
| Wavefront.ForwardMeet | src/_index.ts:274-279 | A forward raw value at or past the backward value of the round before names a corner on a cheapest path, other than the origin |
| Wavefront.BackwardMeet | src/_index.ts:319-324 | A backward raw value at or before the forward value names a corner inside the box on a cheapest path, neither the origin nor the terminus |
| Wavefront.NoMeet | src/_index.ts:269-327 | Complete forward and backward fronts that are apart on every diagonal force the distance above the sum of their budgets |
| Wavefront.ShortcutExact | src/_index.ts:292 | The forward value of diagonal delta after round 0 is the last row exactly when the distance is delta |
| Rounds.ShortcutIff | src/_index.ts:292 | The shortcut test `iy2 - 1 === fps[offset + delta]` after round 0 holds exactly when the distance is len(B) - len(A) |
| Rounds.ForwardMeetOK | src/_index.ts:274-279 | A meet in forward round p names a middle point, and only for p >= 1 |
| Rounds.BackwardMeetOK | src/_index.ts:319-324 | A meet in backward round p names a middle point |
| Rounds.FirstRoundNoMeet | src/_index.ts:274 | In forward round 0 every raw value lies before the initial backward value, so round 0 never meets |
| Rounds.NotTerminus | src/_index.ts:271-279 | Once both neighbours of diagonal delta stayed apart, its raw value is before the last row, so a forward meet is never the terminus |
| Rounds.FrontsApart | src/_index.ts:269-327 | Fronts apart on every diagonal force the distance above 2p + 2q + delta |
| Rounds.ForwardRoundApart | src/_index.ts:271-291 | A forward round without a meet leaves the distance bound that backward round p relies on |
| Rounds.BackwardRoundApart | src/_index.ts:313-326 | A backward round without a meet leaves a distance of at least 4p + delta + 2 |
| Rounds.RoundBound | src/_index.ts:269-270 | The distance bounds keep the round counter p at most len(A), so the `while (true)` loop ends |
| Rounds.MeetSplits | src/_index.ts:329-357 | A middle point cuts the box into two strictly smaller boxes whose distances add up to the whole distance |
| Distance.DistSym | src/_index.ts:197-206 | The distance does not depend on the order of the two sequences, which is why the solver may swap them |
| Distance.Opt | src/index.test.ts:276-295 | An alignment whose cost is the distance exists for every pair of sequences |
| Distance.LowerBound | src/index.test.ts:276-295 | No alignment costs less than the distance |
| Distance.DistIsLeastCost | src/index.test.ts:276-295 | The distance is exactly the least cost of an alignment |
| Ops.AlignsCounts | src/index.test.ts:255-271 | An alignment consumes every element: keeps plus deletes equal len(a), keeps plus inserts equal len(b), and it holds no SENTINEL_OP |
| Ops.AlignsFlip | src/_index.ts:205-206 | Exchanging DELETE_OP and INSERT_OP in an alignment of a with b aligns b with a |
| Ops.Prefix | src/index.test.ts:270-271 | The operations before the first SENTINEL_OP: a prefix of the array, free of SENTINEL_OP, followed by SENTINEL_OP when shorter than the array |
| Diff.WriteInsertRun | src/_index.ts:211-213 | Writes an insert for each remaining element of B after the script already written: the new script is exactly the old one followed by that many inserts, and the alignment extends to all of B at one edit per insert |
| Diff.DiffEmpty | src/_index.ts:210-215 | An empty first sequence gives exactly m inserts, an optimal script |
| Diff.DiffOneOne | src/_index.ts:216-225 | A 1 by 1 box writes exactly [KEEP] when the two elements are equal, otherwise exactly [delete, insert] (delete first, both oriented by `isSwapped`); the script aligns the box and is optimal |
| Diff.ScanInserts | src/_index.ts:228-240 | Writes exactly one insert for every element of B before the first one equal to the single element of A, and stops there |
| Diff.DiffOneMany | src/_index.ts:226-247 | A 1 by m box: when the single element occurs in B, the returned index i is its first occurrence and the script is exactly i inserts, one KEEP, then len(B) - i - 1 inserts; when it does not occur, the script is exactly len(B) inserts followed by one delete. Either way it aligns the box and is optimal |
| Diff.JoinHalves | src/_index.ts:329-357 | Optimal scripts of the two halves of a box cut at a middle point, written one after the other, make an optimal script of the box |
| Diff.DiffSplit | src/_index.ts:329-357 | The two recursive calls write an optimal script of the box from iop1 on; no other cell changes |
| Diff.DiffOriented | src/_index.ts:203-358 | `_diffWu` after the swap: base cases, shortcut or split. It writes an optimal script of the box, with codes exchanged when swapped, and returns its length |
| Diff.DiffWuInto | src/_index.ts:183-358 | `_diffWu`: writes from iop1 on an optimal script of the box of at most nx + ny operations, returns its length, and changes no other cell of `ops` |
| Diff.ScriptAfterReset | src/_index.ts:176 | A script written over SENTINEL_OP padding is exactly what precedes the first SENTINEL_OP, and the padding after it survives |
| Diff.DiffWu | src/_index.ts:169-181 | A fresh array of len(xs) + len(ys) + 1 cells. Its operations before the first SENTINEL_OP align xs with ys at the edit distance, every later cell is SENTINEL_OP, and so is the last one |
| Reusable.DiffWu.constructor | src/_index.ts:116-120 | One SENTINEL_OP and front arrays of length 3 |
| Reusable.DiffWu.Call | src/_index.ts:127-155 | Grows the arrays only when they are too short and resets len(xs) + len(ys) + 1 cells. It returns the object's own array, whose prefix is an optimal script; later reset cells hold SENTINEL_OP and older cells beyond them are untouched |
| Compress.CompressOpsForString | src/_index.ts:62-104 | The loop computes the left-to-right scan `Compressed`: it closes a run whenever the operation changes, and stops at the first SENTINEL_OP |
| Compress.ScanCursor | src/_index.ts:87-97 | After a scan the cursor into `ys` is one before the number of keeps plus inserts, so each insert takes the element of `ys` it stands for |
| Compress.CompressedFinal | src/_index.ts:98-99 | With a SENTINEL_OP present, the result is the closed runs of the prefix plus its last open run |
| Compress.CompressedMaximal | src/_index.ts:62-104 | The runs are maximal: no zero count, and no two neighbouring entries of the same kind |
| Compress.JoinConcat | src/_index.ts:81 | Joining a concatenation of string arrays concatenates their joins |
| Apply.Put | src/_index.ts:36 | Assigning at index j, at most one past the end, keeps the first j elements and sets element j; the array grows only when j is its length |
| Apply.Write | src/_index.ts:36 | One write at the next position appends exactly that value to what the replay has written |
| Apply.ApplyCompressedOpsForString.constructor | src/_index.ts:21-25 | The current text is the whole given array; the spare array is empty |
| Apply.ApplyCompressedOpsForString.CopyInto | src/_index.ts:35-37 | Copies the next n source elements, advancing both cursors by n, and leaves the source array and its length alone |
| Apply.ApplyCompressedOpsForString.InsertInto | src/_index.ts:41-43 | Writes each character of the string as an element of its own |
| Apply.ApplyCompressedOpsForString.Apply | src/_index.ts:26-49 | Replays the runs from the current array into the spare one, exchanges the two, and sets the current length to the number of elements written |
| RoundTrip.InsertRunJoin | src/_index.ts:41-43 | Writing the characters of s one by one extends the joined output by s |
| RoundTrip.ReplayPrefix | src/_index.ts:26-104 | Replaying the runs of an alignment of prefixes rebuilds the prefix of `ys`, with the source cursor at the end of the prefix of `xs` |
| RoundTrip.CompressApplyRoundTrip | src/_index.ts:26-104 | Replaying `compressOpsForString(ops, ys)` on any array that starts with xs, where `ops` aligns xs with ys, consumes all of xs and rebuilds ys as joined text. The array is rebuilt exactly when each element of ys is one character |
| Revisions.JoinChars | src/_index.ts:41 | Splitting a text into characters and joining them gives the text back |
| Revisions.Revise | src/_index.ts:17-104 | Diff, compress and `apply` on an object holding one text leave it holding the next text, and `get` returns that text |
| Revisions.ReplayRevisions | src/_index.ts:17-104 | Over a list of revisions, every text read back from the object is the revision itself |
| Oracle.FillRow | src/index.test.ts:284-291 | One row of the table: entry j of the new row is the distance between the first i elements of xs and the first j of ys |
| Oracle.EditDistance | src/index.test.ts:276-295 | `editDistance` with its row exchange returns the insert/delete edit distance |
| Oracle.EditDistanceOfOps | src/index.test.ts:297-307 | Counts the deletes and inserts before the first SENTINEL_OP |
| Oracle.ReplayNext | src/index.test.ts:258-270 | One more operation advances the cursors by its kind and adds one comparison when it is a KEEP_OP |
| Oracle.CheckKeeps | src/index.test.ts:255-273 | The replay loop reports a mismatch exactly when some KEEP_OP before the first SENTINEL_OP pairs two different reads; otherwise it returns the cursors the prefix leads to |
| Oracle.CheckOps | src/index.test.ts:248-274 | Accepts exactly when the edit count of the prefix equals the edit distance and every KEEP_OP of the prefix pairs equal reads |
| Oracle.AlignedReplays | src/index.test.ts:248-274 | A complete alignment replays with no mismatch and leaves both cursors on the last elements |
| Oracle.ReplayedAligns | src/index.test.ts:248-274 | Conversely, a replay with no mismatch whose cursors end inside both arrays is a complete alignment of the prefixes the cursors reached |
| Oracle.CheckOpsAcceptsIncomplete | src/index.test.ts:248-274 | `checkOps` as written accepts scripts that are not alignments: `[SENTINEL_OP]` for [1] and [1], and `[KEEP_OP, SENTINEL_OP]` for two empty arrays |
| Oracle.CheckOpsComplete | src/index.test.ts:248-274 | With the end-of-array check added, it accepts exactly the complete alignments whose edit count is the edit distance |
| Oracle.DiffPassesCheck | src/index.test.ts:239-242 | Every `diffWu` result passes `checkOps`, and also the complete check |

## Left out

- **Custom equality.** An `isEqual` argument other than the default `===` is not modelled; elements are compared with Dafny's `==`.
- **Complexity.** The O(NP) time and O(N) space bounds are not stated. Termination of the round loop is proved through `Rounds.RoundBound`.
- **JavaScript array growth.** Growing an array by assigning `length` (src/_index.ts:131-139) is modelled as allocating a longer array. Cells the source leaves as holes are never read before they are written.
- **Code points.** `Array.from(op)` splits a string into code points. The model splits it into `char`s and does not treat surrogate pairs.
- **Aliasing.** In `ApplyCompressedOpsForString` the arrays are values (`seq<string>`). The aliasing between the object's arrays and the array passed to the constructor is not modelled. After the first `apply`, the source writes into the caller's array.
- Compress.CompressOpsForString: a script with no SENTINEL_OP never flushes its last run, and the model keeps that behaviour. The round-trip and revision properties assume a SENTINEL_OP, which `diffWu` always writes.
- Apply.ApplyCompressedOpsForString.Get: has no contract of its own. What it returns is stated through `Revisions.Revise`.
- RoundTrip.CompressApplyRoundTrip: for elements of `ys` longer than one character, only the joined text is rebuilt, not the array. `apply` splits each inserted string into characters.
- Oracle.CheckOps: a failed `expect` is a `false` result rather than an exception. The test's property generators (fast-check) are not modelled; `Oracle.DiffPassesCheck` states the property for all inputs.

## Findings

| source | as written | input that shows it | evidently intended | confidence | as-written member | corrected member |
|---|---|---|---|---|---|---|
| src/index.test.ts:248-274 | `checkOps` checks the edit count and the KEEP_OP comparisons, but never that the cursors end on the last elements of `xs` and `ys`. A KEEP_OP past both ends compares `undefined` with `undefined` and passes | `ops = [SENTINEL_OP]` with `xs = ys = [1]` (count 0 = distance 0, nothing compared). `ops = [KEEP_OP, SENTINEL_OP]` with `xs = ys = []`. Neither script is an alignment | the check accepts only complete alignments of `xs` with `ys` whose edit count is the edit distance | not executed | Oracle.CheckOpsAcceptsIncomplete | Oracle.CheckOpsComplete |
