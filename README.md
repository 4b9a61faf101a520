# riff diff engine, modelled in Dafny

This project models the core of the `riff` line differ (`src/lib.rs`,
module `diff`). The core has two parts.

- `lcs` computes one longest common subsequence (LCS) of two sequences. It
  fills a dynamic-programming table over all pairs of prefixes. It then walks
  back from the bottom-right cell: on equal elements it records the pair and
  steps diagonally. Otherwise it steps "up" when that keeps the LCS length,
  and "left" otherwise. The recorded pairs are reversed into ascending order.
- `diff` frames that alignment with the sentinels `(-1, -1)` and
  `(|a|, |b|)`. It walks the gaps between consecutive pairs. For each gap it
  emits the skipped lines of the old sequence as DELETE, then the skipped
  lines of the new sequence as INSERT. After every real pair it emits the
  matched line as NIL.

The model is in two modules:

- `LcsEngine` (`lcs.dfy`) holds `LcsItem` and the specification of the LCS.
  `LcsLength` is the recurrence over prefix lengths. `Aligns` says what a
  common subsequence given as index pairs is. `Trace` is the exact path the
  backtracking walk takes, including its rule for stepping up or left. The
  imperative `Lcs` fills an `array2` table in `FillTable`, walks it in `Backtrack`, and
  reverses the result.
- `DiffBuilder` (`diff.dfy`) holds `EditType` and `DeltaLine`.
  - `Step` is the specification of what one entry of the framed alignment
    emits.
  - `Annotated` is the output after the first k entries, and `DiffOf` is the
    whole output.
  - `Keep(d, Insert)` is the old side of a diff: its DELETE and NIL lines.
    `Keep(d, Delete)` is the new side: its INSERT and NIL lines.
  - `Count` counts the entries of one type. `GapsOrdered` says that no
    DELETE directly follows an INSERT.
  - The imperative `Diff` frames the alignment and runs the walk in
    `Annotate`. `Annotate` calls `PushStep`, whose two inner loops are
    `PushRun`.

Elements are of any type with equality. The source uses `String` lines.
Integers are unbounded.

## Model

| member | source | states |
|---|---|---|
| LcsEngine.SameItem | src/lib.rs:75-79 | Two items are equal exactly when both index fields agree. |
| LcsEngine.LcsLengthSteps | src/lib.rs:94-102 | Adding one row or one column to a prefix pair never shrinks a table cell. It grows the cell by at most one. |
| LcsEngine.LcsLengthBound | src/lib.rs:94-102 | Every table cell `dp[i][j]` is at most `min(i, j)`. |
| LcsEngine.LcsLengthSelf | src/lib.rs:94-102 | When a sequence is compared with itself, cell `dp[i][i]` is `i`. |
| LcsEngine.LcsLengthDisjoint | src/lib.rs:94-102 | When the two prefixes share no element, their cell is 0. |
| LcsEngine.AlignsBound | src/lib.rs:94-102 | Optimality: no common subsequence of `a[..i]` and `b[..j]` is longer than `dp[i][j]`. |
| LcsEngine.FillTable | src/lib.rs:92-102 | After the two nested loops, every cell of the table equals the LCS length of its two prefixes and lies between 0 and `min(i, j)`. |
| LcsEngine.TraceLength | src/lib.rs:109-119 | The walk from `(r, c)` records exactly `dp[r][c]` pairs. |
| LcsEngine.TraceInBounds | src/lib.rs:109-113 | Every recorded pair lies inside `a[..r]` and `b[..c]` and points at equal elements. |
| LcsEngine.TraceDecreasing | src/lib.rs:109-119 | Along the walk both indices of the recorded pairs strictly decrease. |
| LcsEngine.Backtrack | src/lib.rs:104-119 | Given a correct table, the loop records exactly the pairs of the walk, including the step "up" whenever the cell above equals the current cell. |
| LcsEngine.Reversed | src/lib.rs:120 | The reversal has the same length, and element `k` is element `|s|-1-k` of the input. |
| LcsEngine.AlignmentAligns | src/lib.rs:88-122 | The returned pairs are a common subsequence. Each pair is in bounds and points at equal elements, and both indices strictly increase. The number of pairs is the LCS length. |
| LcsEngine.AlignmentIsLongest | src/lib.rs:88-122 | No common subsequence of the two inputs has more pairs than the returned one. |
| LcsEngine.EmptyInputAlignment | src/lib.rs:109 | When either input is empty, the result is empty. |
| LcsEngine.Lcs | src/lib.rs:88-122 | The result is the reversed walk. It is a common subsequence in ascending order, its length is `dp[n][m]`, no common subsequence is longer, and it is empty when an input is empty. |
| LcsEngine.ScienceIncentive | src/lib.rs:42-61 | For "science" and "incentive" the result has 4 pairs, and each pair points at equal letters. |
| DiffBuilder.FramedAlignment | src/lib.rs:146-152 | The alignment framed by `(-1, -1)` and `(|a|, |b|)` has strictly increasing indices, and its inner pairs point at equal elements. |
| DiffBuilder.GapBounds | src/lib.rs:155-173 | For every `i`, the ranges `lcs[i-1]+1 .. lcs[i]` on both sides are valid slices. Only the last entry is the terminal sentinel. |
| DiffBuilder.StepOldSide | src/lib.rs:156-179 | The DELETE and NIL lines one iteration emits are the old lines of its gap, then the matched line unless the entry is the terminal one. |
| DiffBuilder.StepNewSide | src/lib.rs:165-179 | The INSERT and NIL lines one iteration emits are the new lines of its gap, then the matched line (equal to the new side's element) unless the entry is the terminal one. |
| DiffBuilder.StepNilCount | src/lib.rs:174-179 | One iteration emits one NIL line, except after the terminal sentinel. |
| DiffBuilder.StepGapsOrdered | src/lib.rs:156-179 | Within one iteration deletions precede insertions. A real entry's output ends with its NIL line. |
| DiffBuilder.SidesBase | src/lib.rs:147-150 | Before the first iteration the output is empty, which is both sides up to the front sentinel. |
| DiffBuilder.OldSideInner | src/lib.rs:156-179 | An iteration for a real pair extends the DELETE and NIL lines from `a` up to the previous matched line to `a` up to its own matched line. |
| DiffBuilder.OldSideLast | src/lib.rs:156-174 | The iteration for the terminal sentinel extends them to all of `a`. |
| DiffBuilder.NewSideInner | src/lib.rs:165-179 | The same as `OldSideInner` for the INSERT and NIL lines and `b`. |
| DiffBuilder.NewSideLast | src/lib.rs:165-174 | The same as `OldSideLast` for the INSERT and NIL lines and `b`. |
| DiffBuilder.AnnotatedOldSide | src/lib.rs:155-180 | After `k` iterations, the DELETE and NIL lines spell `a` up to and including the `k`-th matched line. After the last iteration they spell all of `a`. |
| DiffBuilder.AnnotatedNewSide | src/lib.rs:155-180 | The same for the INSERT and NIL lines and `b`. |
| DiffBuilder.AnnotatedNilCount | src/lib.rs:155-180 | After `k` iterations there is one NIL line per real alignment pair handled. |
| DiffBuilder.AnnotatedGapsOrdered | src/lib.rs:155-180 | No DELETE ever directly follows an INSERT, and the output after a real entry ends with that entry's NIL line. |
| DiffBuilder.DiffOfProperties | src/lib.rs:145-182 | The DELETE and NIL lines spell `a`, and the INSERT and NIL lines spell `b`. With `k` the LCS length, there are `k` NIL, `|a|-k` DELETE and `|b|-k` INSERT lines. Deletions precede insertions in every gap. |
| DiffBuilder.DiffOfDisjoint | src/lib.rs:145-182 | When the inputs share no element, the diff deletes all of `a` and then inserts all of `b`. |
| DiffBuilder.DiffOfEmpty | src/lib.rs:145-182 | An empty `a` gives all of `b` as INSERT. An empty `b` gives all of `a` as DELETE. |
| DiffBuilder.DiffOfIdentity | src/lib.rs:145-182 | Comparing a sequence with itself gives every line as NIL, in order. |
| DiffBuilder.ExampleAlignment | src/lib.rs:104-120 | The alignment of `[a, b, c]` with `[a, x, c]` is the pairs (0, 0) and (2, 2). |
| DiffBuilder.DiffExample | src/lib.rs:145-182 | The diff of `[a, b, c]` and `[a, x, c]` is NIL a, DELETE b, INSERT x, NIL c. |
| DiffBuilder.PushRun | src/lib.rs:158-163 | The inner loop appends the slice `s[lo..hi]`, in order, each line tagged with the given edit type. |
| DiffBuilder.PushStep | src/lib.rs:156-179 | One iteration of the outer loop appends exactly what its gap and matched line specify. |
| DiffBuilder.Annotate | src/lib.rs:155-180 | The outer loop produces the output for every entry of the framed alignment. |
| DiffBuilder.Diff | src/lib.rs:145-182 | The result is `DiffOf(a, b)`. Its old side is `a` and its new side is `b`. The NIL, DELETE and INSERT counts are `k`, `|a|-k` and `|b|-k`, and gaps are ordered. It handles the empty, identical and disjoint cases as above. |

## Left out

- `io::lines` and `src/main.rs` read files and print. This is file I/O, and `src/main.rs` is not part of this model.
- The `println!` of the framed alignment in `diff` is left out: it is output only.
- `DeltaLine::to_string` is a stub that returns the empty string. It carries no behaviour to model.
- `Hunk` and `HUNK_RADIUS` are declared but not used by any code.
- `LcsItem::ne` is the negation of `eq`. Dafny's `!=` on the datatype already is that negation.
- LcsLength, Lcs and Diff: the `i32` casts of indices and lengths are not modelled. Integers are unbounded, so inputs longer than 2^31 - 1 elements are out of scope.
- Lcs: the table is an `array2` of mathematical integers rather than a vector of vectors of `i32`. The cells never exceed the shorter input's length.
- Lcs: the source fills the table and walks it inside one function. The model splits that into `FillTable` and `Backtrack`.
- Diff: the source runs the body of its outer loop inline. The model splits it into `PushStep` and `PushRun`.
- ScienceIncentive: the test splits each word into one-letter strings. The model compares the words as sequences of characters, which gives the same equalities.
