# Dancing Links, modelled and verified in Dafny

This project models `dlx::DLX<Row, Column>`, a generic Dancing Links solver for exact-cover problems (Knuth's Algorithm X). The solver keeps a sparse 0/1 matrix as a four-way circular doubly linked structure:

- a root sentinel;
- a ring of column headers, each with a `size` counter;
- one vertical ring of cells per column;
- one horizontal ring of cells per row.

Its operations are:

- `add(row, col)` puts a cell in the matrix.
- `optional(col)` takes a column out of the header ring, so that it may be covered at most once.
- `search()` runs Algorithm X. At every terminal node it calls the hooks `found()` and `stuck()`, and it stops as soon as one of them answers false.
- `push(row)` and `pop()` select and unselect a row by hand.
- `sample(g)` walks one random path of the search tree and returns the branching degrees along it.

## Layout

- **`rings.dfy` (`Rings`):** a ring is a list of arena nodes linked by a `next`/`prev` pair of sequences. Covers splicing a node in at the end, removing a member, and frame lemmas.
- **`lists.dfy` (`Lists`):** list helpers (`Minus`, `Without`, `Rotate`, `Elems`).
- **`fabric.dfy` (`Fabric`):** the `Node` of dlx.hpp as the value `Links`. It has one sequence per field: L, R, U, D, `column`, `size`. The node splices are pure functions on it.
- **`matrix.dfy` (`Matrix`):**
  - the ghost `Shape` that says what the links encode;
  - the matrix invariant `Dancing`;
  - `cover` and `uncover` as functions (`CoverLinks`, `CoverShape`);
  - the proofs that covering keeps the invariant and that uncovering undoes it step by step.
- **`build.dfy` (`Build`):** `add` and `optional` as functions, and the proofs that they keep the invariant.
- **`dlx.dfy` (`Dlx.Arena`):** the class that rewires the node fields in place. Its `Cover` and `Uncover` are the nested loops of dlx.hpp, proved against the functions of `Matrix`.
- **`select.dfy`, `stack.dfy`, `names.dfy`, `trace.dfy`:**
  - sequences of covers and the partial solution;
  - the record of what each `push` did;
  - the `rows`/`columns` name maps;
  - the log of hook calls.
- **`tree.dfy` (`Tree`):** the search tree as functions on states, with no loops or links: the column a node branches on (`Choice`), the state below a row (`Child`, `Pushed`), the hook calls of a whole `search` (`Run`, `Rows`, `RowSearch`), and the path of a `sample` (`Path`). The methods of the solver are proved to follow them.
- **`solver.dfy` (`Solver.DLX`):** the solver class with its `rows`, `columns` and `solution` state and all public operations. The invariant `Valid()` is stated on the value `Now()` of the state.

## Modelling decisions

- **Nodes.** A pointer is an index into the arena. The root is node 0. A null map entry (`r == 0` in the source) is a name that is absent from the map.
- **Hooks.** `found()` and `stuck()` are the function `answer(hook, solution, n)`, where `n` counts the hook calls made before. Every call is logged in `calls`. The default hooks of dlx.h answer true always.
- **Random numbers.** The generator `g` of `sample` is the function `draw(k, n)`. The k-th draw over n rows answers it, and the model requires the answer to lie in `1..n`, as `uniform_int_distribution<int>(1, n)` does.
- **Row type.** `Row()` is a parameter `blank`: the name that headers and the root carry.
- **Phase rule.** The rule of dlx.h:29-30 is a precondition: `add` and `optional` need an empty `solution`.
- **Reference definitions.** `search` and `sample` are specified by functions of the state, not by their loops. `Tree.Run` is the sequence of hook calls a search from a state makes: `found()` on an empty header ring, `stuck()` on a chosen column with no rows, and otherwise the searches below the rows of the chosen column, top to bottom, up to the first false answer. `Tree.Path` is the list of sizes a sample records. The methods then promise that their log, or their result, equals these functions.
- **Sealed predicates.** Several predicates are written `forall k :: Seal(k) ==> Body`, where `Seal` is a ghost function that always returns true. Such a predicate means exactly `Body`. The verifier unfolds `Body` only inside proofs that mention `Seal`, usually through an opening line `assert Seal(0);`. This keeps large definitions out of the proofs that only pass them along, which would otherwise run out of resources. Each seal guards one group, so that opening one group does not open the others:
  - `Matrix.Key`: the matrix invariant `Dancing` and its parts.
  - `Stack.Pin`: the record of pushes `Trail`.
  - `Solver.Lock`: the solver invariant `Holds`.
  - `Solver.Turn`, `Solver.Tally`, `Solver.Rewind`: the steps of `sample` (`Drawn`, `Sampled`, `Unwound`).
  - `Solver.Shut`: the partial solution and the log in `Solver.DLX.Covering`.
  - `Tree.Door`: the tree definitions `Below`, `Beneath`, `Stops` and `Sound`, and the links between a method and the tree (`Ran`, `RowsRan`, `RowRan`, `Looped`, `PathCons`, `Trod`).

## Model

| member | source | states |
|---|---|---|
| Fabric.NewNode | dlx.hpp:8-11 | a new node is linked to itself left, right, up and down, is its own column and has size 0 |
| Build.NewNodeKeeps | dlx.hpp:8-11 | creating a node changes no field of any node already in the arena |
| Fabric.InsertLR | dlx.hpp:13 | `insert_LR` changes only L and R links; where the node lands is stated by Rings.RingAppend |
| Fabric.InsertUD | dlx.hpp:14 | `insert_UD` changes only U and D links |
| Rings.RingAppend | dlx.hpp:13-14 | splicing a node that is not in a ring in just before the ring's anchor yields a ring with that node last |
| Fabric.RemoveLR | dlx.hpp:16 | `remove_LR` changes only the L of the right neighbour and the R of the left neighbour; the removed node keeps its own links |
| Fabric.RemoveUD | dlx.hpp:17 | `remove_UD` changes only the U of the node below and the D of the node above; the removed node keeps its own links |
| Rings.RingRemove | dlx.hpp:16-17 | removing a member other than the anchor leaves a ring of the remaining members in the same order |
| Fabric.RestoreLR | dlx.hpp:19 | `restore_LR` changes only L and R links |
| Fabric.RestoreUD | dlx.hpp:20 | `restore_UD` changes only U and D links |
| Fabric.RestoreRemoveLR | dlx.hpp:16-19 | on a consistently linked node, `restore_LR` right after `remove_LR` gives back every link |
| Fabric.RestoreRemoveUD | dlx.hpp:17-20 | on a consistently linked node, `restore_UD` right after `remove_UD` gives back every link |
| Fabric.SelfLoopLR | dlx.hpp:16-19 | removing or restoring a self-looped node changes nothing |
| Matrix.FreshDancing | dlx.hpp:129-137 | the root alone satisfies the matrix invariant, and its header ring is empty |
| Matrix.ColumnSize | dlx.hpp:176-178 | whenever the invariant holds, a header's `size` is the number of cells linked into its column ring |
| Matrix.EmptyRing | dlx.hpp:27-31 | `root->R == root` exactly when the header ring is empty; otherwise `root->R` is its leftmost header |
| Matrix.HeadersInArena | dlx.hpp:32-38 | every header in the header ring is a column header, is not covered, and is not the root |
| Matrix.Unlink | dlx.hpp:70-71 | unlinking a cell changes only vertical links and sizes, never L, R or the column pointers |
| Matrix.RelinkUnlink | dlx.hpp:70-84 | relinking a consistently linked cell right after unlinking it restores every field, its column's `size` included |
| Matrix.UnlinkOne | dlx.hpp:70-71 | unlinking a cell removes exactly that cell from its own column ring and lowers that column's `size` by one; other columns are unchanged |
| Matrix.CoverLinks | dlx.hpp:62-74 | `cover` changes links and sizes only, never the number of nodes or any column pointer |
| Matrix.CoverShape | dlx.hpp:62-74 | after `cover(c)`, c is covered; the rows, the optional columns and the set of headers are unchanged |
| Matrix.CoverDancing | dlx.hpp:62-74 | `cover` of a live column keeps the invariant: c is out of the header ring, every row meeting c is off its other columns, and each size equals its column's count |
| Matrix.CoverKeepsOwnColumn | dlx.hpp:43-44 | `cover(c)` leaves c's own column ring and `size` as they were, which the row loop of `search` then walks |
| Matrix.UncoverSteps | dlx.hpp:76-88 | each relink of `uncover`, taken last to first, undoes the matching unlink of `cover` |
| Dlx.Arena.constructor | dlx.hpp:129-137 | the arena holds only the root: self-looped, size 0, with an empty shape |
| Dlx.Arena.NewNode | dlx.hpp:8-11 | in place, the arena gains the node that Fabric.NewNode describes |
| Dlx.Arena.InsertLR | dlx.hpp:13 | in place, the links become Fabric.InsertLR of the old links |
| Dlx.Arena.InsertUD | dlx.hpp:14 | in place, the links become Fabric.InsertUD of the old links |
| Dlx.Arena.RemoveLR | dlx.hpp:16 | in place, the links become Fabric.RemoveLR of the old links |
| Dlx.Arena.RestoreLR | dlx.hpp:19 | in place, the links become Fabric.RestoreLR of the old links |
| Dlx.Arena.UnlinkCell | dlx.hpp:70-71 | in place, the links become Matrix.Unlink of the old links |
| Dlx.Arena.RelinkCell | dlx.hpp:83-84 | in place, the links become Matrix.Relink of the old links |
| Dlx.Arena.UnlinkRow | dlx.hpp:68-72 | the inner loop of `cover` unlinks the other cells of the row, left to right |
| Dlx.Arena.UnlinkRows | dlx.hpp:66-73 | the outer loop of `cover` unlinks the rows met down column c, top to bottom |
| Dlx.Arena.Cover | dlx.hpp:62-74 | the links after `cover(c)` are CoverLinks, and the shape is CoverShape |
| Dlx.Arena.RelinkRow | dlx.hpp:81-85 | the inner loop of `uncover` relinks the other cells of the row, right to left, back to the state before UnlinkRow |
| Dlx.Arena.RelinkRows | dlx.hpp:79-86 | the outer loop of `uncover` relinks the rows bottom to top, back to the state before UnlinkRows |
| Dlx.Arena.Uncover | dlx.hpp:76-88 | given the state before the matching `cover(c)`, `uncover(c)` restores every link, every size and the shape exactly |
| Dlx.Arena.AddRowCell | dlx.hpp:163-169 | a new cell named `row` goes at the end of the row ring of the row's first cell, or starts a ring of its own |
| Dlx.Arena.AddHeaderNode | dlx.hpp:173-174 | a new header goes at the end of the header ring |
| Dlx.Arena.PlaceCell | dlx.hpp:176-178 | the cell goes at the foot of the column ring, points to the header, and the header's `size` grows by one |
| Dlx.Arena.Attach | dlx.hpp:177-178 | in place, the cell's column pointer becomes the header and the header's `size` grows by one; nothing else changes |
| Dlx.Arena.Splice | dlx.hpp:162-178 | the links are those of Build.Added, the shape is AddShape, and the names gain the cell's name and, for a new column, the header's name |
| Dlx.Arena.Detach | dlx.hpp:189-190 | the links become Build.OptionalLinks: c is out of its ring and self-looped |
| Dlx.Arena.SelfLoop | dlx.hpp:190 | in place, c's left and right links point to c; nothing else changes |
| Dlx.Arena.Down | dlx.hpp:109-112 | k steps down from header c reach the k-th cell of c's column, counting from the top |
| Build.AddRowRings | dlx.hpp:163-169 | after the row splice, every row is a ring: the new cell is last in its row or alone; nodes that are not cells keep their horizontal links |
| Build.AddRow | dlx.hpp:163-169 | creating the cell and splicing it into its row keeps the links well-formed and grows the arena by one node |
| Build.AddHeader | dlx.hpp:173-174 | creating a header and splicing it into the header ring keeps the links well-formed and grows the arena by one node |
| Build.AddCell | dlx.hpp:176-178 | putting the cell under its header keeps the links well-formed and the arena size |
| Build.AppendRowRing | dlx.hpp:169 | splicing a cell into a known row appends it to that row's ring and leaves every other row ring intact |
| Build.AddHeaderRing | dlx.hpp:173-174 | a new header is appended at the end of the header ring, so headers stay in first-insertion order; nodes outside the ring keep their links |
| Build.AddCellCols | dlx.hpp:176-178 | the column ring of h grows by the new cell at the bottom and its `size` by one; every other column is unchanged |
| Build.AddDancing | dlx.hpp:160-179 | `add` of a pair not already present keeps the invariant and leaves every cell linked |
| Build.OptionalLinks | dlx.hpp:189-190 | `optional` leaves c self-looped, and its column ring, its column pointer and every size untouched |
| Build.OptionalHeaders | dlx.hpp:189-190 | after `optional`, c is out of the header ring, which keeps the other headers in order |
| Build.OptionalDancing | dlx.hpp:181-191 | `optional` on an existing column keeps the invariant and leaves every cell linked |
| Build.OptionalNewDancing | dlx.hpp:184-190 | `optional` on a column never added creates a header that is self-looped and optional from the start; detaching it changes nothing |
| Build.OptionalIdempotent | dlx.hpp:189-190 | a second `optional` on the same column changes neither the links nor the shape |
| Select.Covered | dlx.hpp:62-74 | covering keeps the invariant and adds exactly c to the covered columns |
| Select.CoveredColumnWalk | dlx.hpp:44 | after `cover(c)`, following D from c visits c's cells top to bottom and then comes back to c |
| Select.HitsOnce | dlx.h:26 | in a selection of pairwise disjoint rows, a column is met once if it is in their union, and not at all otherwise |
| Select.FoundExact | dlx.hpp:28-31 | when the header ring is empty, the selected rows meet every non-optional column exactly once and every optional column at most once |
| Trace.AlwaysTrue | dlx.h:37-38 | if every hook answers true, a run of hook calls ends with true |
| Stack.TrailPush | dlx.hpp:193-206 | a push recorded from the current state extends the record of pushes |
| Stack.TrailPop | dlx.hpp:208-224 | without its last push, the record ends in the state before that push, with the earlier rows' columns covered |
| Stack.TrailEmpty | dlx.hpp:142-145 | with nothing pushed, the state is the base that construction left |
| Names.NamesKept | dlx.h:52-53 | covering, uncovering and `optional` keep the `rows` and `columns` maps valid |
| Names.NamesNewColumn | dlx.hpp:184-188 | a new column name leads to the new header |
| Names.NamesAdd | dlx.hpp:163-175 | after `add`, the row name leads to the first cell of its row ring, and the column name leads to its header |
| Names.AddKeeps | dlx.hpp:160-179 | `add` keeps the matrix invariant and the name maps together |
| Tree.Leftmost | dlx.hpp:32-38 | the scan keeps the first of several least elements: the result is least, and every element before it is strictly larger |
| Tree.LeftmostUnique | dlx.hpp:32-38 | only one position is least and strictly smaller than everything before it, so the scan's choice is determined |
| Tree.Choice | dlx.hpp:27-38 | the column a node branches on is in the header ring and live, its `size` counts its rows, that count is the least size of a header, and it is 0 exactly at a dead end |
| Tree.ChoiceAt | dlx.hpp:32-38 | a header whose size is least and smaller than that of every header before it is the one Choice names |
| Tree.CoverAll | dlx.hpp:47-50 | covering distinct live columns in turn keeps the invariant, keeps the rows, the columns and the column pointers, and covers exactly those columns more |
| Tree.ChainEnd | dlx.hpp:47-50 | a chain of covers, as the solver's loops meet them, ends in the state CoverAll names |
| Tree.Enter | dlx.hpp:47-50 | covering the columns of a row's other cells keeps the invariant and covers exactly those columns more |
| Tree.EnterChain | dlx.hpp:47-50 | the states the loop of those covers meets end in the state Enter names |
| Tree.Child | dlx.hpp:43-50 | the state below the row of a cell of the live column c keeps the invariant and leaves strictly fewer live columns |
| Tree.ChildIs | dlx.hpp:43-50 | that state is c covered, then the row's other columns covered |
| Tree.ChildCovered | dlx.hpp:43-50 | below the row, the covered columns are those before plus exactly the row's columns, c among them |
| Tree.ChildSel | dlx.hpp:46-50 | when the covered columns are the union of a disjoint selection, below the row they are the union of the selection grown by the row, which stays disjoint |
| Tree.Pushed | dlx.hpp:195-204 | the state after `push` of a row with no covered column keeps the invariant and covers exactly the row's columns more |
| Tree.PushedIs | dlx.hpp:195-204 | that state is the row's first column covered, then its other columns left to right |
| Tree.ThenStops | dlx.hpp:44-57 | a stretch of calls that stops at its first false answer, followed while it goes on by another such stretch, is again such a stretch |
| Tree.StopsAnswers | dlx.h:34-35 | calls that stop at the first false answer, appended to a log, form a run whose last answer is the result |
| Tree.Run | dlx.hpp:23-60 | the calls of a search: at least one; all answered true but the last, whose answer is the result; and, when the covered columns are exactly those of the selected rows, pairwise disjoint, each call is shown a solution extending the one the search started from, and every `found()` call an exact cover, with optional columns met at most once |
| Tree.Rows | dlx.hpp:44-57 | the calls of the row loop from the i-th cell of c: the search below that row, then, while the hooks answer true, the rest of the loop; they stop at the first false answer and, from a state whose covered columns are those of the selected rows, every `found()` among them is shown an exact cover |
| Tree.RowSearch | dlx.hpp:45-56 | the calls of one turn: the search from Child's state, with the row's name and columns added to the solution; from a state whose covered columns are those of the selected rows, every `found()` among them is shown an exact cover |
| Tree.ThenSound | dlx.hpp:44-57 | calls that each show an exact cover to `found()` keep doing so when joined |
| Tree.SoundWiden | dlx.hpp:46-56 | what holds of calls made below one more row holds of them from the solution without it |
| Tree.RanFound | dlx.hpp:28-31 | a search on an empty header ring makes one call, to `found()`, and returns its answer |
| Tree.RanStuck | dlx.hpp:39-42 | a search whose chosen column has no rows makes one call, to `stuck()`, and returns its answer |
| Tree.RanRows | dlx.hpp:43-59 | otherwise the calls of the search are those of the loop over the rows of the chosen column |
| Tree.RanAnswers | dlx.h:34-35 | the calls of a search stop at the first false answer, which is the result |
| Tree.RowRanChild | dlx.hpp:45-56 | the turn for the i-th cell makes the calls of the search from Child's state |
| Tree.LoopedStart | dlx.hpp:44 | before the row loop, its calls are all still to come |
| Tree.LoopedStep | dlx.hpp:44-57 | after one more turn, the calls made so far and the rest of the loop still make up the calls of the whole loop |
| Tree.ThenLooped | dlx.hpp:44-57 | the bookkeeping of that step on the calls alone |
| Tree.LoopedEnd | dlx.hpp:44-57 | when a hook answered false or every cell was tried, the calls made are those of the whole loop |
| Tree.NamedRow | dlx.hpp:109-113 | the cell under a live column is named by a row whose first cell starts a row meeting that column and no covered column |
| Tree.Path | dlx.hpp:90-122 | the sizes a sample records: one per state before a push, each at least 1 and the least header size in that state, at most one per live column; the walk ends solved or at a dead end |
| Tree.PathStops | dlx.hpp:95 | from a solved state or a dead end a sample records nothing |
| Tree.PathStep | dlx.hpp:104-114 | a turn that pushes records the chosen size, then the path from the state after the push |
| Tree.PathPushed | dlx.hpp:104-114 | pushing the row the k-th draw picks under the chosen column is such a turn |
| Tree.TrodStart | dlx.hpp:94-95 | before the first turn, no size is recorded and the rest of the sample is the whole path |
| Tree.TrodStep | dlx.hpp:104-114 | after a turn that pushes, the sizes so far, then the path from the new state, are still the whole path |
| Tree.TrodEnd | dlx.hpp:95-116 | when the loop stops solved or at a dead end, the sizes recorded are the whole path |
| Solver.HoldsStart | dlx.h:29-30 | a state as construction leaves it, with nothing pushed, satisfies the solver invariant |
| Solver.HoldsPush | dlx.hpp:193-206 | a push of a row whose columns are all live keeps the invariant and grows the solution by that row |
| Solver.HoldsTop | dlx.hpp:211-214 | the top of the solution is recorded by the last push, which ends in the current state |
| Solver.HoldsPop | dlx.hpp:208-224 | returning to the state before the last push, without it, keeps the invariant |
| Solver.SampleRow | dlx.hpp:108-113 | the row of any cell under a live column meets that column and no covered column, so pushing it is safe |
| Solver.PushDrawn | dlx.hpp:104-114 | a push of a row meeting the least-size column c is a turn of `sample` that covers c |
| Solver.SampledStep | dlx.hpp:104-114 | a turn that pushed records a size of at least 1 and leaves strictly fewer live columns |
| Solver.SamplingStep | dlx.hpp:104-114 | a turn that pushed extends both the record of the sample and its path: the sizes so far, then the path from the new state, are the path from the first state |
| Solver.DrawnPath | dlx.hpp:104-113 | pushing the row of the cell the k-th draw picks under the chosen column is the first step of Tree.Path |
| Solver.SampledEnd | dlx.hpp:95 | when the loop stops, the state is solved or at a dead end, and the recorded sizes are none exactly when the first state was so |
| Solver.UnwoundStep | dlx.hpp:117-120 | each `pop` takes back one more push |
| Solver.SampleDone | dlx.hpp:117-121 | the pops of `sample` bring the solver back to its state before the sample |
| Solver.AddHolds | dlx.hpp:160-179 | `add` with an empty solution keeps the solver invariant |
| Solver.OptionalHolds | dlx.hpp:181-191 | `optional` with an empty solution keeps the invariant; the column's header is optional and out of the header ring |
| Solver.OptionalState | dlx.hpp:181-191 | the links, shape, names and maps after `optional`, for a known column and for a new one |
| Solver.SearchEmpty | dlx.h:19-20 | a solver just constructed calls `found()` exactly once, on the empty solution, and returns its answer |
| Solver.DLX.constructor | dlx.hpp:129-137 | no rows, no columns, an empty solution and an empty log; the root alone; the invariant holds |
| Solver.DLX.Notify | dlx.h:37-38 | a hook answers `answer(hook, solution, n)`, and the call is logged; `found()` is only ever reached with an exact cover |
| Solver.DLX.ChooseColumn | dlx.hpp:32-38 | selects the header of least `size` in the header ring; every header to its left is strictly larger, so the leftmost minimum wins |
| Solver.DLX.CoverOthers | dlx.hpp:47-50 | covers the columns of the row's other cells, left to right, through a chain of states; the covered set grows by exactly those columns |
| Solver.DLX.UncoverOthers | dlx.hpp:52-55 | given the chain from CoverOthers, uncovers right to left, back to the first state |
| Solver.DLX.Search | dlx.hpp:23-60 | the calls added to the log are exactly those of Tree.Run from the state before, shown the same solution: `found()` once on an empty header ring, `stuck()` once when the chosen column has no rows, else the searches below that column's rows, top to bottom, up to the first false answer, which is returned; links, sizes, shape and `solution` are restored; all-true hooks give true |
| Solver.DLX.Explore | dlx.hpp:43-58 | cover c, try its rows, uncover c: the state comes back, and the calls are those of Tree.Rows over all the cells of c from the top |
| Solver.DLX.TryRows | dlx.hpp:44-57 | the calls are those of Tree.Rows from the top cell of c: the cells of c are tried top to bottom, each while every earlier call answered true, and the loop stops after the first false answer, which it returns |
| Solver.DLX.Attempt | dlx.hpp:44-56 | the turn for the i-th cell of c from the top: its calls are those of Tree.RowSearch for that cell, the loop's calls so far are still those of Tree.Rows, the state comes back, and the next cell is the one below, or c after the last |
| Solver.DLX.Branch | dlx.hpp:46-56 | push the row, cover its other columns, search, uncover, pop: the state and the solution come back, and the calls are those of Tree.Run from Tree.Enter of the state, with the row's name and columns added to the solution |
| Solver.DLX.EnterRow | dlx.hpp:46-50 | the solution gains the row's name; the covered columns are exactly the union of the selected rows; no more columns are live than before |
| Solver.DLX.LeaveRow | dlx.hpp:52-56 | uncovers the row's other columns and drops the name, back to the state before EnterRow |
| Solver.DLX.Descend | dlx.hpp:51-56 | the search below the row, then the uncovers and the pop: the state comes back, the solution loses the row, and the calls are those of Tree.Run from Tree.Enter of the state |
| Solver.DLX.Below | dlx.hpp:51 | the search below the row from the state the covers left, which is Tree.Enter of the state before them; its calls are those of Tree.Run from there |
| Solver.DLX.Push | dlx.hpp:193-206 | appends the name; for an added row, covers exactly its columns; for an unknown name, leaves the matrix unchanged; keeps the invariant |
| Solver.DLX.PushLinks | dlx.hpp:195-204 | the covers of `push`: for an added row the state becomes Tree.Pushed of the old one, which covers exactly the row's columns; for an unknown name nothing changes; the record of the push is returned |
| Solver.DLX.CoverRow | dlx.hpp:197-203 | covers the column of the row's first cell, then those of its other cells; the covered set grows by the row's columns |
| Solver.DLX.Pop | dlx.hpp:208-224 | on an empty solution, changes nothing; otherwise returns to the exact state before the matching `push` and drops the name |
| Solver.DLX.PopTop | dlx.hpp:210-222 | `pop` on a non-empty solution returns to the exact state recorded before the matching `push`; the solution, the selected column sets and the record each lose their last entry; the invariant is kept |
| Solver.DLX.PopLinks | dlx.hpp:213-221 | the uncovers of `pop` give back the state before the push |
| Solver.DLX.PopAll | dlx.hpp:142-145 | pops until the solution is empty, which leaves the matrix as construction left it |
| Solver.DLX.Sample | dlx.hpp:90-122 | the degrees are those of Tree.Path from the state before: one per push, each the least header size in the state it was recorded in; none exactly when solved or stuck; the solver state is unchanged afterwards |
| Solver.DLX.Descent | dlx.hpp:95-116 | one push per recorded degree, each covering a live column; the degrees recorded, followed by Tree.Path of the final state, are Tree.Path of the first state; the loop ends solved or at a dead end |
| Solver.DLX.DrawRow | dlx.hpp:97-115 | chooses the column Tree.Choice names; if its size d is positive, pushes the row of the drawn cell, and the path of the draws from the state before is d followed by the path from the state after |
| Solver.DLX.Take | dlx.hpp:108-113 | pushes the row of the `child`-th cell from the top of the least-size column; the new state is Tree.Pushed of the old one for that row |
| Solver.DLX.Unwind | dlx.hpp:117-120 | n pops return the solver to its state before the last n pushes |
| Solver.DLX.Add | dlx.hpp:160-179 | the links are Build.Added; the shape is AddShape; the row name keeps its first cell or gets the new one; the column name keeps its header or gets a new one at the end of the header ring; the invariant is kept |
| Solver.DLX.Insert | dlx.hpp:162-178 | the splice of `add` and the updates of the `rows` and `columns` maps: the links are Build.Added, the row name keeps its first cell or gets the new one, and the column name keeps its header or gets the new one |
| Solver.DLX.Header | dlx.hpp:184-188 | finds the header of `col`; for a new name, creates a self-looped header with an empty column |
| Solver.DLX.Unring | dlx.hpp:189-190 | the links become Build.OptionalLinks and the shape Build.OptionalShape: c is out of its ring, self-looped and optional; that state becomes the base that `search` and `pop` return to |
| Solver.DLX.Optional | dlx.hpp:181-191 | the column's header ends up optional and out of the header ring; the links and shape are OptionalLinks and OptionalShape, for a known column and for a new one |

## Left out

- `~DLX()` freeing its nodes (dlx.hpp:146-157) is not modelled: there is no memory to free in an arena. Only its first loop, `PopAll`, is modelled.
- `new`, `delete` and pointer identity are not modelled: nodes are arena indices and the arena only grows.
- The copy constructor and assignment (dlx.h:60-61) are declared private and never defined, so there is nothing to model.
- Virtual dispatch of `found()`/`stuck()` is replaced by the injected `answer` function. A subclass hook that reads or changes solver state is not modelled.
- The generator `g` and `uniform_int_distribution` are replaced by `draw`. The model does not describe their distribution, only the range `1..n`.
- Solver.DLX.Add: requires the (row, col) pair to be new. The code accepts a repeated pair and puts two cells of one row under one column. Traced by hand on dlx.hpp, not executed: a branch through that row then covers the column twice, and after `search` the column's `size` is 3 for its 2 cells. The source's own counters go wrong there, so the model leaves that matrix out.
- Solver.DLX.Push: requires every column of the row to be live (not yet covered). Pushing a row that clashes with the partial solution makes the code cover a covered column, and that state is not modelled.
- Solver.DLX.Push: `rows[row]` on an unknown name inserts a null entry in the map. The model keeps the name absent instead. The behaviour is the same, because a null entry and an absent one are treated alike everywhere.
- Solver.DLX.Pop: the same applies to the `rows[...]` lookup in `pop`.
- Solver.DLX.Add: requires an empty solution. The same holds for Solver.DLX.Optional. This is the phase rule of dlx.h:29-30, under which the code leaves later results undefined.
- Matrix.ColumnSize: `size` is an unbounded integer. Overflow of the C++ `int` counter is not modelled, since it would need more than 2^31 cells in one column.
- Solver.DLX.Search: `answer` sees the hook, the solution and the call count, but not the rest of the solver state.
- Solver.DLX.Search: the calls are proved equal to those of Tree.Run, and every `found()` call is proved to show an exact cover. The converse is not proved: that with hooks that always answer true, every exact cover extending the partial solution reaches `found()`. Because Search is proved equal to Tree.Run, completeness is a property of the recursion Tree.Run alone, not of the loops, and its proof (an induction over the shape that follows each exact cover down the rows it contains) is not part of this model.
- The command-line driver `test_dlx.cpp` and the instance generators `boards.py` and `crossword.py` are not part of this model. They do file I/O and floating-point averaging.
