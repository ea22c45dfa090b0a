# Discrete optimisation solvers: knapsack and graph colouring

This project models the core of two small solvers that read a text
instance, solve it and write a text answer:

- **Knapsack** (`a2/`). The driver reads a header "item_count capacity" and
  one "value weight" line per item, with blank lines skipped. It fills the
  classic dynamic-programming table `a[k][i]` (the best value using the first
  `i` items within capacity `k`) in rows of unsigned 32-bit `array('I')`
  slots. It then traces the decisions back from the corner cell and writes
  "objective 1" followed by the 0/1 decisions.
- **Graph colouring** (`a3/`). The driver reads "node_count edge_count" and
  `edge_count` edge lines. The `Graph` class stores adjacency sets and
  colours the nodes by depth-first branch and bound over an explicit stack
  of frames. Each frame holds the colours still to try for its node and a
  domain table, which maps every node to the colours it may still take.
  Fixing a node's colour propagates forward through a worklist, in place on
  the table. A leaf replaces the best solution when it uses fewer colours,
  or as many colours with a smaller sum. `format_output` writes
  "colour_count flag" followed by the colours.

Modules:

- `Builtins` (`builtins.dfy`): the Python built-ins the core leans on.
  - `str.split` on one separator and with no argument, `str.join`.
  - `int` on decimal strings, `str` on naturals.
  - `sum`, `max`, `len(set(...))`, and the error kinds raised.
- `Knapsack` (`knapsack.dfy`): the table as a function `Cell`; the table
  fill and the traceback as methods over an `array2<UInt32>`.
- `KnapsackSolver` (`knapsack_solver.dfy`): `get_inputs`, `get_outputs`,
  `solve_it`.
- `Coloring` (`coloring.dfy`): the `Graph` class and the `Step` frame.
- `ColoringSolver` (`coloring_solver.dfy`): the parsing loop of `solve_it`
  and `format_output`.

Python exceptions become `Err` values of a `Result`. They are `ValueError`,
`IndexError`, `UnboundLocalError` (reading `k`/`i` after a loop that never
ran) and `OverflowError` (storing a value of 2^32 or more in an
`array('I')` slot). An arbitrary pick such as `set.pop()` or
`next(iter(s))` becomes Dafny's `:|`, so every proved property holds
whichever element Python picks.

## Model

| member | source | states |
|---|---|---|
| `Coloring.Graph.constructor` | a3/graph.py:8-13 | The nodes are `0 .. n-1`. `y` is a neighbour of `x` exactly when some input edge joins them in either direction, so adjacency is symmetric and every neighbour is a node. |
| `Coloring.Graph.UpdateDomain` | a3/graph.py:15-30 | Fixing `node` to `choice` and propagating through the worklist only removes colours. Every node fixed or narrowed to one colour loses that colour from all its neighbours. A forward-checked table stays forward-checked. The change is a `Cascade`, which has four parts. First, the pushed pairs can be listed in push order, starting with `(node, choice)`, with no node pushed twice. Second, each later pair is `Fired` by the pairs before it: its node held at least two colours, and each of its other colours is the colour of an earlier-pushed neighbour. Third, every removed colour is the colour of a pushed neighbour. Fourth, every node that drops from two or more colours to at most one is pushed (`Complete`). Pairs therefore cannot justify each other in a circle. |
| `Coloring.Graph.WorklistStart` | a3/graph.py:17-21 | The table with `node` fixed, and the stack `[(node, choice)]`, satisfy the worklist invariant. |
| `Coloring.Graph.WorklistStep` | a3/graph.py:22-30 | Popping a pair and clearing its colour from the neighbours keeps the worklist invariant. The total number of colours plus the stack length strictly drops, so propagation terminates. |
| `Coloring.Graph.RemoveFromNeighbours` | a3/graph.py:24-30 | Afterwards every neighbour of `n` has lost `c` and no other node changed. Exactly the neighbours that lost `c` and were left with one colour are pushed, each with that colour. |
| `Coloring.Graph.RoundStep` | a3/graph.py:25-30 | Visiting one more neighbour keeps the state of the round. A round pushes each neighbour at most once. |
| `Coloring.Graph.StepCausal` | a3/graph.py:22-30 | Appending the pairs a round pushes keeps the push order causal. |
| `Coloring.Graph.FixedFired` | a3/graph.py:25-30 | A neighbour that a round leaves with one colour `x` had at least two colours before the round. Every colour it started with other than `x` is the popped colour of the popped node, or the colour of a neighbour pushed earlier. |
| `Coloring.Graph.FixedFresh` | a3/graph.py:25-30 | A node that a round pushes was never pushed before, because before the round it held the popped colour and its new one. |
| `Coloring.Graph.StepComplete` | a3/graph.py:25-30 | Every node that a round leaves with at most one colour is pushed, now or earlier. |
| `Coloring.Graph.PropagationSettled` | a3/graph.py:22 | Once the worklist is empty, its invariant gives the propagation contract. The pushed pairs, in push order, witness the `Cascade`. |
| `Coloring.Graph.PropagatedUnique` | a3/graph.py:15-30 | If a table satisfying `Propagated` has no empty domain, it is the only such table. The worklist's result is then fixed whatever order the pairs are processed in. |
| `Coloring.Graph.PropagatedEmptiesAgree` | a3/graph.py:15-30 | All tables satisfying `Propagated` agree on whether some domain ran empty, and that is what `_domain_is_feasible` tests first. |
| `Coloring.Graph.SeenIncluded` | a3/graph.py:22-30 | Every pair fixed by one cascade is fixed by another, when the other's table has no empty domain or it fixes nothing the first does not. |
| `Coloring.Graph.FiredNarrows` | a3/graph.py:24-30 | A pair fired by pairs that are all fixed in a cascade leaves its node with at most its colour in that cascade's table. |
| `Coloring.Graph.NarrowedSeen` | a3/graph.py:27-30 | A node that had two colours or more and is left with at most one is fixed, and fixed to that colour. |
| `Coloring.Graph.SameRemovals` | a3/graph.py:24-26 | When one cascade's fixed pairs are all fixed in another, the other's table holds no colour the first lost. |
| `Coloring.TotalSizeRemove` | a3/graph.py:26 | Removing one colour from one node's domain lowers the table's total by exactly one. |
| `Coloring.Graph.FixedKept` | a3/graph.py:17-18 | After propagation the fixed node holds exactly its chosen colour, unless its domain ran empty. |
| `Coloring.Graph.Required` | a3/graph.py:32-37 | A colour is required exactly when some node's domain is that single colour. |
| `Coloring.Graph.RequiredCard` | a3/graph.py:32-37 | There are never more required colours than nodes. |
| `Coloring.Graph.GetRequiredSet` | a3/graph.py:32-37 | The loop collects exactly the required colours. |
| `Coloring.Graph.DomainIsFeasible` | a3/graph.py:39-53 | True exactly when no domain is empty and there are at most `lower_bound` required colours. |
| `Coloring.Graph.GetSolution` | a3/graph.py:55-58 | With one colour per node, returns one colour per node in node order, each being that node's sole colour. |
| `Coloring.Graph.SolutionIsColouring` | a3/graph.py:55-58 | A forward-checked table with one colour per node reads off as a proper colouring: neighbours differ and colours are below `n`. |
| `Coloring.Graph.Insert` | a3/graph.py:61 | Inserting into an ordered node sequence keeps it ordered and adds exactly the node to its multiset. |
| `Coloring.Graph.Sort` | a3/graph.py:61 | The search order is a permutation of the nodes, ordered by descending degree. Ties keep ascending node order, as Python's stable `sorted` leaves them. |
| `Coloring.Graph.OrderedPairs` | a3/graph.py:61 | Along the search order every node precedes every later one, so degrees never increase. |
| `Coloring.Graph.SortCovers` | a3/graph.py:61 | The search order has `n` entries, all nodes, and contains every node. |
| `Coloring.Graph.Start` | a3/graph.py:62-68 | The start state is one frame with choices `{0}` and every domain `0 .. n-1`, no best, and the bound pair `(n, sum(nodes))`; its stack is well formed. |
| `Coloring.Graph.InitialFrame` | a3/graph.py:66-68 | The first frame (choices `[0]`, every domain `0 .. n-1`) is a well-formed search stack. |
| `Coloring.ChoiceWork` | a3/graph.py:70-71 | Popping a choice from the top frame lowers the work left by one unit of that frame's weight. |
| `Coloring.Graph.ChoiceTaken` | a3/graph.py:70-71 | Popping a choice from the top frame keeps every frame well formed. |
| `Coloring.Graph.PropagateCopy` | a3/graph.py:75-80 | Propagating on a copy of the frame's table gives the propagation contract and leaves the frame's own table untouched. |
| `Coloring.Graph.LeafSolved` | a3/graph.py:82-85 | At the last depth every node ends with exactly one colour, the table stays forward-checked, and all colours are below `n`. |
| `Coloring.Graph.ConsiderLeaf` | a3/graph.py:82-92 | At the last depth the propagated table holds exactly one colour per node, and the colouring read off it is proper. The turn is `Decided` on that colouring: it becomes the best, with its (colour count, sum) pair, exactly when `Accepts` holds. Otherwise nothing changes. |
| `Coloring.Graph.Judge` | a3/graph.py:86-92 | A leaf's colouring replaces the best, with its pair, exactly when `Accepts` holds; otherwise best and bounds are kept. The best-so-far record gains exactly that pair, a best exists afterwards, and the bound never rises. |
| `Coloring.AcceptsAsWritten` | a3/graph.py:88 | The strict test as written: a leaf with fewer colours is always taken, and a taken leaf never has more colours than the bound and never ties the bound pair. |
| `Coloring.Accepts` | a3/graph.py:88 | The corrected test: the first leaf, with no best yet, is always taken; once a best exists it is the test as written. |
| `Coloring.Graph.Recorded` | a3/graph.py:88-92 | Accepting a leaf keeps the best-so-far record: a proper colouring, its pair as the bound, and a strictly improving history. |
| `Coloring.NextChoices` | a3/graph.py:96-100 | The next node's choices lie in its domain and below the bound. They are the required colours plus at most one new colour, which is one above the largest required colour. Conversely, every required colour and the colour one above the largest, when it is in the domain and below the bound, is a choice. |
| `Coloring.Graph.ChildFrame` | a3/graph.py:95-101 | A child frame is built exactly when the propagated table is feasible. Its choices are `NextChoices` of the required colours, and it is well formed one level deeper. |
| `Coloring.Graph.PushOk` | a3/graph.py:95-101 | A frame pushed after a feasible propagation is well formed at the next depth. |
| `Coloring.Graph.FramePushed` | a3/graph.py:101 | Pushing the child frame keeps the frames well formed and the work left below what it was before the choice was popped. |
| `Coloring.Graph.Pick` | a3/graph.py:70-80 | The choice is one of the top frame's choices and is removed from it. The new table is the frame's table after fixing the frame's node to it and propagating (`Chosen`). The popped stack stays well formed, and the work left drops by one unit of the top frame's weight. |
| `Coloring.Graph.PopChoice` | a3/graph.py:70-71 | The choice taken is one of the top frame's choices, and the stack is the one with that choice removed from the top frame. The frames stay well formed, and the work left drops by one unit of the top frame's weight. |
| `Coloring.Graph.Descend` | a3/graph.py:95-101 | Below the last depth the stack becomes exactly `Grown`. The frame `Step(NextChoices(Required(d1), lower_bound, d1[next]), d1)` is pushed exactly when no domain is empty and at most `lower_bound` colours are required; otherwise nothing is pushed. Frames stay well formed and the work left drops. |
| `Coloring.Graph.LeafTurn` | a3/graph.py:82-95 | At the last depth `Grown` pushes nothing. |
| `Coloring.Graph.Advance` | a3/graph.py:69-101 | Before backtracking, a turn's choice is `Chosen` and its best is `Decided`. The stack is exactly `Grown` of the popped stack. The record gains the turn's pair. A best exists afterwards exactly when one existed before or the turn was at a leaf, and the bound never rises. |
| `Coloring.Graph.FramePopped` | a3/graph.py:104-105 | Popping an exhausted frame keeps the rest well formed and leaves the work left unchanged. |
| `Coloring.Graph.Backtrack` | a3/graph.py:104-105 | Pops exactly the exhausted frames on top (`Backtracked`). The result is a prefix of the stack whose dropped frames had no choice left and whose top has a choice left. The work left is unchanged. |
| `Coloring.Graph.SearchStep` | a3/graph.py:69-106 | One turn of the loop is a `Turn` from the old state: the choice taken and its propagated table, the leaf judged or the child pushed, then the exhausted frames popped. The record gains exactly the turn's pair when the best changes. A best exists afterwards exactly when one did before or the turn was at a leaf. The bound never rises, the stack stays well formed, and the work left strictly drops, so the search terminates. |
| `Coloring.Extended` | a3/graph.py:69 | One more turn appends that turn's pair to the record, and adds one leaf exactly when the turn started at a leaf. |
| `Coloring.Graph.RunExtended` | a3/graph.py:69 | A run followed by one more turn that does not raise the bound is a run. |
| `Coloring.Graph.TurnRecorded` | a3/graph.py:69-106 | One more turn keeps what the loop maintains: a run from the same start, the best-so-far record over the run's pairs, and a best exactly when some turn reached a leaf. |
| `Coloring.Graph.Explore` | a3/graph.py:69-106 | The loop runs turns until the stack is empty. Its states form a `Run` from the start state. The record of pairs describes the final best, and a best exists exactly when some turn reached a leaf. |
| `Coloring.Graph.Solve` | a3/graph.py:60-108 | Returns the best of a `Run` of turns to an empty stack. The run starts from one frame with choices `{0}`, every domain `0 .. n-1`, no best and the bound pair `(n, sum(nodes))`, and the bound never rises along it. Any returned solution is a proper colouring with colours below `n`. The (colour count, sum) pairs recorded strictly improve, and the last one is the returned solution's. A solution is returned exactly when some turn reached a leaf. |
| `Coloring.Graph.AsWrittenRejectsAllColours` | a3/graph.py:63-64 | Under the strict test as written, a leaf whose colours are exactly `0 .. n-1` ties the starting pair `(n, sum(nodes))` and is never accepted. |
| `Knapsack.Cell` | a2/knapsack.py:16-24 | Row 0 and column 0 are never written and hold 0. A cell whose own item fits is worth at least that item. |
| `Knapsack.CellWorth` | a2/knapsack.py:19-24 | No cell exceeds the total value of the items it may use. |
| `Knapsack.CellTaken` | a2/knapsack.py:21-24 | Adding an item never lowers the table value. When the value changes, the item fits and its value plus the best of the rest makes up the new value. |
| `Knapsack.CellGrows` | a2/knapsack.py:19-24 | More capacity never lowers the table value. |
| `Knapsack.CellBounded` | a2/knapsack.py:19-24 | Every cell is at most the corner cell, so the fill overflows only if the corner does. |
| `Knapsack.CellFits` | a2/knapsack.py:23-24 | When item `i` fits in a positive capacity, the cell is at least the item's value plus the best of the previous items within the remaining capacity. |
| `Knapsack.CellOptimal` | a2/knapsack.py:19-24 | With positive weights, no selection of the first items within capacity `k` is worth more than the table cell. |
| `Knapsack.TableOptimal` | a2/knapsack.py:8-24 | With positive weights, the corner cell is at least the value of every selection that fits the capacity. |
| `Knapsack.ZeroWeightShortfall` | a2/knapsack.py:19-24 | Capacity 1 and items (value 5, weight 0) and (value 3, weight 1): the corner cell is 5, yet taking both weighs 1 and is worth 8. |
| `Knapsack.FillTable` | a2/knapsack.py:16-24 | The table has `capacity+1` rows of `n+1` slots. It overflows exactly when the best value reaches 2^32. Otherwise every slot holds the table value. |
| `Knapsack.NothingSelected` | a2/knapsack.py:30 | Taking no item is worth nothing and weighs nothing. |
| `Knapsack.SelectOne` | a2/knapsack.py:33-35 | Taking one more item adds exactly its value and its weight. |
| `Knapsack.WeightlessWorthless` | a2/knapsack.py:21-24 | With positive weights, a selection of weight zero is worth nothing. |
| `Knapsack.TraceSkip` | a2/knapsack.py:32-36 | When a cell equals the one to its left, recording "not taken" keeps the traceback invariant. |
| `Knapsack.TraceTake` | a2/knapsack.py:32-36 | When a cell differs from the one to its left, the item fits. Recording "taken" and lowering `k` by its weight keeps the traceback invariant. |
| `Knapsack.Traceback` | a2/knapsack.py:29-36 | Produces one decision per item. The decisions are worth exactly the corner cell and fit within the capacity. |
| `Knapsack.SolveKnapsack` | a2/knapsack.py:8-39 | `UnboundLocalError` when the capacity or the item list is empty. `OverflowError` exactly when the best value reaches 2^32. Otherwise a result is always returned: the objective is the corner cell, the decisions reach it within the capacity, and with positive weights no fitting selection is worth more. |
| `KnapsackSolver.GetInputs` | a2/solver.py:7-17 | The loop returns what `Inputs` specifies: the header split, the non-blank item lines, then the header conversions. |
| `KnapsackSolver.ParseErrorStays` | a2/solver.py:14-15 | Once an item line fails, the whole read fails with `ValueError`. |
| `KnapsackSolver.ParseLinesValueError` | a2/solver.py:9-17 | Reading the item lines can fail only with `ValueError`. |
| `KnapsackSolver.ParseLinesIndices` | a2/solver.py:11-15 | The items read are exactly the non-blank lines, in order. Each item's index is the position of its own line and indices strictly increase. Every non-blank line gives an item. |
| `KnapsackSolver.NonBlankLinesRead` | a2/solver.py:11-15 | Every non-blank line after the header gives an item carrying its line's position. |
| `KnapsackSolver.ParseItemLines` | a2/solver.py:11-15 | Item lines written as "value weight" read back as the items. |
| `KnapsackSolver.InputsRender` | a2/solver.py:7-17 | Reading an instance written in the input format gives the instance back. |
| `KnapsackSolver.TrailingNewline` | a2/solver.py:12-13 | A trailing newline changes nothing. |
| `KnapsackSolver.ReadBitsBack` | a2/solver.py:24 | The decision line reads back as the decisions. |
| `KnapsackSolver.Outputs` | a2/solver.py:20-24 | The answer is two lines: the objective and the flag separated by one space, then the decisions. |
| `KnapsackSolver.OutputsReadBack` | a2/solver.py:20-24 | The answer reads back as the objective, the flag and the decisions. |
| `KnapsackSolver.SolveIt` | a2/solver.py:27-33 | Input errors surface as `ValueError`, and solver errors pass through. Well-formed input with a positive capacity, at least one item and a best value below 2^32 always gets an answer. A successful answer reads back with the flag 1, the corner cell as objective, and decisions that reach it within the capacity. |
| `ColoringSolver.ParseGraph` | a3/solver.py:19-29 | The parsing loop returns what `ParseInput` specifies: the header's first two tokens, then `edge_count` edge lines. |
| `ColoringSolver.EdgeErrorStays` | a3/solver.py:26-29 | Once an edge line fails, reading more lines keeps that error. |
| `ColoringSolver.EdgesOfLines` | a3/solver.py:26-29 | A successful read takes exactly `edge_count` edges, edge `j` from line `j+1`, and the input has that many lines. |
| `ColoringSolver.LaterLinesIgnored` | a3/solver.py:26 | Lines after the `edge_count` edge lines make no difference. |
| `ColoringSolver.TrailingTextIgnored` | a3/solver.py:26 | Anything appended after a successfully read input is ignored. |
| `ColoringSolver.ExtraTokensIgnored` | a3/solver.py:27-29 | Tokens after the first two on an edge line are ignored. |
| `ColoringSolver.PairTokens` | a3/solver.py:28 | Two decimals joined by a space split into exactly those two tokens. |
| `ColoringSolver.ParsePairLine` | a3/solver.py:27-29 | A line "x y" reads back as the pair. |
| `ColoringSolver.EdgesOfRender` | a3/solver.py:26-29 | Rendered edge lines read back as the edges. |
| `ColoringSolver.ParseRender` | a3/solver.py:19-29 | Reading a graph written in the input format gives it back. |
| `ColoringSolver.ReadColours` | a3/solver.py:10 | The colour line reads back as the colours. |
| `ColoringSolver.FormatOutput` | a3/solver.py:7-12 | An empty solution raises `ValueError` (from `max`), and only an empty one does. Otherwise the answer is two lines: one more than the largest colour with the flag, then the colours. |
| `ColoringSolver.FormatReadBack` | a3/solver.py:7-12 | For a non-empty solution the answer reads back as one more than the largest colour, the flag, and the colours in node order. |

## Left out

- Debug output is not modelled: the `print` calls at a2/knapsack.py:14 and a3/graph.py:73-74 and 89, and `print_array`. Process entry points, file reading and `sys.argv` are not modelled either.
- The rest of the colouring `solve_it` is not modelled: building the `Graph`, the call `graph.solve(timeout=5*60)` and formatting its result. As written, `solve` takes no `timeout` argument and returns a list or `None`, not a pair, so that call cannot succeed. Only the parsing loop and `format_output` are modelled.
- `solve` has no timeout and reports no optimality flag, although the call at a3/solver.py:32 expects both. It fixes the nodes in one static order by descending degree (a3/graph.py:61). The model follows `solve` as written.
- `Coloring.Graph.Solve`: optimality of the returned colouring is not proved. The contract states soundness (a proper colouring) and the improving history, not that no colouring uses fewer colours.
- `Coloring.Graph.Solve` requires a loop-free graph with at least one node, and `Coloring.Graph.constructor` requires edge endpoints below `n`. Outside these the source fails: an unknown endpoint raises `KeyError`, no nodes gives an `IndexError` on the search order, and a self-loop makes the looped node lose its own colour once it is fixed or narrowed to one colour (a3/graph.py:24-26). Below the last depth `_domain_is_feasible` then rejects the branch (lines 46-48), so every branch through that node dies and `solve` returns `None`. Only a leaf reached by fixing the looped node last fails `_get_solution`'s assertion (line 57).
- Propagation at a3/graph.py:30 indexes a set (`domain[neighbour][0]`), which raises `TypeError` in Python. It is modelled as intended: the neighbour's single colour is pushed.
- The arbitrary element taken by `set.pop()` and `next(iter(...))` is modelled by nondeterministic choice. All properties hold for any pick, but the model does not fix CPython's iteration order.
- `Coloring.Graph.UpdateDomain`: the contract pins the resulting table only when no domain runs empty (`Coloring.Graph.PropagatedUnique`). Once a domain empties, the exact table depends on the last-in first-out order of the worklist. A node narrowed to one colour and then emptied is pushed only once, with that colour, and `Cascade` does not track this timing. So `Propagated` also admits tables with empty domains that this order cannot produce. The search is unaffected, because every table `Propagated` admits agrees on whether a domain ran empty (`Coloring.Graph.PropagatedEmptiesAgree`), and such a branch is dropped.
- `Knapsack.SolveKnapsack`: optimality is proved only when every item weighs at least 1. Row `k = 0` of the table is never filled, so zero-weight items can be missed. `Knapsack.ZeroWeightShortfall` exhibits such an input.
- `Knapsack.SolveKnapsack` models `inc=1` only, the one value the driver passes.
- The knapsack traceback's `deque.appendleft` is modelled by prepending to a sequence.
- `Builtins.Int`: Python's `int` also accepts a sign, surrounding whitespace (so a `\r` before the newline) and `_` separators. The model accepts only ASCII decimal digits, so all values are naturals.

## Findings

| source | as written | input that shows it | evidently intended | confidence | as-written member | corrected member |
|---|---|---|---|---|---|---|
| a3/graph.py:63-64, 88 | The best pair starts as `(n, sum(nodes))` and a leaf is taken only when strictly better. A leaf using exactly the colours `0 .. n-1` ties with the start and is dropped. | One node and no edges (`1 0`): the only leaf is `[0]`, pair `(1, 0)`, equal to the start, so `solve` returns `None`. A complete graph behaves the same way. | The first leaf reached is always recorded; later leaves replace it only when strictly better. | not executed | `Coloring.AcceptsAsWritten`, `Coloring.Graph.AsWrittenRejectsAllColours` | `Coloring.Accepts`, `Coloring.Graph.Solve` |
