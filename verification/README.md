# Verified models of the compatibility library and the flame-graph tool

This project models the algorithmic parts of two programs in the repository and proves properties of them:
the musl-derived glibc compatibility library under `glibc-compatibility/`, and the terminal flame-graph viewer
`tfg`. Code that computes is modelled by functions, code that changes memory by methods and classes that are
proved against those functions; what the source promises is then proved about the functions, for all inputs,
all runs or all interleavings.

`dafny verify dfyconfig.toml` checks everything.

## The modules

- `Bits`: words as natural numbers, bitwise operators bit by bit, masks as arithmetic.
- `Atomics`, `AtomicLaws`: any number of threads running the load-linked/store-conditional or compare-and-swap loops of
  `atomic.h`, one memory access per step, sequentially consistent, with reservations that may be lost at any
  time.
- `Getauxval`, `GetauxvalRuns`: racing `getauxval` calls as a transition system over the dispatch pointer, the procfs table and
  the environ vector. A comment in the source (lines 236-238) says that init_procfs leads to the environ getter;
  the code leads to the procfs getter, and the model follows the code.
- `Text`: splitting and joining strings, their order.
- `CallTree`, `CallTreeHeap`: the call-frame trie as a value and as linked nodes.
- `Collapsed`, `ParseLaws`: the collapsed-stack text, printed by `_dump` and read by `PySpyCollapser`.
- `VisualTree`, `VisualExact`, `VisualLabels`, `VisualFits`, `VisualConserves`, `VisualRows`, `VisualHeap`,
  `VisualLinks`: the layout as a value, what its rows hold and its frames say, which trees it places well and shows
  completely, its rows and traversals, the same tree built in place, and its left/right links. Counts may be negative, as the parser lets them be. The docstring of `pairwise` promises
  disjoint pairs; the code yields every pair of neighbours, and the model follows the code.
- `Strchrnul`, `ExecPath`, `SpawnActions`, `Memcpy`: word-at-a-time search, PATH search, the spawn file-action
  list, block copy.
- `FloatBits`, `PowFront`, `ExpScale`, `ExpTable`, `ExpRoots`, `Powil`: IEEE 754 words (section 3.4 of IEEE 754-2008) as
  integers with an exact dyadic value; parity test, argument reduction, sign and exponent assembly of `pow` and
  `powf`, the front ends of both, the integer power of `powl`.
- `Glob`, `GlobStops`, `GlobHeap`, `GlobLaws`: the directory walk as a function of an arbitrary file system, where it
  stops, `glob` in place, and what one call delivers, stated without the walk.

## What the code does not do

These properties one would expect are false of the code. For each the exact condition under which it holds is proved:

- `getauxval(AT_SECURE)` answers 0 whenever /proc/self/auxv is readable (`Getauxval.SecureRightIff`).
- `glob` with `GLOB_ERR`, or with an error function that gives up, can be aborted although every directory can be
  read, by an errno left over from before the call, from opening something that is no directory, or from an unchecked
  `stat`, in a directory where no recursive call overwrites the errno kept (`Glob.AbortedIff`,
  `Glob.AbortedByStaleErrno`; inputs `Glob.FileAbortsWalk`, `Glob.LinkAbortsWalk`).
- `glob` with `GLOB_APPEND|GLOB_DOOFFS` after calls that found nothing leaves the first slots unset
  (`GlobHeap.UsableIff`; input `GlobHeap.SlotNeverSet`).
- Layouts of call trees with negative counts can overlap or leave their parent, and can lose samples
  (`VisualFits.WellPlacedIff`, `VisualConserves.ConservesIff`; input `VisualFits.NegativeCountsOverflow`).
- A dump does not bring back samples of empty stacks, which are counted by the head only, nor frames whose samples are
  none or cancel out (`Collapsed.DumpRebuildsIff`; input `Collapsed.ZeroCountIsLost`).

## Model

| member | source | states |
|---|---|---|
| `Atomics.Atomicity` | glibc-compatibility/musl/atomic.h:18-81 | every run of any number of threads, for every program of swap, store, fetch-add, fetch-and, fetch-or and compare-and-swap calls, every interleaving and any spurious store-conditional failures, has a legal one-operation-at-a-time history that explains memory, all returned values and each thread's program order; the same for the loops built on compare-and-swap alone (what each operation leaves behind is AtomicLaws.EffectsFollow) |
| `Atomics.StepKeepsInv` | glibc-compatibility/musl/aarch64/atomic_arch.h:1-35 | every step keeps the invariants, whether the store-conditional succeeds, fails spuriously or the reservation was lost; a failing a_cas takes effect at its load |
| `Atomics.HistoryOnlyGrows` | glibc-compatibility/musl/atomic.h:25-26 | the history of a run up to any point is a first part of the history of the whole run |
| `Atomics.CallHasPlace` | glibc-compatibility/musl/atomic.h:18-81 | every call that has returned has its place in the history, with its operation and the value it returned |
| `Atomics.RealTimeOrder` | glibc-compatibility/musl/atomic.h:18-81 | a call that has returned at some point of the run has its place before every call that has not been entered by then |
| `Atomics.CommittedOperands` | glibc-compatibility/musl/atomic.h:46-81 | while calls of one kind run on a cell, it holds the initial value combined with the operands committed so far (for fetch-add: plus their sum mod 2^32), and every returned old value is the matching prefix combination |
| `Atomics.FinalValue` | glibc-compatibility/musl/atomic.h:117-147 | when all calls have returned no operand is lost: the cell is the initial value combined with the operand of every call of every thread |
| `Atomics.WideFinalValue` | glibc-compatibility/musl/atomic.h:208-226 | a_or_64 and a_and_64 as two 32-bit steps, either of which may be skipped: in every interleaving the 64-bit word ends as its initial value OR-ed (AND-ed) with every argument |
| `AtomicLaws.EffectsFollow` | glibc-compatibility/musl/atomic.h:18-147 | in every run the first call to take effect on a cell returns its initial contents, every later one what the one before it left behind, and the cell holds what the last one left: the operand of a swap or store, the new value of a compare-and-swap that found what it expected and else the old one, the sum mod 2^32 of a fetch-add, the bits of both or of either for fetch-and and fetch-or |
| `AtomicLaws.FinishesAlone` | glibc-compatibility/musl/atomic.h:18-81 | wherever a run has left it, a thread that goes on alone completes its call within three steps: no call waits for another thread |
| `AtomicLaws.WideBits` | glibc-compatibility/musl/atomic.h:208-226 | after any number of racing a_or_64 (a_and_64) calls a bit of the 64-bit word is set if and only if it was or any argument has it (it was and all arguments have it) |
| `AtomicLaws.WideCalls` | glibc-compatibility/musl/atomic.h:210-226 | they update the low half in the first cell and the high half in the second, leaving out a half that has nothing to set or to clear |
| `Bits.SplitWord` | glibc-compatibility/musl/atomic.h:212-224 | OR and AND on a word work on its low part and on the rest separately, which is what the two 32-bit halves rely on |
| `Getauxval.FindAuxv` | glibc-compatibility/musl/getauxval.c:183-194 | the search finds the type exactly when the vector has it and then points at its value |
| `Getauxval.AnswersAgreeWithKernel` | glibc-compatibility/musl/getauxval.c:62-244 | in every interleaving of any number of racing calls, through either source, every finished call answers the kernel vector's value for its type, or 0 when it gave up (AT_IGNORE, AT_IGNOREPPC and AT_SECURE apart; when a call gives up is GetauxvalRuns.GivesUpWhenNull) |
| `Getauxval.HandlerMoves` | glibc-compatibility/musl/getauxval.c:125-130 | the dispatch pointer only moves init_procfs to get_procfs, or init_procfs to init_environ to get_environ |
| `Getauxval.AfterInitialisation` | glibc-compatibility/musl/getauxval.c:165-171 | once the pointer holds a final getter it never moves again, and every call entered later answers the kernel's value: the table writes come before the swing |
| `Getauxval.SecureIsZeroOrKernels` | glibc-compatibility/musl/getauxval.c:220-234 | no interleaving produces an AT_SECURE answer other than 0 and the kernel's value |
| `Getauxval.SecureViaProcfs` | glibc-compatibility/musl/getauxval.c:165 | with a readable /proc/self/auxv an AT_SECURE answer is right exactly when the kernel's value is 0, since __auxv_secure is assigned to itself |
| `Getauxval.ProcfsNeverSetsSecure` | glibc-compatibility/musl/getauxval.c:62-67 | on the procfs path __auxv_secure stays 0 in every interleaving |
| `Getauxval.SecureViaEnviron` | glibc-compatibility/musl/getauxval.c:225-227 | without procfs every AT_SECURE answer that did not give up is the kernel's value |
| `Getauxval.SecureRightIff` | glibc-compatibility/musl/getauxval.c:241-244 | getauxval(AT_SECURE) is right in every interleaving if and only if the kernel reports 0; the counterexample run is constructed for every other kernel |
| `GetauxvalRuns.GivesUpWhenNull` | glibc-compatibility/musl/getauxval.c:210-218 | a call gives up, answering 0, exactly at the test of __environ and exactly while that is null; while it is set the call goes on to the vector |
| `GetauxvalRuns.NoneGivesUp` | glibc-compatibility/musl/getauxval.c:210-218 | when __environ is set from the start no call of any run gives up |
| `GetauxvalRuns.EnvironSetAnswers` | glibc-compatibility/musl/getauxval.c:62-244 | so in such runs every finished call, through either source, answers the kernel's value for its type (AT_IGNORE, AT_IGNOREPPC and AT_SECURE apart) |
| `GetauxvalRuns.ProcfsAnswers` | glibc-compatibility/musl/getauxval.c:62-176 | with a readable /proc/self/auxv every call of every run answers the kernel's value, and 0 for AT_IGNORE, AT_IGNOREPPC and AT_SECURE |
| `GetauxvalRuns.EnvironAnswers` | glibc-compatibility/musl/getauxval.c:192-235 | without procfs every call answers the kernel's value for every type, those three included, or 0 when it gave up |
| `GetauxvalRuns.PointerIsMoved` | glibc-compatibility/musl/getauxval.c:125-233 | once a call has returned the dispatch pointer no longer names the first initialiser: it names the procfs getter, or without procfs the environ getter as soon as a call has returned without giving up |
| `GetauxvalRuns.FinishesAlone` | glibc-compatibility/musl/getauxval.c:76-244 | from any state a thread running alone finishes its call within nine steps more than the vector has records, however its opens turn out |
| `CallTree.TrieIsMultiset` | tfg/calltree/calltree.py:54-59 | after any sequence of add_stack calls a node exists at a path exactly when the path is a prefix of a stack; base_count sums the stacks equal to the path, count those it is a prefix of |
| `CallTree.HeadCountsAll` | tfg/calltree/calltree.py:51-59 | the head is called all, counts every stack, the empty ones too, and has no samples of its own |
| `CallTree.SiblingsInFirstSeenOrder` | tfg/calltree/calltree.py:93-99 | the children of every node are the continuing names, distinct, in the order in which the stacks first showed them |
| `CallTree.BuiltIsConsistent` | tfg/calltree/calltree.py:83-99 | every reachable tree has distinct siblings everywhere and, below the head, count = base_count + the children's counts |
| `CallTreeHeap.GetOrCreateFrame` | tfg/calltree/calltree.py:93-99 | finds the child of that name or appends one, in place, changing nothing else of the tree |
| `CallTreeHeap.InsertFrame` | tfg/calltree/calltree.py:83-91 | the walk over linked nodes performs exactly the insertion on the trie as a value |
| `CallTreeHeap.CallFrameTree.AddStack` | tfg/calltree/calltree.py:54-59 | the tree on the heap represents the trie of all stacks added so far plus this one |
| `CallTreeHeap.BuildTree` | tfg/calltree/calltree.py:51-59 | any sequence of calls on a new tree leaves the heap representing the trie built from the stacks |
| `CallTreeHeap.DumpFrame` | tfg/calltree/calltree.py:74-81 | the recursion with its shared, pushed and popped call stack prints exactly the dump of the subtree and leaves the call stack as it was |
| `CallTreeHeap.CallFrameTree.Dump` | tfg/calltree/calltree.py:67-72 | the text printed is that of the entries of the tree, in tree order |
| `CallTreeHeap.DumpAndReload` | tfg/calltree/calltree.py:67-81 | dumping a tree, parsing the text and adding every entry to a new tree, for stacks of clean names and counts of any sign: the new tree equals the dumped one if and only if the stacks are dumpable |
| `Collapsed.Parse` | tfg/stackcollapsers/pyspycollapser.py:7-16 | the loop over the lines computes the entry-by-entry reading, failing at the first line whose count is no number (what that reading is of any file is ParseLaws.FileSays) |
| `Collapsed.LineRoundTripsIff` | tfg/stackcollapsers/pyspycollapser.py:8-15 | a dumped line is parsed back to its stack if and only if no name holds a semicolon and the line does not start with white space |
| `Collapsed.FileRoundTrip` | tfg/stackcollapsers/pyspycollapser.py:4-16 | a printed file is read back entry by entry, blank lines being skipped |
| `Collapsed.Rebuilds` | tfg/calltree/calltree.py:74-99 | re-adding what a frame dumps rebuilds that frame, counts and child order included |
| `Collapsed.DumpRebuildsIff` | tfg/calltree/calltree.py:54-99 | for any stacks with counts of any sign, re-adding the dumped entries gives the tree back if and only if the counts of the stacks without frames add up to 0 and for every beginning of a stack the counts of the stacks that begin so add up to more than 0 and of those that end there to no less than 0 |
| `Collapsed.RebuildableIff` | tfg/calltree/calltree.py:54-99 | the same condition read off the tree: every frame below the head has a positive count and no negative base count, and the head counts what its children do |
| `Collapsed.PositiveRebuildsIff` | tfg/calltree/calltree.py:74-81 | with positive counts: if and only if no stack was empty |
| `Collapsed.ZeroCountIsLost` | tfg/calltree/calltree.py:74-92 | a stack with 0 samples leaves a frame that the dump does not mention |
| `Collapsed.TextRoundTripIff` | tfg/stackcollapsers/pyspycollapser.py:8-16 | for stacks of clean names and counts of any sign, the dumped text can always be read, and adding what is read gives the same tree if and only if the stacks are dumpable |
| `Collapsed.TextRoundTrip` | tfg/stackcollapsers/pyspycollapser.py:8-16 | dump to text, parse and re-add is the identity for every tree built from non-empty printable stacks with positive counts |
| `ParseLaws.ParseIntIff` | tfg/stackcollapsers/pyspycollapser.py:13 | int() gives n for exactly the texts made of white space, a sign or none, digits that by their places make up n, and white space |
| `ParseLaws.ParseLineIff` | tfg/stackcollapsers/pyspycollapser.py:8-15 | every line whatever is taken for a stack if and only if it is, within white space, the names with semicolons between and then a text of the count, with a space in front or behind an empty last name without; it is passed over if and only if it is all white space, and every other line raises ValueError |
| `ParseLaws.FileSays` | tfg/stackcollapsers/pyspycollapser.py:4-16 | reading any file gives exactly the stacks that its lines, blank ones apart, say one after another, and fails when some line says none |
| `ParseLaws.LineIs` | tfg/calltree/calltree.py:75-77 | a printed line is the names with semicolons between, a space, and the count in decimal, a minus in front if negative and no leading zero |
| `Text.SplitOfJoin` | tfg/stackcollapsers/pyspycollapser.py:11-13 | splitting a join gives the parts back when none of them holds the separator |
| `VisualTree.FitStringFits` | tfg/browser/visualtree.py:17-23 | the text fills the width exactly: the name cut off, or filled up with the filler |
| `VisualFits.WidthsFit` | tfg/browser/visualtree.py:26-30 | the floor-divided widths of the children with the parent's sign, which together do not outweigh it, add up to at most the columns available |
| `VisualFits.ColumnLeftForPlus` | tfg/browser/visualtree.py:189-217 | in a row that fits, when there is a + frame a free column is left for it, reserved by the width reduction if need be |
| `VisualTree.ExactShare` | tfg/browser/visualtree.py:26-30 | for counts of either sign the width is the exact share of the parent's columns rounded down |
| `VisualFits.LayoutIsWellPlaced` | tfg/browser/visualtree.py:183-227 | for every call tree that fits, at every width of at least one column and either setting, everywhere in the layout the children, + included, occupy pairwise disjoint non-empty intervals inside their parent, one row above, with as many characters of text as columns (what the text says is VisualLabels.LayoutIsLabelled) |
| `VisualFits.Misfit` | tfg/browser/visualtree.py:183-227 | for every call tree that does not fit and either setting there is a width at which every layout of it is misplaced |
| `VisualFits.EveryWidthGiven` | tfg/browser/visualtree.py:189-210 | a child that gets columns at all is given every width, from one column on, at some width of its parent, the column kept back for + notwithstanding |
| `VisualFits.WellPlacedIff` | tfg/browser/visualtree.py:183-227 | for all call trees, counts of any sign, and either setting: the layout is well placed at every width if and only if in every frame that gets columns the children with its sign, by name in descending order, come before those against it and do not outweigh it |
| `VisualFits.MeasuredFits` | tfg/browser/visualtree.py:183-227 | trees of non-negative counts whose children do not outweigh their parent fit |
| `VisualFits.BuiltIsMeasured` | tfg/calltree/calltree.py:54-99 | every tree built with non-negative counts is such a tree |
| `VisualFits.NegativeCountsOverflow` | tfg/browser/visualtree.py:26-30 | the tree built from the stacks a with 3 and b with -2 samples does not fit: no layout of it in one column is well placed, at either setting |
| `VisualFits.NegativeCountFits` | tfg/browser/visualtree.py:26-30 | the tree built from the stacks a with 3 and a;b with -2 samples fits, so a negative count as such does no harm |
| `VisualConserves.LayoutConserves` | tfg/browser/visualtree.py:197-217 | with combining on, in a tree where no child counts against its parent's sign every call-frame child is shown exactly once, as a frame or inside +, and the counts shown under a frame add up to its children's, everywhere in the layout |
| `VisualConserves.ConservesIff` | tfg/browser/visualtree.py:189-217 | with combining on and for all call trees: this is so at every width if and only if no child of a frame that gets columns counts against the frame's sign; otherwise samples are lost at every width from some width on |
| `VisualTree.LayoutIsOrderly` | tfg/browser/visualtree.py:197-203 | everywhere in the layout of any call tree, counts of any sign, call frames stand in the order of their names, and each width is the frame's share of its parent's width rounded down, at most one column being withheld |
| `VisualTree.SortedIsDescending` | tfg/browser/visualtree.py:198 | the loop runs over the frames in descending order of names |
| `VisualLabels.LayoutIsLabelled` | tfg/browser/visualtree.py:17-23 | in every layout, counts of any sign, every call frame shows character by character as much of its own name as fits and the filler behind it, and + shows + |
| `VisualLabels.RebuiltIsLabelled` | tfg/browser/visualtree.py:90-99 | the same in every rebuilt tree, zoomed or not, the frames above the zoom target included |
| `VisualLabels.RebuiltIsFullWidth` | tfg/browser/visualtree.py:161-181 | the head of a rebuilt tree and every frame down to the zoom target cover the whole width, one per row, in their old rows, with their call frames and counts |
| `VisualExact.LayoutRows` | tfg/browser/visualtree.py:183-217 | every row of every layout, counts of any sign: exactly the children whose share of the columns is at least one stand there, each as wide as its share; + comes, last, if and only if combining is on and the smallest share is 0, and holds exactly the children with share 0; one column is kept back for it if and only if the shares add up to all |
| `VisualExact.LayoutIsPacked` | tfg/browser/visualtree.py:189-217 | in the layout of a tree that fits every frame of a row ends where the one before it begins, the first at its parent's right edge: no column is left between |
| `VisualExact.StartRows` | tfg/browser/visualtree.py:90-99 | the zoom target covers the whole width in its old row, and the rows below it are such rows |
| `VisualRows.RebuiltWellPlacedIff` | tfg/browser/visualtree.py:90-99 | for every call tree, zoom target and setting, the rebuilt tree is well placed at every width if and only if the target's subtree fits |
| `VisualRows.StartConservesIff` | tfg/browser/visualtree.py:90-99 | with combining on, below the start frame everything is shown once at every width if and only if no child in the target's subtree counts against its parent's sign |
| `VisualRows.BfsGoesByRows` | tfg/browser/visualtree.py:118-127 | the queue yields the frames row by row |
| `VisualRows.BfsCounts` | tfg/browser/visualtree.py:121-126 | the traversal has exactly as many steps as the tree has frames |
| `VisualRows.RowsAreOrdered` | tfg/browser/visualtree.py:183-217 | within every row of a well-placed tree, across different parents, the intervals run strictly right to left |
| `VisualRows.LevelTraversal` | tfg/browser/visualtree.py:129-143 | the grouping loop cuts the traversal where the row number changes |
| `VisualRows.LevelsAreRows` | tfg/browser/visualtree.py:129-143 | in every tree whose children stand one row below their parent, well placed or not, level_traversal yields exactly the frames at each depth, each once, one group per depth |
| `VisualHeap.CreateVf` | tfg/browser/visualtree.py:219-227 | the new node is the cell the layout places there: its width the share, its text the name cut to it, not zoomed and unlinked (what cells show everywhere in a tree is VisualLabels.LayoutIsLabelled) |
| `VisualHeap.PlaceChildren` | tfg/browser/visualtree.py:197-210 | the loop over the sorted children builds in place exactly the placed subtrees and collects exactly the small frames |
| `VisualHeap.CreateVfChildren` | tfg/browser/visualtree.py:183-217 | building below a node in place gives the layout as a value, as a tree of fresh nodes whose parent links point back |
| `VisualHeap.Ancestors` | tfg/browser/visualtree.py:165-169 | following parent links from the target collects its line to the head, reversed |
| `VisualHeap.CreateStartVf` | tfg/browser/visualtree.py:161-181 | the zoom chain made in place is the line below the head, each frame of full width in its old row |
| `VisualHeap.RebuildTree` | tfg/browser/visualtree.py:90-99 | rebuilding, zoomed or not, gives the rebuilt tree as a value, on fresh, unlinked nodes; the start frame returned is the zoom target with its children laid out; exactly the frames from the head down to it are marked zoomed |
| `VisualLinks.BfsTraversal` | tfg/browser/visualtree.py:118-127 | the queue over linked nodes yields distinct nodes, the head first, closed under children, showing exactly the traversal of the value |
| `VisualLinks.LinkFrames` | tfg/browser/visualtree.py:101-106 | afterwards left_vf and right_vf are mutually inverse along the traversal and null at its ends: walking left_vf from the head visits every frame once; the tree is unchanged |
| `VisualLinks.EveryFrameCanBeZoomed` | tfg/browser/visualtree.py:164-178 | every frame of a shown tree, also one inside +, leads by parent links to the head with the rows, counts and call frames that a zoom into it needs |
| `VisualLinks.Show` | tfg/browser/visualtree.py:90-106 | first layout or zoom into any frame of the tree shown before, for any call tree: the new tree is linked and again one whose every frame can be zoomed, over any number of zooms, and its levels are its rows; every frame shows its own name; exactly the frames from the head down to the target are zoomed, each over the whole width; the rows below the target hold exactly what LayoutRows says; the tree is well placed, its rows run right to left and without gaps below the target, if the target's subtree fits, and with combining on it shows all of that subtree once if no child there counts against its parent's sign |
| `Strchrnul.HasZeroFindsZeros` | glibc-compatibility/glibc-compatibility.c:255 | HASZERO is non-zero if and only if some byte of the word is zero |
| `Strchrnul.RepeatedIsEverywhere` | glibc-compatibility/glibc-compatibility.c:267 | the multiplication puts the character into every byte |
| `Strchrnul.HasZeroFindsByte` | glibc-compatibility/glibc-compatibility.c:268 | on the word xored with the repeated character HASZERO is non-zero if and only if some byte is the character |
| `Strchrnul.StrChrNul` | glibc-compatibility/glibc-compatibility.c:257-273 | for every NUL-terminated string, start alignment and character the result is the first position holding NUL or the character; the middle loop reads whole aligned words only |
| `ExecPath.FillBuffer` | glibc-compatibility/glibc-compatibility.c:302-304 | the buffer is written within b[l+k+1] and holds the element, a slash and the file, or the bare file for an empty element |
| `ExecPath.TryElements` | glibc-compatibility/glibc-compatibility.c:295-318 | the pointer-walking loop is the search through the candidates, errno and the remembered EACCES included |
| `ExecPath.ExecVpe` | glibc-compatibility/glibc-compatibility.c:275-319 | the whole call: an empty name makes no attempt and fails with ENOENT; a name with a slash is tried once, as it is, whatever PATH says; one of more than 255 characters without a slash makes no attempt and fails with ENAMETOOLONG; any other is tried in /usr/local/bin, /bin and /usr/bin when PATH is unset, else in the elements between the colons of PATH of at most 4095 characters, in order, up to the first answer other than EACCES, ENOENT and ENOTDIR |
| `ExecPath.SearchMeans` | glibc-compatibility/glibc-compatibility.c:305-318 | candidates are tried in order, each once, up to the first answer other than EACCES, ENOENT and ENOTDIR, which ends the call; with no such answer the error is EACCES if any attempt gave it, else the last one, ENOENT without any |
| `ExecPath.PathSearch` | glibc-compatibility/glibc-compatibility.c:287-301 | the candidates are the elements of PATH of at most 4095 characters in order, which are all of them if PATH has fewer than 4096 |
| `ExecPath.DefaultSearch` | glibc-compatibility/glibc-compatibility.c:287 | with PATH unset the file is looked for in /usr/local/bin, /bin and /usr/bin, in this order |
| `ExecPath.CandidatesInOrder` | glibc-compatibility/glibc-compatibility.c:297-301 | each element contributes its path at its place, or nothing if it is too long |
| `SpawnActions.PushFront` | glibc-compatibility/glibc-compatibility.c:362-364 | adding in front keeps the list acyclic with prev undoing next |
| `SpawnActions.AddChdir` | glibc-compatibility/glibc-compatibility.c:356-366 | returns 12 and changes nothing for want of memory, else 0 with a new node in front: cmd 4, fd -1 and the path |
| `SpawnActions.AddClose` | glibc-compatibility/glibc-compatibility.c:368-378 | returns 9 for a negative descriptor and else 12 for want of memory, changing nothing; otherwise 0 with a new node in front: cmd 1 and the descriptor |
| `SpawnActions.AddDup2` | glibc-compatibility/glibc-compatibility.c:380-391 | returns 9 if either descriptor is negative and else 12 for want of memory, changing nothing; otherwise 0 with a new node in front: cmd 2, source and target each in its field |
| `SpawnActions.AddFchdir` | glibc-compatibility/glibc-compatibility.c:393-403 | returns 9 for a negative descriptor and else 12 for want of memory, changing nothing; otherwise 0 with a new node in front: cmd 5 and the descriptor |
| `SpawnActions.AddOpen` | glibc-compatibility/glibc-compatibility.c:405-418 | returns 9 for a negative descriptor and else 12 for want of memory, changing nothing; otherwise 0 with a new node in front: cmd 3, descriptor, path, flags and mode |
| `SpawnActions.Destroy` | glibc-compatibility/glibc-compatibility.c:420-428 | every node is freed, none twice and none read after it was freed; the structure's pointer is left dangling |
| `SpawnActions.LinksAt` | glibc-compatibility/glibc-compatibility.c:344-349 | in a valid list next leads from node to node to null and prev undoes it |
| `SpawnActions.AddAll` | glibc-compatibility/glibc-compatibility.c:356-418 | any sequence of calls of the five functions leaves a valid list holding exactly the accepted actions, latest first |
| `Memcpy.MoveBothEnds` | glibc-compatibility/memcpy/memcpy_x86_64.cpp:117-134 | two overlapping moves, the last bytes first, copy every size from w to 2w |
| `Memcpy.CopyMedium` | glibc-compatibility/memcpy/memcpy_x86_64.cpp:145-162 | last 16 bytes, then 16 at a time from the front |
| `Memcpy.CopyBlock` | glibc-compatibility/memcpy/memcpy_x86_64.cpp:194-211 | eight loads then eight stores, all at multiples of 16, copy 128 bytes |
| `Memcpy.CopyLarge` | glibc-compatibility/memcpy/memcpy_x86_64.cpp:163-218 | after alignment and the unrolled loop fewer than 128 bytes are left and all others are copied |
| `Memcpy.InlineMemcpy` | glibc-compatibility/memcpy/memcpy_x86_64.cpp:96-222 | for every size and alignment of disjoint buffers it terminates, the destination receives the source, no other byte changes, only the source is read, aligned stores hit multiples of 16, and the original dst is returned |
| `Memcpy.MoveKeeps` | glibc-compatibility/memcpy/memcpy_x86_64.cpp:152-161 | a move never damages bytes already in place, wherever it overlaps them |
| `FloatBits.CheckIntIsParity` | glibc-compatibility/musl/pow.c:235-247 | checkint, for binary64 and binary32, is 0, 1 or 2 if and only if the number is no integer, odd or even |
| `FloatBits.WordActsAsSignificand` | glibc-compatibility/musl/powf.c:106-118 | masking the whole word instead of the significand is right: for exponent 0 the test reaches the lowest exponent bit, set because the bias is odd |
| `FloatBits.ReductionIsExact` | glibc-compatibility/musl/pow.c:46-51 | in wrapping arithmetic, also for renormalized subnormals, x = 2^k z exactly with z in [OFF, OFF + one binade), and i is the subinterval z lies in |
| `FloatBits.ReducedWord` | glibc-compatibility/musl/powf.c:38-45 | k and iz of the reduction are the quotient and remainder of the distance from OFF |
| `FloatBits.ScaledUpIsExact` | glibc-compatibility/musl/pow.c:320-325 | the word of a subnormal times 2^52 (2^23) denotes exactly that product |
| `FloatBits.PrepareIsExact` | glibc-compatibility/musl/powf.c:158-172 | what is handed to the reduction means |x|, subnormal or not |
| `Bits.LowMask` | glibc-compatibility/musl/pow.c:242 | a mask of low bits takes the remainder the model writes |
| `Bits.HighMask` | glibc-compatibility/musl/pow.c:49 | a mask of high bits takes the remainder away |
| `Bits.BitMask` | glibc-compatibility/musl/pow.c:244 | a one-bit mask tests the parity of the quotient |
| `PowFront.SpecialsAre` | glibc-compatibility/musl/pow.c:250-253 | the wrapping test finds exactly zeros, infinities and nans |
| `PowFront.EntryIsRight` | glibc-compatibility/musl/pow.c:255-326 | for every pair of words, pow and powf: the core is entered only with non-zero finite numbers and |x|; the sign bias is set if and only if x is negative and y odd; the call is invalid if and only if x is negative and y no integer; of the other non-zero finite pairs pow keeps from the core exactly those with |y| below 2^-65 or from 2^63, and powf none |
| `PowFront.CoreReducesExactly` | glibc-compatibility/musl/powf.c:125-174 | from the call to the reduced argument: |x| = 2^k z exactly, z in the binade from 0x3fe6955500000000 (0x3f330000) on, and i is the one of its 128 (16) parts that z lies in |
| `PowFront.SpecialValues` | glibc-compatibility/musl/pow.c:271-292 | what every call with a zero, an infinity or a nan returns, in terms of the numbers denoted |
| `PowFront.ExtremePowers` | glibc-compatibility/musl/pow.c:304-318 | for |y| below 2^-65 or from 2^63 the outcome of pow follows from the size of x against 1 and the sign of y |
| `PowFront.ComparedWithOne` | glibc-compatibility/musl/pow.c:281 | comparing words with the word of 1 compares the numbers' sizes with 1 |
| `PowFront.ExtremeMeans` | glibc-compatibility/musl/pow.c:264-265 | the test on the exponent field of y finds exactly the numbers below 2^-65 and from 2^63 |
| `ExpScale.KiDenotes` | glibc-compatibility/musl/pow.c:206-207 | the word of the shifted sum is exactly 1.5*2^52 + k (in units of 1/32 for powf), so its low bits are k |
| `ExpScale.AssemblyIsExact` | glibc-compatibility/musl/pow.c:213-218 | for every k in [-1022N, 1024N) table word + shifted k and sign bias denotes +-2^(k div N) times the table's number |
| `ExpScale.SpecialScaleIsExact` | glibc-compatibility/musl/pow.c:124-139 | for every k in [-2044N, 2033N), past the range the sign bit swallows, specialcase's shift gives a valid word of the right sign whose scaled value is again +-2^(k div N) times the table's number |
| `ExpScale.BranchBySign` | glibc-compatibility/musl/pow.c:128 | bit 31 of ki is the sign of k |
| `ExpTable.TableFits` | glibc-compatibility/musl/exp2f_data.c:13-25 | every one of the 32 entries plus its i steps is a word of [1, 2), the words increase, entry 0 is 1 |
| `ExpTable.PowfScaleIsExact` | glibc-compatibility/musl/powf.c:91-95 | with the actual table the assembled word denotes +-2^(k div 32) times entry k mod 32 |
| `ExpRoots.SquaresAgree` | glibc-compatibility/musl/exp2f_data.c:13-25 | the square of every entry is the entry of twice its index, doubled past the middle of the table, up to 4 units of the last place |
| `ExpRoots.TableIsAccurate` | glibc-compatibility/musl/exp2f_data.c:13-25 | every entry lies within 5 units of 2^-52 of 2^(i/32), the positive real number whose 32nd power is 2^i |
| `Powil.BySquaring` | glibc-compatibility/musl/powl.c:500-513 | the loop over the bits computes the power |
| `Powil.Powil` | glibc-compatibility/musl/powl.c:456-518 | over exact positive reals the result is x^n for every integer n unless the estimate is above MAXLOGL, which overflows, or below MINLOGL, which underflows, also when the branch for tiny answers has inverted x and flipped the sign |
| `Powil.GuardsAreRight` | glibc-compatibility/musl/powl.c:473-490 | for x from 2^(lx-1) to 2^lx: powers that are above 2^16384 for all such x overflow and those that overflow are so for the greatest; powers that are below 2^-16446 for all such x underflow and those that underflow are so for the least |
| `Glob.WalkFinds` | glibc-compatibility/musl/glob.c:50-141 | match_in_dir appends exactly the paths to be found, in order, when it returns 0, and a first part of them when it is aborted, whatever fails on the way |
| `Glob.WaysAreChosen` | glibc-compatibility/musl/glob.c:94-135 | the paths listed are exactly those whose names are taken by their components, a trailing slash asking for a directory |
| `Glob.WaysInOrder` | glibc-compatibility/musl/glob.c:94-136 | they come in readdir order, directory by directory, each once |
| `Glob.DistinctPaths` | glibc-compatibility/musl/glob.c:108-114 | different ways through the tree give different path strings |
| `Glob.ComponentsAreNames` | glibc-compatibility/musl/glob.c:62-67 | cutting the pattern at slashes leaves names, only the last possibly empty |
| `Glob.LiteralMeans` | glibc-compatibility/musl/glob.c:17-36 | is_literal accepts exactly the patterns without wildcard, escaping backslash or closed bracket |
| `Glob.NeverAborted` | glibc-compatibility/musl/glob.c:143-146 | without GLOB_ERR and with the default error function no walk is aborted, whatever errno was |
| `Glob.AbortedIff` | glibc-compatibility/musl/glob.c:71-140 | for every file system, flags, error function and errno on entry: the walk is aborted if and only if some opendir fails with an error that is not passed over, or a directory is opened while errno holds such an error and no recursive call overwrites it, the last component being matched there or no entry being taken; a walk that is not aborted leaves the errno of the last call that failed, if any |
| `Glob.AbortedByStaleErrno` | glibc-compatibility/musl/glob.c:71-140 | when no directory refuses to be opened, the walk is aborted if and only if a directory in which the last component is matched or no entry is taken is opened with errno already set, by something before the call, a failing opendir on something that is no directory or a failing stat, to an error that GLOB_ERR or the caller's function does not pass over |
| `Glob.FileAbortsWalk` | glibc-compatibility/musl/glob.c:71-140 | a tree, one plain file before one directory, where that happens under GLOB_ERR with errno 0 on entry |
| `Glob.LinkAbortsWalk` | glibc-compatibility/musl/glob.c:118-140 | a tree, a directory with a dangling link before another directory, where that happens under GLOB_ERR and GLOB_MARK, by the unchecked stat |
| `Glob.SlashOverwritesErrno` | glibc-compatibility/musl/glob.c:115-140 | a tree where it does not happen, whatever errno was: the recursive call for a taken entry overwrites the errno kept |
| `GlobHeap.Append` | glibc-compatibility/musl/glob.c:38-48 | the list grows by one name at its tail |
| `GlobHeap.MatchInDir` | glibc-compatibility/musl/glob.c:50-141 | the recursion over the list tail and errno is the walk on values, errno being set by failing opendir and stat calls, and the errno kept from opendir overwritten by the result of every recursive call |
| `GlobHeap.GlobCall` | glibc-compatibility/musl/glob.c:162-230 | one call: return code, errno and the names delivered are those of its outcome, which GlobLaws.CallDelivers and GlobLaws.DefaultCall characterise, and the fields of glob_t become what GlobLaws.FieldsAfter says; a call without names allocates nothing |
| `GlobHeap.GlobCalls` | glibc-compatibility/musl/glob.c:162-230 | any number of calls on one glob_t leave the fields and errno that folding the single calls gives |
| `GlobHeap.SessionVector` | glibc-compatibility/musl/glob.c:204-224 | after a call without and any number with GLOB_APPEND, all or none with GLOB_DOOFFS, the vector is the first slots, all delivered names in the order of the calls and a null, and there is none while nothing was delivered; the first slots are nulls, or what the memory held for the first call to deliver when that call appends |
| `GlobHeap.UsableIff` | glibc-compatibility/musl/glob.c:204-220 | after such calls the vector is the nulls asked for, the names and a null, whatever unused memory holds, if and only if no slots were asked for or no delivering call hands a null gl_pathv to realloc |
| `GlobHeap.WhenReallocsNull` | glibc-compatibility/musl/glob.c:174-178 | some call does so exactly when the first call delivers nothing and a later one does |
| `GlobHeap.SlotNeverSet` | glibc-compatibility/musl/glob.c:204-220 | the two calls that show it: one slot asked for, nothing found, then an appending call that finds one file; the slot holds whatever the memory held |
| `GlobHeap.SearchFindsPaths` | glibc-compatibility/musl/glob.c:162-187 | with default error handling a call delivers exactly the paths its pattern selects |
| `GlobHeap.SortedIsAscending` | glibc-compatibility/musl/glob.c:226-227 | sorting by strcmp gives the same names in ascending order |
| `GlobLaws.CallDelivers` | glibc-compatibility/musl/glob.c:162-230 | any call: a pattern of more than 4096 characters behind its leading slashes delivers nothing and returns 1; otherwise the names that the walk finds are delivered, the same names in strcmp order, or under GLOB_NOSORT just as found; when it finds none, exactly the pattern under GLOB_NOCHECK, and else nothing, returning 3 |
| `GlobLaws.DefaultCall` | glibc-compatibility/musl/glob.c:50-230 | a call without GLOB_ERR and with the default error function, on a file system whose directories list non-empty names without slashes, finds exactly the names of all routes of the pattern, in the order of readdir and each once, a route taking for every part of the pattern an entry of the directory that the entries before lead to, and delivers them so sorted or not, or the pattern itself or nothing; entries, kinds, the rule for . and .., the path strings and the marking slash are written out |
| `GlobLaws.ComponentsAreParts` | glibc-compatibility/musl/glob.c:62-67 | a pattern asks for what stands between its slashes, one part after another, and for a directory at the end exactly when it ends in a slash |
| `GlobLaws.FieldsAfter` | glibc-compatibility/musl/glob.c:174-224 | the fields of glob_t after any call, slot by slot: nulls as asked for, or under GLOB_APPEND the old slots as far as there were any and then whatever the memory held, then the names, then a null |
| `GlobLaws.NameLessIsStrcmp` | glibc-compatibility/musl/glob.c:157-160 | the order used is that of the first difference, a string coming before its extensions |
| `GlobStops.WalkStops` | glibc-compatibility/musl/glob.c:50-141 | for every file system, pattern, errno, flags and error function: a walk delivers exactly what the walk that never gives up comes to before the first error that GLOB_ERR or the caller's function answers with yes, and there returns 2; without such an error everything, returning 0 with errno as at the end |

## Left out

- Weak memory ordering, barriers and inline assembly: the primitives are atomic steps under sequential consistency.
- The sanitizer branch of `__auxv_init_procfs`, the abort on types of 128 and more, partial and interrupted reads,
  errno of the getters, a move of the environment by setenv between two calls.
- Atomics.Atomicity: covers the generic 32-bit loops and the aarch64 `a_cas`; `a_cas_p` on pointers has the same loop
  and appears in Getauxval as one step.
- a_inc, a_dec, a_barrier and a_spin of atomic.h are not modelled: the first two are a_fetch_add with a fixed operand,
  the others order memory, which sequential consistency leaves nothing of, so that a_store is its one write; nor are
  a_ctz_32, a_ctz_64, a_clz_64 and a_crash, which no modelled code calls.
- Call frames are values in the visual tree, not references into the call-tree heap; `dfs_traversal`, height, colours
  and curses drawing are not modelled, the filler is one character.
- Collapsed.Parse: Python's int() also accepts underscores and digits of other scripts; the model accepts ASCII digits
  with a sign. The file is read whole, in universal-newlines mode.
- Strchrnul.StrChrNul: words of eight bytes, little-endian; memory is readable in whole aligned words, as pages are.
- ExecPath.ExecVpe: `execve` is any function of the attempts made so far; strings carry no terminator outside the buffer.
- SpawnActions.Destroy: how posix_spawn walks the list is not part of this model.
- Memcpy.InlineMemcpy: the buffers must be disjoint, as the source's `__restrict` demands; address arithmetic does not wrap.
- Polynomials, rounding errors, exceptions and the accuracy of `pow`, `powf` and `powl`: they need floating-point
  rounding and real analysis.
- ExpRoots.TableIsAccurate: says within 5 units of the last place, not that each entry is the nearest binary64 number;
  the 128-entry table of `exp_data.c` enters ExpScale only as any word of [1, 2).
- ExpScale.SpecialScaleIsExact: that |x| < 1024 keeps k within the stated range is a rounding argument and is not derived.
- Powil.Powil: the estimate of the logarithm is computed over the reals and judged by the binade of x only, not by its
  significand; ints do not overflow, the one caller passing |n| < 32768.
- malloc failure outside SpawnActions, and with it GLOB_NOSPACE from `append`, `freelist` and `globfree`.
- GlobHeap.MatchInDir: fnmatch, opendir, readdir and stat are arbitrary functions of the path that do not change during
  a walk, stat with the errno of a failure and with what the code then reads from the unset structure; calls that
  succeed leave errno alone, and so do malloc, realloc, readdir, closedir, fnmatch and the error function.
- System call wrappers, clocks, vdso lookup, `exp.c`, `log*.c`, `memcpy_aarch64.cpp`, the other stack collapsers,
  build scripts.
