# Proofs about the algorithms of private_cpp_practice

The repository is a collection of small C++ programs. This project models the ones that hold an
algorithm or a protocol, and proves what they are for. Each module follows one source file:

| module | source | what it is |
|---|---|---|
| `SearchTrees`, `BinaryTrees` | `BinaryTree/BinaryTree.h` | a binary search tree with parent links on the heap, and the mathematical tree it holds |
| `QuickSorts` | `QuickSort/QuickSort.cpp` | Hoare partition and recursion on an array of any length |
| `Words`, `PopCounts`, `BitScans` | `building_library/popcount.cpp`, `bitshifting/bitshifting.cpp` | counting and finding one bits in 64-bit words |
| `Rationals` | `metaprogramming/metaprogramming.cpp` | Euclid's algorithm and fractions in lowest terms, at compile time |
| `LinkedLists` | `linked_list/linked_list.h` | a singly linked list on the heap |
| `BinaryDisplays` | `displaybinary/displaybinary.cpp` | two printers of binary digits |
| `SqlCopies` | `sqlite_copy/*_handler.cpp` | from query results to one INSERT statement |
| `HandleLedgers`, `HandleWrappers` | `cppzmq/zmq.hpp` | who owns which library handle |
| `EchoServers` | `client_server/sample_server.cpp` | the echo loop and its retry counter |
| `FreeStores` | | `new` and `delete`: which cells are live, what has been deleted |

How the source's world is represented:

- Heap structures are Dafny classes. A mathematical shape or sequence of nodes says how the cells hang
  together; `FreeStores.FreeStore` keeps the live cells, and cells are read through accessors that require
  them to be live, so reading or deleting a deleted node would be a failed proof.
- Template parameters that stand for data are `int`, as in all uses in the repository.
- Unsigned words are bounded integers. Signed 64-bit words are integers in range, with explicit two's
  complement wrap-around (`Words.Wrap`, `Words.Pattern`), arithmetic right shift as division that rounds
  down, and `&` on bit patterns (`Words.And64`).
- `QuickSort.cpp` sorts an array of 8; here the length is arbitrary. Its range must not be empty, as in
  every call the source makes.
- The callbacks given to `browse` in the repository are two: show the data, delete the node
  (`FreeStores.Action`).
- A template argument that overflows `int`, or a division by a zero GCD, does not compile; so `Rationals`
  uses unbounded integers and returns `None` for the one fraction that cannot be simplified.
- In `HandleLedgers` contexts and sockets share one set of wrappers, since their handles are treated alike.
  So the protocol also allows runs that the types of C++ forbid, such as assigning a context to a socket or
  opening a socket without a context; what holds of every run of the protocol holds of every real one.
- What comes from outside is a parameter: the results of `read`, the rows of the query. `write` and the
  messaging library are taken to succeed.

Results worth knowing:

- `popcount` is right on every word if arithmetic that overflows `long long` wraps, which the C++ standard
  does not promise. It never leaves `long long` exactly on the arguments 0 to 255 (`OverflowFree`): the
  final multiplication overflows as soon as a higher byte has a one, 256 being the first such argument,
  and the first subtraction overflows below -2^62. The two lines between always fit.
- `simplified` gives equal fractions one form whatever their signs, but that form can have a negative
  denominator: -1/2 becomes 1/-2. That happens exactly when the fraction is negative and Euclid's
  algorithm on the two magnitudes takes an odd number of rounds (`SimplifiedDenominatorSign`).
- The copied table can be read back from the statement exactly when no value holds a quote, since nothing
  escapes them (`CopyTable`); a value can even have the text of two (`TwoValuesInOne`).
- Without rows the statement is cut inside its column list if there are two columns or more or the only
  column's name holds a comma; otherwise inside the table's name if that holds one; otherwise building it
  fails and is reported (`NoRowsNoStatement`). Without columns an exception leaves `insert_data`.
- The `display` recursion ends exactly for the masks that are not 0 (`EndsUnlessZero`), when the lowest
  bit of the mask has become the top one.
- A partition of n elements compares n to n + 2 times. Sorting costs at most (n - 1)(n + 6) / 2
  comparisons, and never less than a bound that grows like n log n (`LeastCostGrowth`).

## Model

| member | source | states |
|---|---|---|
| SearchTrees.InsertContents | BinaryTree/BinaryTree.h:14-41 | one `add` stores exactly the new datum beside what was there, duplicates included |
| SearchTrees.InsertKeepsOrder | BinaryTree/BinaryTree.h:19-29 | one `add` keeps left descendants <= node < right descendants, at every node |
| SearchTrees.InsertAllRun | BinaryTree/BinaryTree.h:14-41 | after any run of `add` the order holds and the stored multiset is what was there plus what was added |
| SearchTrees.RebuildFromPostOrder | BinaryTree/BinaryTree.h:14-50 | adding a search tree's post-order backwards to an empty tree rebuilds the same shape and data |
| SearchTrees.ReachableIffSearchTree | BinaryTree/BinaryTree.h:14-41 | the trees some run of `add` builds are exactly the search trees |
| SearchTrees.SamePostOrderSameTree | BinaryTree/BinaryTree.h:43-56 | two trees built by `add` display alike if and only if they are equal |
| BinaryTrees.HangInserts | BinaryTree/BinaryTree.h:31-37 | writing the one link below the last node of the descent is the insertion into the whole tree, parent links included |
| BinaryTrees.AddKeepsTree | BinaryTree/BinaryTree.h:14-41 | the same at the root, empty tree included: links, order and contents of the resulting heap |
| BinaryTrees.BinaryTree.Add | BinaryTree/BinaryTree.h:14-41 | the loop refines the functional insert; the heap afterwards is the old one plus one cell and one link, greater data on the right, every other cell as before |
| BinaryTrees.WalkOrder | BinaryTree/BinaryTree.h:43-50 | the walk visits every node exactly once, a left subtree before the right one beside it, and a node after everything below it |
| BinaryTrees.PlacesCompare | BinaryTree/BinaryTree.h:43-50 | of two nodes one is below the other or to the left of it, so these rules fix the order of the walk |
| BinaryTrees.ShownInOrder | BinaryTree/BinaryTree.h:47-54 | what is shown is the data of the nodes in the order of the walk |
| BinaryTrees.BinaryTree.Browse | BinaryTree/BinaryTree.h:43-50 | shows the data in post-order, or deletes the nodes in post-order, reading live cells only |
| BinaryTrees.BinaryTree.Display | BinaryTree/BinaryTree.h:52-56 | shows the data of all nodes, left subtrees first and each node after what is below it, and changes nothing |
| BinaryTrees.BinaryTree.Destroy | BinaryTree/BinaryTree.h:58-61 | deletes all nodes and nothing else, each once, children first |
| BinaryTrees.CopyByDisplay | BinaryTree/BinaryTree.h:14-56 | on the heap: what one tree displays, added backwards to a new tree, grows its twin out of fresh nodes |
| QuickSorts.ScanUp | QuickSort/QuickSort.cpp:31-32 | the unguarded scan stops at the first element not below the pivot, no later than any such element on its way; one comparison per step and one to stop |
| QuickSorts.ScanDown | QuickSort/QuickSort.cpp:34-35 | the same from the right |
| QuickSorts.Partition | QuickSort/QuickSort.cpp:26-55 | at exit i - j is 1 or 2, left part <= pivot <= right part, a skipped element equals the pivot, both parts are smaller than the range; the rest of the array is untouched; n, n + 1 or n + 2 comparisons, n + 1 whenever an element is skipped |
| QuickSorts.QuickSort | QuickSort/QuickSort.cpp:15-63 | the range is sorted and a permutation of what it was, the rest is untouched; for n >= 2 between n / 2 and n - 1 calls, and comparisons between `LeastCost` plus one for each call and (n - 1)(n + 6) / 2; one call and two comparisons for one element |
| QuickSorts.CostClosedForm | QuickSort/QuickSort.cpp:15-61 | the bound on twice the comparisons is (n - 1)(n + 6) |
| QuickSorts.EvenSplitIsBest | QuickSort/QuickSort.cpp:57-61 | no split of a range costs less than the even one |
| QuickSorts.PartsCostAtLeast | QuickSort/QuickSort.cpp:57-61 | whatever the split, the parts and the partition together cost at least the lower bound of the whole |
| QuickSorts.LeastCostGrowth | QuickSort/QuickSort.cpp:15-61 | the lower bound for 2^k - 1 elements is (k - 2) 2^k + 2, so it grows like n log n |
| QuickSorts.SortedUnique | QuickSort/QuickSort.cpp:15-63 | only one array is a sorted rearrangement of the range, so the contract determines the result |
| PopCounts.Stage1Counts | building_library/popcount.cpp:12 | after the first line every two-bit field holds the number of ones of its two bits |
| PopCounts.Stage2Counts | building_library/popcount.cpp:13 | after the second every four-bit field does |
| PopCounts.Stage3Counts | building_library/popcount.cpp:14 | after the third every byte does |
| PopCounts.Stage1Step | building_library/popcount.cpp:12 | no two-bit field borrows from its neighbour |
| PopCounts.Stage2Step | building_library/popcount.cpp:13 | no four-bit field carries into its neighbour |
| PopCounts.Stage3Step | building_library/popcount.cpp:14 | no byte carries into its neighbour, although the mask is applied after the addition |
| PopCounts.TopByteSums | building_library/popcount.cpp:15 | the product modulo 2^64 has the sum of the eight bytes in its top byte |
| PopCounts.ShiftBy1ThenMask | building_library/popcount.cpp:12 | masking hides the sign bit an arithmetic shift by one copies |
| PopCounts.ShiftBy2ThenMask | building_library/popcount.cpp:13 | the same for a shift by two |
| PopCounts.PopCount | building_library/popcount.cpp:11-16 | for every signed 64-bit word, the number of one bits of its pattern, between 0 and 64; arithmetic wraps |
| PopCounts.LessPairsFits | building_library/popcount.cpp:12 | the subtraction stays inside `long long` if and only if the argument is at least -2^62 |
| PopCounts.AddBytesFits | building_library/popcount.cpp:15 | the multiplication stays inside `long long` if and only if no byte above the lowest has a one |
| PopCounts.OverflowFree | building_library/popcount.cpp:11-16 | all four lines stay inside `long long` if and only if the argument is one of 0 to 255 |
| PopCounts.MultiplicationOverflows | building_library/popcount.cpp:15 | at 256 the subtraction fits, and the multiplication, of 256 by `h01`, does not |
| PopCounts.SubtractionOverflows | building_library/popcount.cpp:12 | at -2^63 the subtraction overflows |
| BitScans.MinBit8Loop | bitshifting/bitshifting.cpp:6-15 | the loop finds the lowest set bit of a byte, all ones for zero |
| BitScans.MaxBit8Loop | bitshifting/bitshifting.cpp:39-47 | the counter that starts at all ones and wraps ends at the highest set bit, all ones for zero |
| BitScans.MasksTakeRemainders | bitshifting/bitshifting.cpp:11-35 | the masks 1, 0xff, 0xffff and 0xffffffff take remainders, as the model writes them |
| BitScans.MinBit64Counts | bitshifting/bitshifting.cpp:18-36 | the number of trailing zeros, through the narrowing calls |
| BitScans.MaxBit64Counts | bitshifting/bitshifting.cpp:49-62 | one less than the bit length, all ones for zero, through the narrowing calls |
| BitScans.MaxBit64Highest | bitshifting/bitshifting.cpp:39-62 | 2^m <= v < 2^(m+1) for the result m, all ones for zero |
| BitScans.MinBit64Lowest | bitshifting/bitshifting.cpp:6-36 | v is an odd multiple of 2^m for the result m, all ones for zero |
| BitScans.BitRoutinesAgree | bitshifting/bitshifting.cpp:32-62 | the ones of v fit between lowest and highest bit, fill the span exactly when they form one run, and are one exactly when both ends meet |
| BitScans.CompareBitRoutines | building_library/popcount.cpp:11-16 | the same about the numbers the three routines return, `popcount` on the signed word with the bits of v |
| Rationals.DivisionIdentity | metaprogramming/metaprogramming.cpp:29 | truncating `/` and `%` recombine to the dividend, for all signs |
| Rationals.GcdDivides | metaprogramming/metaprogramming.cpp:26-36 | the result divides both arguments, for all integers |
| Rationals.GcdGreatest | metaprogramming/metaprogramming.cpp:26-36 | every common divisor divides the result |
| Rationals.GcdScales | metaprogramming/metaprogramming.cpp:26-36 | GCD(ka, kb) = k GCD(a, b) for every k, zero and negative included |
| Rationals.SimplifiedLowest | metaprogramming/metaprogramming.cpp:38-43 | the simplified fraction has the value of its input and GCD 1; only 0/0 has none |
| Rationals.LowestUnique | metaprogramming/metaprogramming.cpp:38-43 | fractions of GCD 1 with equal cross products are identical |
| Rationals.CanonicalForm | metaprogramming/metaprogramming.cpp:38-43 | fractions simplify to the same form if and only if they are equal as rationals |
| Rationals.ScalarMultiplicationSimplifies | metaprogramming/metaprogramming.cpp:20-23 | multiplying numerator and denominator keeps the simplified form if and only if the factor is not zero (0/0 aside) |
| Rationals.GcdSign | metaprogramming/metaprogramming.cpp:26-36 | the sign of the result follows one argument or the other by the parity of the recursion depth |
| Rationals.ScalarMultiplicationScales | metaprogramming/metaprogramming.cpp:20-23 | the GCD is multiplied by the factor and the value stays, also for fractions not in lowest terms |
| Rationals.RoundsBound | metaprogramming/metaprogramming.cpp:26-36 | the templates recur at most 2 log2 of the first argument, plus one, times |
| Rationals.RoundsOfMagnitudes | metaprogramming/metaprogramming.cpp:26-36 | the recursion is as deep on the magnitudes as on the signed arguments |
| Rationals.SimplifiedDenominatorSign | metaprogramming/metaprogramming.cpp:38-43 | the simplified denominator is negative if and only if the fraction is negative and Euclid on the magnitudes takes an odd number of rounds |
| Rationals.MinusOneHalf | metaprogramming/metaprogramming.cpp:38-43 | -1/2 and 1/-2 both simplify to 1/-2 |
| LinkedLists.LinkedList.Add | linked_list/linked_list.h:38-42 | one new node in front, every old cell as before |
| LinkedLists.LinkedList.Remove | linked_list/linked_list.h:44-60 | unlinks and deletes exactly the first node holding the value, if any; the others keep order and identity; nothing deleted is read |
| LinkedLists.LinkedList.Browse | linked_list/linked_list.h:27-36 | each node once, in order, even if the action deletes it |
| LinkedLists.AddThenRemove | linked_list/linked_list.h:38-60 | removing what was just added restores head, nodes and links |
| LinkedLists.RemoveTakesOne | linked_list/linked_list.h:44-60 | the values lose one occurrence, at its first position, or none if absent |
| BinaryDisplays.ShiftProgress | displaybinary/displaybinary.cpp:39-42 | a shift moves the lowest bit of a mask up by one, until the top bit stands alone |
| BinaryDisplays.EndsAtDepth | displaybinary/displaybinary.cpp:39-42 | from a mask other than 0 the recursion meets the top bit alone at one depth, 63 less its trailing zeros |
| BinaryDisplays.EndsUnlessZero | displaybinary/displaybinary.cpp:39-42 | the recursion ends if and only if the mask is not 0 |
| BinaryDisplays.DisplayDigits | displaybinary/displaybinary.cpp:36-46 | from any mask but 0: one digit for each shift of the mask until the top bit stands alone, saying whether the number shares a bit with it |
| BinaryDisplays.DisplayReads | displaybinary/displaybinary.cpp:36-55 | the digits printed down to bit k read as v >> k |
| BinaryDisplays.DisplayLayout | displaybinary/displaybinary.cpp:49-54 | groups of eight digits with one space between, down to any bit |
| BinaryDisplays.DisplayRoundTrip | displaybinary/displaybinary.cpp:36-55 | `display(v, 1)` prints 64 digits in eight groups of eight, and reading them gives v |
| BinaryDisplays.DisplayLoop | displaybinary/displaybinary.cpp:15-32 | 32 digits in four groups and a line end; lowest digit first they read as the number modulo 2^32 |
| SqlCopies.EraseCutsDelimiter | sqlite_copy/sqlite_handler.cpp:33 | erasing from the last comma only cuts the last delimiter, whatever commas the texts hold |
| SqlCopies.ContainerToString | sqlite_copy/sqlite_handler.cpp:27-35 | the loop builds the imploded text and erases from its last comma |
| SqlCopies.ContainerText | sqlite_copy/sqlite_handler.cpp:27-35 | no names: an exception; otherwise the names joined, plus what the delimiter holds before its last comma; with a delimiter without a comma, the cut is at the last comma in the names, and an exception exactly if they hold none |
| SqlCopies.JoinConcatenates | sqlite_copy/sqlite_handler.cpp:28-32 | joining puts the delimiter once between two groups, and leaves a single text alone |
| SqlCopies.BuildRow | sqlite_copy/pg_handler.cpp:159-166 | one row as its fields, looked up by column name, in quotes and joined |
| SqlCopies.ByNameIsRow | sqlite_copy/pg_handler.cpp:164 | with distinct column names, looking up by name is looking up by position |
| SqlCopies.SelectData | sqlite_copy/pg_handler.cpp:141-172 | fails without columns, and catches that; otherwise one text for each row, in order |
| SqlCopies.InsertStatement | sqlite_copy/sqlite_handler.cpp:95-114 | INSERT INTO, the table, the joined columns in brackets, VALUES and the bracketed rows, joined; the exception thrown on without columns; without rows, what is left to send, or the exception caught |
| SqlCopies.NoRowsNoStatement | sqlite_copy/sqlite_handler.cpp:111-114 | the exact text left without rows: cut at the last comma of the column list, else of the table's name, else nothing can be cut and it fails |
| SqlCopies.ReadRowsBack | sqlite_copy/sqlite_handler.cpp:111-114 | reading the bracketed rows gives the table, with commas, spaces and brackets in the values |
| SqlCopies.ReadRowsWritten | sqlite_copy/sqlite_handler.cpp:111-114 | what reads as a table is the text written for it: writing undoes reading |
| SqlCopies.ReadBackIff | sqlite_copy/sqlite_handler.cpp:111-114 | what is written reads back if and only if no value holds a quote |
| SqlCopies.ReadStatementBack | sqlite_copy/sqlite_handler.cpp:95-114 | the whole statement reads back as table, columns and what its rows read as, for names without the brackets and commas around them |
| SqlCopies.TwoValuesInOne | sqlite_copy/pg_handler.cpp:164 | a value with `', '` in it has the text of the two values around that |
| SqlCopies.LoneQuote | sqlite_copy/pg_handler.cpp:164 | the value that is one quote reads back as nothing |
| SqlCopies.CopyTable | sqlite_copy/sqlite_handler.cpp:90-114 | query result to statement, for all inputs: the exact text, the errors, and that reading the VALUES part, or for plain names the whole statement, gives the table if and only if no value holds a quote |
| HandleLedgers.EffectIsStep | cppzmq/zmq.hpp:142-214 | what each operation leaves is exactly what its effect says, wrapper by wrapper: where handles go, which are opened and closed, and that other wrappers keep theirs |
| HandleLedgers.MoveAssignExchanges | cppzmq/zmq.hpp:293-297 | after move assignment each of the two wrappers owns what the other did, and no other wrapper changes |
| HandleLedgers.MoveAssignMessageExchanges | cppzmq/zmq.hpp:172-176 | the same for messages |
| HandleLedgers.SelfAssignment | cppzmq/zmq.hpp:348-352 | assigning a wrapper to itself is allowed and changes nothing |
| HandleLedgers.MovedThenDestroyed | cppzmq/zmq.hpp:344-347 | destroying a moved-from context or socket closes nothing; what it had is closed with the new owner |
| HandleLedgers.MovedMessageThenDestroyed | cppzmq/zmq.hpp:165-170 | destroying a moved-from message closes its fresh handle; what it had is closed with the new owner |
| HandleLedgers.StepLedger | cppzmq/zmq.hpp:142-214 | every operation keeps the account of where each handle is: with one wrapper, or closed once |
| HandleLedgers.LedgerBalances | cppzmq/zmq.hpp:142-214 | an account of this kind means sole owners, no double close, nothing lost |
| HandleLedgers.EveryRunBalances | cppzmq/zmq.hpp:267-312 | after any run on any number of wrappers no handle has two owners, none is closed twice, none is lost |
| HandleLedgers.AllClosedInTheEnd | cppzmq/zmq.hpp:335-373 | once all wrappers are destroyed every handle has been closed exactly once |
| HandleWrappers.Program.Execute | cppzmq/zmq.hpp:142-214 | each operation on the heap is its step of the protocol and has its effect, and closes open handles only |
| HandleWrappers.Program.RunAll | cppzmq/zmq.hpp:335-373 | a run on the heap is a run of the protocol, and balanced |
| HandleWrappers.WholeProgram | cppzmq/zmq.hpp:267-312 | from start to end: when no wrapper is left, each handle has been closed exactly once |
| EchoServers.Serve | client_server/sample_server.cpp:44-70 | stops exactly at the first point where eleven reads in a row were not positive; what is written is what was read, in order |
| EchoServers.PayloadConcatenates | client_server/sample_server.cpp:48-50 | what is written for a run of reads is what each brought, one after the other |
| EchoServers.LaterReadsDoNotMatter | client_server/sample_server.cpp:45-55 | whether the loop stops at a point depends only on what came before it |
| EchoServers.IdleStops | client_server/sample_server.cpp:53-54 | eleven idle reads in a row always end the loop, there or earlier |

## Left out

- The other sorting routines (`QuickSort/QuickSort.cpp:65-121`, those in `BinaryTree/BinaryTree.cpp` and
  `BasicIO/BasicIO.cpp`): they are unused and do not sort.
- `LinkedList::delete_list`: it deletes the head again and again, so there is no intended behaviour to prove.
- A second `destroy` of one tree: the source does not clear `head`, so it is run once, at the end.
- `browse` with other callbacks than the two in use.
- `monitor_t`, `ctxptr`, message `move` and `copy`, socket options, sending and receiving in
  `cppzmq/zmq.hpp`, and the blocking of a context that is closed before its sockets: they depend on the
  messaging library.
- HandleLedgers.Step: does not model library calls that fail; a constructor that throws leaves no wrapper.
- SqlCopies.SelectData: takes the column list as empty at the start, as the only caller passes it; a NULL in
  the database reads as the text the driver returns for it.
- QuickSorts.QuickSort: does not model overflow of `left + right`, which needs an array of over 2^30 elements.
- PopCounts.PopCount: takes signed overflow to wrap; `OverflowFree` says which arguments need that.
- Partial writes, the connection set-up and the printing of the echo server.
- Database connections, transactions and the execution of statements.
- `ThreeN_Conjecture`, whose termination is an open problem, and the demos of language features, sockets,
  timers and threads.
- `Factorial`, `replace_if`, `erase_remove_idiom`, `dque`, `bitshift/bitshift.cpp`: they hold nothing hard.
