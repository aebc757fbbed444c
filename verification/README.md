# asm6809: verified models of its data structures and control flow

asm6809 is a cross assembler for the Motorola 6809. This project models, in Dafny 4.11, the parts of
it and of the gnulib code it is built with that carry state through long invariants, and proves what
they promise.

* **AVL-tree lists** (`AvlShape` to `AvlSorted`). A list is a heap of nodes with parent links, stored
  balances and branch sizes. `AvlShape` relates the heap to a tree and to a tree with a hole, so that
  the walks up to the root are steps of the hole. Insertion, removal (with the predecessor moved into
  the place of the node removed), rebalancing, indexing, iterators, searches with an explicit stack,
  sorted lists, construction from contents and freeing are methods on the heap. They refine operations
  on the sequence of nodes.
* **Chained hash tables** (`HashModel` to `HashWalk`, `Dictionary`). Bucket heads are stored in place, the others in
  chains; freed nodes are recycled. Lookup, insertion and deletion refine operations on a set of
  entries of which no two match, across growth and shrinking. A rehash that runs out of memory moves
  everything back; the abort in that code is not reached. `Dictionary` is the map of keys to values on top.
* **getopt** (`GetoptExchange` to `GetoptRoundTrip`). The parser is a class that permutes the argument
  vector while it scans. `GetoptScan` gives the meaning of the arguments in their original order; calls
  and whole runs are proved against it. `GetoptShapes` says what each way of writing an option comes to,
  and `GetoptRoundTrip` that command lines are read as they were written.
* **Conditional assembly and macros** (`AssembleModel` to `AssembleLaws`, `Assemble`). The flat loop over lines with its
  list of conditions is proved to do what nested blocks mean, and where it does not, exactly when not.
  Macro definitions are captured verbatim, and the recursion through macros and included files ends.
  `AssembleLaws` lists what calls, inclusions, definitions and blocks do, event by event.
* **Lists** (`SlistModel` to `SlistEdit`): in-place merge sort, and exactly when it is stable; reversal,
  insertion and removal.
* **memchr** (`Memchr`): the search by words finds what the search by bytes finds.
* **Integer checks** (`IntProps`, `IntLength`): exactness of the range checks, and the bound on decimal lengths.

Calls to `malloc` and `calloc` may fail at any time: the answers of the allocator to the requests of a
run are a parameter (`Memory`), and results say which answers they depend on. Hash functions,
comparators, and the evaluation of conditions and arguments are parameters. Addresses, sizes and
counters are unbounded integers, except where a word's width matters (primes, bucket sizes, `memchr`).

## Model

| member | source | states |
|---|---|---|
| `AvlShape.PlugLinked` | gnulib/gl_anyavltree_list1.h:33-52 | a tree of nodes has exact parent links, balances and sizes exactly if a subtree and its surroundings have, and are linked to each other |
| `AvlShape.PlugAvl` | gnulib/gl_anyavltree_list1.h:20-31 | a tree is AVL exactly if a subtree and its surroundings are, for the height of the subtree; height and size follow from the parts |
| `AvlBalance.RebuildAvl` | gnulib/gl_anyavltree_list2.h:166-307 | rotating where the heights of two AVL branches differ by at most 2 gives an AVL tree, at most one higher than the taller branch |
| `AvlBalance.RebuildNear` | gnulib/gl_anyavltree_list2.h:145-172 | when one branch changes its height by at most 1, the rotated subtree is AVL and its height changes by at most 1 |
| `AvlBalance.FixAvl` | gnulib/gl_anyavltree_list2.h:145-408 | repairing all ancestors after a height change of 1 gives an AVL tree whose height has changed by at most 1 |
| `AvlBalance.FixSame` | gnulib/gl_anyavltree_list2.h:145-408 | the repair keeps the order and the set of the nodes |
| `AvlBalance.FixStops` | gnulib/gl_anyavltree_list2.h:388-400 | once the height of a subtree is what it was, nothing above it changes, so the loop may stop |
| `AvlSubtree.RotateSubtree` | gnulib/gl_anyavltree_list2.h:166-382 | the four rotation shapes, in place: the subtree becomes the rebuilt one with exact links, balances and sizes; the new height difference is the real one; the abort is not reached |
| `AvlList.List.Settle` | gnulib/gl_anyavltree_list2.h:166-400 | one node of the walk up: height_diff becomes the real height change of the subtree just handled |
| `AvlList.List.Rebalance` | gnulib/gl_anyavltree_list2.h:145-408 | the loop ends with the root of the repaired tree, which is linked, counted and AVL; no value changes |
| `AvlList.List.WalkSizes` | gnulib/gl_anyavltree_list2.h:428-431 | the walk to the root shifts the branch sizes of all ancestors, so that they are exact for the new size of the subtree |
| `AvlInsert.AddFirst` | gnulib/gl_anyavltree_list2.h:537-603 | insertion at the front of the order; all other nodes keep their identity and value; nothing changes exactly if the allocator refuses the node |
| `AvlInsert.AddLast` | gnulib/gl_anyavltree_list2.h:605-671 | insertion at the end of the order, likewise |
| `AvlInsert.AddBefore` | gnulib/gl_anyavltree_list2.h:673-740 | insertion right before a node, at its index, likewise |
| `AvlInsert.AddAfter` | gnulib/gl_anyavltree_list2.h:742-809 | insertion right after a node, at its index plus one, likewise |
| `AvlInsert.AddAt` | gnulib/gl_anytree_list2.h:444-456 | insertion at an index of the order, likewise |
| `AvlRemove.RemoveOnly` | gnulib/gl_anyavltree_list2.h:410-441 | removal of a node with at most one branch |
| `AvlPromote.FindSubst` | gnulib/gl_anyavltree_list2.h:443-452 | the substitute is the last node of the left branch, where the tree is then split |
| `AvlPromote.RemoveInner` | gnulib/gl_anyavltree_list2.h:442-534 | removal of a node with two branches: its predecessor is moved into its place, with links, sizes and balances; every other node stays |
| `AvlPromote.RemoveNode` | gnulib/gl_anytree_list2.h:458-474 | removal of a node is removal at its index of the order, and leaves a valid list |
| `AvlCheck.CheckExact` | gnulib/gl_avltree_list.c:42-63 | check_invariants returns a height exactly for linked, counted and balanced AVL trees, namely the true one, and aborts for all others |
| `AvlCheck.ValidPasses` | gnulib/gl_avltree_list.c:65-70 | every valid list passes check_invariants |
| `AvlCheck.FibonacciBound` | gnulib/gl_anyavltree_list1.h:65-69 | an AVL tree of height h has at least F(h+2)-1 nodes |
| `AvlCheck.PowerBound` | gnulib/gl_anyavltree_list1.h:65-66 | a tree of height h has at most 2^h-1 nodes |
| `AvlCheck.HeightBound` | gnulib/gl_anyavltree_list1.h:65-70 | an AVL tree whose 48-byte nodes fit in 64 bits of address space has height at most MAXHEIGHT |
| `AvlWalk.NodeAt` | gnulib/gl_anytree_list2.h:139-163 | node_at gives the node at the index of the order |
| `AvlWalk.OrderDistinct` | gnulib/gl_anytree_list2.h:139-163 | a node has one index only |
| `AvlIterator.NextNode` | gnulib/gl_anytree_list2.h:103-119 | the next node is the one at the next index, or NULL |
| `AvlIterator.PreviousNode` | gnulib/gl_anytree_list2.h:121-137 | the previous node is the one at the previous index, or NULL |
| `AvlIterator.NewIterator` | gnulib/gl_anytree_list2.h:551-574 | a new iterator stands on the first element of the whole list |
| `AvlIterator.NewIteratorFromTo` | gnulib/gl_anytree_list2.h:576-598 | a new iterator is placed on the range asked for |
| `AvlIterator.Iterator.Next` | gnulib/gl_anytree_list2.h:600-628 | each call gives the next element of the range, until the range is used up |
| `AvlIterator.Drain` | gnulib/gl_anytree_list2.h:551-628 | an iterator over a range yields exactly that slice of the order, in order, and then stops |
| `AvlSearch.StackFits` | gnulib/gl_anytree_list2.h:229-233 | the traversal stack holds at most MAXHEIGHT items, and fewer when one more is to be pushed |
| `AvlSearch.SearchTo` | gnulib/gl_anytree_list2.h:236-272 | for start 0, the traversal returns the leftmost match among the first end elements, of which there is at least one that is looked at |
| `AvlSearchFrom.SearchFromTo` | gnulib/gl_anytree_list2.h:219-442 | for any start, both traversals find the leftmost match from start up to the end plus the number of elements passed over; the index returned is that of the match exactly if start is 0, or 1 with a right branch of the first node |
| `AvlSearchFrom.SkippedExactly` | gnulib/gl_anytree_list2.h:282-330 | in an AVL tree the walk passes over nothing exactly in these cases |
| `AvlSearchFrom.StopExactly` | gnulib/gl_anytree_list2.h:282-330 | the search stops at the end asked for exactly in these cases, or if that is the end of the list |
| `AvlSearchFrom.PromiseExactly` | gnulib/gl_anytree_list2.h:219-355 | for all values, comparisons and elements, the searches find what the range has and nothing else, exactly if the range ends with the list, or is not empty and starts at 0, or starts at 1 where the first node has a right branch |
| `AvlFree.EmptyRange` | gnulib/gl_anytree_list2.h:261-266 | the first element is looked at even for end 0: exactly when it does not match is this what an empty range demands |
| `AvlFree.RemoveElt` | gnulib/gl_anytree_list2.h:488-500 | removal by value deletes exactly the first occurrence, or nothing if there is none |
| `AvlFree.FreeList` | gnulib/gl_anytree_list2.h:504-545 | the list is freed in post-order; the stack does not overflow |
| `AvlFree.PostOrderDistinct` | gnulib/gl_anytree_list2.h:504-545 | the post-order has no node twice, so that each is freed once |
| `AvlFree.ChildrenFirst` | gnulib/gl_anytree_list2.h:504-545 | in the post-order both children of a node come before it |
| `AvlSorted.SearchSorted` | gnulib/gl_anytree_list2.h:637-676 | the leftmost equal element of a sorted list, or NULL if there is none; the abort for an unsorted list is not reached |
| `AvlSorted.SearchSortedFromTo` | gnulib/gl_anytree_list2.h:678-758 | the same within a window of indices |
| `AvlSorted.IndexOfSorted` | gnulib/gl_anytree_list2.h:760-813 | the index of the leftmost equal element, or -1 if there is none |
| `AvlSorted.InsertedSorted` | gnulib/gl_anytree_list2.h:901-929 | an element put where it belongs keeps the values sorted |
| `AvlSorted.AddSorted` | gnulib/gl_anytree_list2.h:901-929 | adds exactly one element and keeps the list sorted |
| `AvlSorted.RemoveSorted` | gnulib/gl_anytree_list2.h:931-940 | removes exactly the leftmost equal element and keeps the list sorted |
| `AvlCreate.AndPower` | gnulib/gl_anyavltree_list2.h:64-66 | count & (count - 1) is 0 exactly for powers of two |
| `AvlCreate.Halves` | gnulib/gl_anyavltree_list2.h:33-66 | the two halves differ in height exactly if the count is a power of two above 1 |
| `AvlCreate.CreateSubtree` | gnulib/gl_anyavltree_list2.h:25-74 | a valid AVL tree of exactly the nodes made, whose order is the contents; or NULL, exactly if the allocator refuses one of the requests, with every node that was made freed, each once |
| `AvlCreate.CreateList` | gnulib/gl_anyavltree_list2.h:76-139 | a valid list of the contents, of a height h with 2^(h-1) <= count <= 2^h-1; or NULL, exactly if the allocator refuses the list or one of its nodes, with every node freed |
| `HashModel.FewerEntries` | gnulib/hash.c:965-979 | over the same buckets, entries that are no more than others need no more overflow entries |
| `HashTable.Table.FreeEntry` | gnulib/hash.c:775-781 | a node goes to the free list, which stays apart from all chains |
| `HashTable.Table.AllocateEntry` | gnulib/hash.c:750-771 | a free node is recycled if there is one; only otherwise the allocator is asked, and NULL is returned exactly if it refuses |
| `HashTransfer.TransferEntries` | gnulib/hash.c:846-926 | both tables together keep their entries, all placed and counted; the supply of overflow nodes does not shrink; a safe pass asks for no memory and does not fail; a pass fails only with the free list used up and a request refused |
| `HashRehash.AbortUnreachable` | gnulib/hash.c:1000-1015 | part of the old contents that leaves out an entry of a taken bucket needs fewer overflow nodes than the old contents |
| `HashRehash.Undo` | gnulib/hash.c:1012-1018 | the two reverse passes bring back the same entries, and the abort is not reached |
| `HashRehash.Rehash` | gnulib/hash.c:942-1019 | the entries stay the same in any case; the new number of buckets is the size asked for, or else the buckets are the old ones, which happens only if the allocator refuses a request or there is no size |
| `HashSize.IsPrime` | gnulib/hash.c:443-457 | decides primality for all odd words from 11 on, although the running square wraps around for the largest ones: there always is a square that stops the search in time |
| `HashSize.NextPrime` | gnulib/hash.c:462-476 | the least prime from the number or 10 on, or the largest word if there is none |
| `HashSize.ComputeBucketSize` | gnulib/hash.c:543-557 | the least prime that serves the request and can be allocated, or 0 if there is none |
| `HashSize.RoomForCandidates` | gnulib/hash.c:559-567 | a table sized for some number of entries is not to grow while fewer buckets are used |
| `HashSize.GrowthSizes` | gnulib/hash.c:1073-1082 | a table that grows gets the least prime from a number on that is less than its size times the growth factor by no more than two roundings; if it is too large to grow, there is no prime from that product on |
| `HashSize.ShrinkingSizes` | gnulib/hash.c:1167-1173 | the same for shrinking, with the shrink factor |
| `HashSize.GrownIsLarger` | gnulib/hash.c:1056-1082 | a growing table of at least 110 buckets gets more of them with any reasonable tuning, one of at least 6 with the default tuning |
| `HashSize.GrowthExactly` | gnulib/hash.c:518-523 | a table with a prime number of buckets really grows exactly if the scaled number, rounded down, is enough for one bucket more, and always if tuning counts buckets |
| `HashSize.NotGrown` | gnulib/hash.c:518-523 | a reasonable tuning with which a table of 11 buckets does not grow when it should |
| `HashSize.ReasonableHundredths` | gnulib/hash.c:524-533 | which tuning values are reasonable, in hundredths |
| `HashSize.ShrunkNotLarger` | gnulib/hash.c:1167-1173 | shrinking never adds buckets to a table that has a prime number of them |
| `HashSize.ThresholdParts` | gnulib/hash.c:1063-1070 | for thresholds that are fractions: growth is wanted exactly if more than that part of the buckets is used, shrinking exactly if less is |
| `HashSize.GrowthWanted` | gnulib/hash.c:511-537 | growth is wanted when all buckets are used, shrinking of an unused table exactly with a positive threshold, and never both |
| `HashSize.DefaultWants` | gnulib/hash.c:107-136 | by default a table grows exactly when more than four fifths of its buckets are used, and never shrinks |
| `HashFind.FindEntry` | gnulib/hash.c:789-844 | finds the first match of a bucket; deletion takes out exactly that entry, and recycles its node |
| `HashOperations.Lookup` | gnulib/hash.c:260-274 | returns an entry that matches, or NULL exactly if none does |
| `HashOperations.OnlyMatch` | gnulib/hash.c:256-273 | at most one entry of a table matches a given one |
| `HashOperations.InsertIfAbsent` | gnulib/hash.c:1037-1117 | returns 0 exactly if an entry matches, and then nothing at all changes; 1 after adding the entry; and -1 with the entries as they were: without growth exactly if there is no free node, the bucket is taken and the allocator refuses a node, with growth only if it refuses a request or the table is too large to grow. The table grows exactly when the checked tuning says so, to the least prime near its size times the growth factor; the aborts are not reached |
| `HashOperations.Delete` | gnulib/hash.c:1139-1197 | takes out exactly the entry that matches, or nothing; if its bucket is empty then and the checked tuning says so, the table shrinks, to the least prime near its size times the shrink factor, or, only if the allocator refuses a request or there is no such prime, keeps its buckets and frees its spare entries; in all other cases the buckets stay; the tuning is checked only where shrinking is wanted, and else stays |
| `HashOperations.ReleaseSpares` | gnulib/hash.c:1174-1190 | the nodes freed are exactly the spare ones, each once; the table stays |
| `HashOperations.CheckTuning` | gnulib/hash.c:511-537 | unreasonable tuning is replaced by the defaults, which are reasonable |
| `HashWalk.Initialize` | gnulib/hash.c:593-648 | an empty complete table of the size asked for, exactly if the tuning is reasonable, there is a size, and the allocator grants the table and its buckets; or else NULL |
| `HashWalk.NoGrowthYet` | gnulib/hash.c:559-567 | with fewer entries than the table was made for, growth is not wanted |
| `HashWalk.InsertRun` | gnulib/hash.c:559-567 | in any run of insertions, repeated ones included, the buckets stay in place until that number of different entries is reached, and unless the allocator refuses a request, every entry is there afterwards, or one that matches |
| `HashWalk.TableOk` | gnulib/hash.c:200-226 | the check succeeds exactly if both counters are right |
| `HashWalk.CompletePasses` | gnulib/hash.c:200-226 | a complete table passes its check |
| `HashWalk.GetFirst` | gnulib/hash.c:287-301 | the first entry in the order of the buckets, or NULL; the abort is not reached |
| `HashWalk.GetNext` | gnulib/hash.c:306-330 | the entry that follows in that order, or NULL |
| `HashWalk.Walk` | gnulib/hash.c:276-330 | a walk gives every entry exactly once |
| `HashWalk.ForEach` | gnulib/hash.c:367-391 | every entry is visited, in the order of the buckets |
| `Dictionary.Dict.OneValue` | dt101/dict.c:79-90 | a key has at most one value |
| `Dictionary.Dict.Lookup` | dt101/dict.c:92-99 | the value of a key, if it has one |
| `Dictionary.Dict.AddEnt` | dt101/dict.c:101-123 | exactly the keys equal to the one given have the new value, all others keep theirs; the stored key becomes the one given exactly if it is new or asked for; it fails only for a new key, and only if the allocator refuses a request or the table is too large to grow, and then nothing changes |
| `Dictionary.Dict.Remove` | dt101/dict.c:145-173 | exactly the keys equal to the one given lose their value; the fields for the destructors |
| `Dictionary.Dict.GetKeys` | dt101/dict.c:184-208 | the keys of all entries, each entry exactly once, the last one visited first |
| `Dictionary.Dict.GetValues` | dt101/dict.c:184-214 | the values of all entries, likewise |
| `GetoptExchange.Exchange` | gnulib/getopt.c:130-183 | exactly the rotation that swaps two adjacent segments |
| `GetoptSpec.MeansOne` | gnulib/getopt.c:206-308 | a long option name means one thing: an exact match, or else the only option that it abbreviates |
| `GetoptSpec.Meaning` | gnulib/getopt.c:206-308 | what a name means; ambiguous exactly if another option must be told apart |
| `GetoptShapes.TwoAbbreviated` | gnulib/getopt.c:249-261 | an abbreviation of two options is not ambiguous exactly if they agree in all but the name and the mode is not long-only |
| `Getopt.FindLong` | gnulib/getopt.c:206-261 | the loops over the long options find that meaning |
| `Getopt.Parser.ProcessLongOption` | gnulib/getopt.c:185-376 | a long option with its argument, its errors, and the fallback to short options, as the outcome that `GetoptShapes.LongShapes` and `BadLong` describe |
| `Getopt.Parser.ShortOption` | gnulib/getopt.c:608-699 | a short option character, with a required or optional argument, as the outcome that `GetoptShapes.ShortShapes` and `BadLetter` describe |
| `GetoptScan.SplitPermutes` | gnulib/getopt.c:495-521 | at any time of a scan the arguments are a permutation of the original ones |
| `Getopt.SplitRotate` | gnulib/getopt.c:505-512 | after an exchange the options scanned come first, then the non-options, both in their order |
| `Getopt.Parser.Next` | gnulib/getopt.c:469-700 | one call: the next option of the original arguments with its argument, or -1 with the arguments partitioned and optind at the boundary |
| `Getopt.Run` | src/asm6809.c:94-96 | a whole run reports the options in their original order and ends with the stable partition, optind at the first non-option |
| `GetoptScan.OrderKept` | gnulib/getopt.c:396-408 | the arguments are not permuted in the other two orderings |
| `GetoptScan.SelectBoth` | gnulib/getopt.c:130-183 | options and non-options together are all arguments |
| `GetoptShapes.Signs` | gnulib/getopt.c:393-408 | a minus or plus in front of the option letters, or else POSIX mode, chooses the ordering |
| `GetoptShapes.LongShapes` | gnulib/getopt.c:332-376 | a long option with an attached argument, with its argument in the next element, with a missing one, with none, and with one that it does not take: code, argument, index, the value stored, the value of optopt, and where the scan goes on |
| `GetoptShapes.BadLong` | gnulib/getopt.c:273-330 | an unknown or ambiguous name is an error, unless it can be read as short options in the long-only mode |
| `GetoptShapes.ClusterStart` | gnulib/getopt.c:565-606 | which elements are read letter by letter |
| `GetoptShapes.ShortShapes` | gnulib/getopt.c:608-699 | an option letter without an argument, with an attached one, with one in the next element, with a missing one, and with an optional one |
| `GetoptShapes.BadLetter` | gnulib/getopt.c:618-624 | a letter that is no option letter is an error, and the letters after it follow |
| `GetoptShapes.OtherElements` | gnulib/getopt.c:518-563 | operands are skipped, end the scan, or are passed on, and the element of two dashes ends it |
| `GetoptRoundTrip.ReadBack` | gnulib/getopt.c:412-457 | a command line written with any allowed options, clusters of letters and operands, with arguments attached or separate, is read back: exactly these options in their order, each with its argument, and exactly the operands are left |
| `GetoptRoundTrip.RunWords` | src/asm6809.c:94-182 | the same for a whole run: the events are those of the words, and the arguments from optind on are the operands in their order |
| `AssembleTame.ProgramTame` | src/assemble.c:286-359 | a balanced program ends outside of macro definitions, with all macros balanced |
| `AssembleTame.ProgramStack` | src/assemble.c:517-562 | any program, balanced or not, ends with the stack of positional variables as it was |
| `AssembleBlocks.FlattenNested` | src/assemble.c:368-446 | the lines of nested blocks have properly nested conditions |
| `AssembleBlocks.Excluded` | src/assemble.c:368-446 | excluded code with properly nested conditions has no effect, and leaves the conditions as they were; after the branch of a block, ELSE and ELSIF outside of nested blocks have none either |
| `AssembleExact.ExcludedExactly` | src/assemble.c:368-446 | code that a block excludes is only counted exactly if its conditions are properly nested; ELSE and ELSIF may stand outside of nested blocks exactly if the block has had a branch, but no ELSE |
| `AssembleExact.DefinitionExactly` | src/assemble.c:326-446 | an excluded macro definition is only counted exactly if the conditions in its body are properly nested |
| `AssembleFlat.SkipRest` | src/assemble.c:388-441 | after a branch has been assembled, the rest of its block is skipped without evaluating a condition |
| `AssembleFlat.Captured` | src/assemble.c:326-359 | lines are captured up to the matching ENDM |
| `AssembleFlat.DefinesMacro` | src/assemble.c:978-1022 | a new macro has exactly the lines between MACRO and ENDM that are not blank, nested definitions included |
| `AssembleFlat.Structured` | src/assemble.c:297-446 | the flat loop assembles exactly the lines, and evaluates exactly the conditions, of the nested blocks, in the same order; demands are made only of the code that is reached |
| `AssembleProper.WellFormedProper` | src/assemble.c:297-446 | well-formed blocks meet these demands whichever conditions hold, and leave macros balanced |
| `AssembleFlat.ProgramMeaning` | src/assemble.c:286-576 | the assembly of a program of nested blocks is its meaning |
| `AssembleFlat.SelfExpanding` | src/assemble.c:289-292 | a macro that expands itself ends at the depth limit, with the stack restored |
| `AssembleLaws.CallMeaning` | src/assemble.c:550-558 | a call of a macro made of nested blocks is assembled as their meaning, from the world in which the evaluated arguments are on top of the positional variables; these are as before at the end |
| `AssembleLaws.CallTests` | src/assemble.c:550-558 | a condition in a macro is evaluated with the arguments of the call on top, and decides whether the line after it is assembled |
| `AssembleLaws.IncludeMeaning` | src/assemble.c:937-953 | an included file of nested blocks is assembled as their meaning |
| `AssembleLaws.NothingEntered` | src/assemble.c:550-560 | unknown macros, missing files and programs that are too deep: the error is all that happens |
| `AssembleLaws.DefinesNew` | src/assemble.c:326-359 | a definition of a new macro: the macro is there, and nothing is reported |
| `AssembleLaws.DefinesNothing` | src/assemble.c:978-1000 | a definition of a macro that is known from an earlier pass changes and reports nothing; one of the same pass, or without a name, reports one error at its header and changes nothing |
| `AssembleLaws.Unended` | src/program.c:158-171 | a definition without its ENDM: the macro has the lines so far, and the program ends with an error |
| `AssembleLaws.BlockChosen` | src/assemble.c:368-446 | a program of an IF, ELSIF and ELSE branch, event by event: each condition sees what happened before it, and the first that holds decides |
| `AssembleLaws.RepeatedDivider` | src/assemble.c:388-430 | ELSE and ELSIF in a block are an error exactly if the block is in its ELSE |
| `AssembleLaws.LooseDivider` | src/assemble.c:388-438 | ELSE, ELSIF and ENDIF outside of all blocks are errors |
| `AssembleLaws.BadElsif` | src/assemble.c:398-403 | an ELSIF that is reached without exactly one argument is an error, and code stays excluded |
| `AssembleLaws.EachLine` | src/assemble.c:319-366 | blank and ignored lines, plain lines, and an ENDM without its MACRO |
| `AssembleProper.HeaderOpens` | src/assemble.c:370-386 | an IF opens a block exactly if it has one argument or is excluded |
| `AssembleProper.BadBlock` | src/assemble.c:370-441 | a block whose IF has not exactly one argument: its first branch is assembled within the enclosing block, and the line after it fails exactly if there is no enclosing block, and otherwise ends or continues that one, unless it is an ELSE or ELSIF and that block is past its ELSE |
| `AssembleFlat.IfWithoutArgument` | src/assemble.c:370-386 | a program in which the ENDIF of such an IF fails |
| `AssembleFlat.OpenIfInMacro` | src/assemble.c:326-346 | a program in which an open IF in an excluded macro definition swallows the ENDIF of the block |
| `Assemble.Assembler.HandleMacro` | src/assemble.c:326-359 | the macro part of the loop, as the step about which `AssembleLaws.DefinesNew` and `DefinesNothing` are proved |
| `Assemble.Assembler.HandleCondition` | src/assemble.c:368-446 | the conditional part of the loop, with its list and its exclusion |
| `Assemble.Assembler.AssembleProg` | src/assemble.c:286-576 | the loop, recursive through macros and included files: it ends, restores the depth and the stack, and assembles the program as the specification does, about which the laws of macro calls, inclusions, definitions and blocks are proved |
| `SlistModel.MergedSorted` | dt101/slist.c:133-160 | merging sorted lists gives a sorted list |
| `SlistModel.SortSorts` | dt101/slist.c:162-187 | sorting gives a sorted permutation |
| `SlistModel.SortTwo` | dt101/slist.c:138-150 | two elements change places exactly if the first one compares greater |
| `SlistStable.SortOrder` | dt101/slist.c:162-187 | of two elements, the one that compares less comes first, and of equal ones that whose index is dealt to the first half earlier |
| `SlistStable.StableExactly` | dt101/slist.c:162-187 | equal elements keep their order exactly if each two of them are at indices that are dealt out in their order |
| `SlistStable.NotStable` | dt101/slist.c:170-182 | three elements that compare equal, and do not keep their order |
| `Slist.Merge` | dt101/slist.c:133-160 | merges in place, with the nodes of both lists |
| `Slist.Split` | dt101/slist.c:169-183 | deals the nodes out in turn |
| `Slist.SortList` | dt101/slist.c:162-187 | sorts in place: an acyclic list of the same nodes, in the order that the specification gives |
| `SlistEdit.Reverse` | dt101/slist.c:121-131 | reverses in place |
| `SlistEdit.ReversedAt` | dt101/slist.c:121-131 | the element at an index of a reversed list |
| `SlistEdit.Concat` | dt101/slist.c:189-202 | attaches a list to another one |
| `SlistEdit.InsertBefore` | dt101/slist.c:39-54 | inserts before a position, or at the end; what is no node of the list is then linked to, unless the list is empty; nothing changes exactly if the allocator refuses the node |
| `SlistEdit.Remove` | dt101/slist.c:56-68 | removes the first element with the given data |
| `Memchr.WordTest` | gnulib/memchr.c:112-151 | the bit test on a word succeeds exactly if one of its bytes is c, in either byte order |
| `Memchr.Masks` | gnulib/memchr.c:89-108 | the masks have one and c in every byte |
| `Memchr.SkipWords` | gnulib/memchr.c:142-152 | words without the byte are passed; only aligned words are loaded |
| `Memchr.Find` | gnulib/memchr.c:58-169 | the first byte of n that is c, or NULL if there is none |
| `IntProps.AddExact` | gnulib/intprops.h:158-163 | the check for a sum is exact, and computes in range |
| `IntProps.SubtractExact` | gnulib/intprops.h:165-170 | the check for a difference is exact, and computes in range |
| `IntProps.NegateExact` | gnulib/intprops.h:172-177 | the check for a negation is exact |
| `IntProps.MultiplyExact` | gnulib/intprops.h:179-194 | the check for a product is exact, for any signed or unsigned range, with truncating division |
| `IntProps.MultiplySafe` | gnulib/intprops.h:179-194 | the quotients that it computes are in range |
| `IntProps.DivideExact` | gnulib/intprops.h:196-199 | the check for a quotient is exact |
| `IntProps.LengthSuffices` | gnulib/intprops.h:103-106 | 2^b is at most 10 to the power of the bound, for every b |
| `IntProps.DecimalFits` | gnulib/intprops.h:103-106 | no number of b bits needs more decimal digits than the bound |
| `IntLength.LengthTight` | gnulib/intprops.h:103-106 | for fewer than 2621 bits the bound is tight: the largest number of b bits has just that length |
| `IntLength.LengthLoose` | gnulib/intprops.h:103-106 | for 2621 bits it is not: it is too large by one |

## Left out

- `gl_tree_sortedlist_indexof_from_to` (gnulib/gl_anytree_list2.h:815-891).
- The comment at gnulib/gl_anyavltree_list1.h:65-69 speaks of F_(h+2) elements and height 84, the code has
  `MAXHEIGHT` 83; the bound that holds is F(h+2)-1, and it gives 83.
- The comment at gnulib/hash.c:518-523 says that the tuning check makes allocations grow as they should. With the
  detour by the growth threshold they need not (`HashSize.NotGrown`); `HashSize.GrowthExactly` says when they do.
- `gl_tree_get_at`, setting values, list sizes and the dispose functions of
  elements: they add only easy members.
- Hash tables of list elements (`WITH_HASHTABLE`) and obstacks: not compiled in.
- `hash_clear`, `hash_free`, `hash_get_entries`, a processor that stops `hash_do_for_each`, `hash_string`, statistics and printing.
- Tuning values are reals; rounding of floats is not modelled. The tuning is a value of the table, and may
  be any value when an operation starts.
- Destructors of keys and values in `dict.c`; the addresses of entries, and of the entries made for a search,
  are parameters, with the key that they are made with.
- HashSize.ComputeBucketSize: the quotient by the growth threshold is exact, while the code rounds it as a float.
- HashSize.RoomForCandidates: the threshold is a product of exact numbers, while the code rounds it as a float.
- HashWalk.NoGrowthYet: likewise, the threshold is not rounded.
- HashSize.GrowthSizes: likewise, the product of size and factor is exact, while the code rounds it as a float.
- HashSize.ShrinkingSizes: likewise.
- HashSize.GrowthExactly: likewise.
- HashSize.ThresholdParts: likewise, the threshold is not rounded.
- HashWalk.InsertRun: likewise, the threshold is not rounded.
- Dictionary.Dict.AddEnt: the key that an address is made with stays the same while the dictionary lives, so
  that the reuse of the memory of a removed entry for another key is not modelled.
- The `W;` option letter of getopt, messages, and a caller that moves `optind` back between calls.
- `POSIXLY_CORRECT` is a parameter of the first call of the parser.
- Evaluation of expressions, symbols, sections, opcodes, output and listings: a line is its opcode class; what
  a condition or an argument is worth may depend on all events before it. Opcodes pasted from positional
  variables, and the arguments of ENDM, are not modelled.
- AssembleLaws.Unended: after such a program the model has no definition open, while the code keeps a pointer
  to one that it has freed (src/program.c is not part of this model otherwise).
- Slist.SortList: does not promise stability for all lists, because the code does not sort all of them stably
  (`SlistStable.StableExactly` says which).
- Long words of other than 8 bytes in `memchr`, and the checks for remainders and shifts in `intprops.h`.
- Error levels, file inclusion I/O, options, `interp.c` beyond its stack, and portability headers.
