# EVMS shell: a model of its list, its scanner, its queries and its wire format

The repository drives the EVMS storage engine from a command shell and passes object records on over a socket. This project
models the four parts of it that compute something, and proves what they are for.

* **The doubly linked list** (`DList*.dfy`, `MergeSort.dfy`). Control and link nodes are classes whose fields are relinked in
  place, as in `evms/dlist.c`. A ghost sequence of nodes and a ghost cursor say what the links spell out, and every operation
  is proved against them. `MergeSort` is the sort as a function on positions; `DListSort` relinks nodes in place and is proved
  equal to it, whatever the callback answers. `DListOps` says as functions what the operations make of a sequence of items,
  `DListActs` proves that the methods do that, and `DListRun` runs arbitrary programs on arbitrarily many lists at once.
* **The scanner** (`Scanner*.dfy`). `ScannerInput` and `ScannerToken` give the two automata as functions, with a termination
  measure for every input; the class in `Scanner.dfy` is the program with its variables and loops, proved equal to them.
  `ScannerExpansion`, `ScannerComments`, `ScannerMunch`, `ScannerPath` and `ScannerQuote` prove what the automata do, in terms
  of characters: what GetCharacter delivers of any text, and which words the tokens are.
* **The interpreter** (`TypedStack`, `Engine`, `Reachability`, `Filters`, `FilterMeaning`, `Units`, `Interpreter`,
  `CompleteEngines`). A typed stack on top of the list, the filters of a query, the search below a handle, and unit arithmetic.
  The engine is a map from handles to records in which nothing is built on itself. `FilterMeaning` says what every filter keeps
  in terms of the fields of the records and of chains of handles, and `DoQuery` shows exactly that.
* **The wire format and the private data of threads** (`Codec`, `CodecBuffers`, `PrivateData`). Encoding and decoding as
  functions on bytes, the packing and unpacking loops proved against them, and a chained hash table proved against a map.

What comes from outside is a parameter: whether `malloc` succeeds for a list node, how many input contexts fit in memory, the
callbacks of the list (functions that do not touch the list, but may remember things), the answers of the engine, the number of
the running thread, and what fresh memory holds. The sizes of the wire records (`evms/ReplacedStructs.h`, with the name length
of `inc/common.h` and the value type of `inc/options.h`) are parameters too, and so are the width of `size_t` and the sizes for
which memory can be had: what is proved holds for every choice of them.

## What the code does that one might not expect

* The width of the sublists in `SortList` is a 32-bit number that wraps around to 0 for more than 2^31 items; a round with width
  0 makes no progress. `DListSort.SortEndsExactly` and `DListSort.MergeRuns` prove both.
* `InsertObject` looks at the insertion mode only after it has made the node; an unknown mode frees the caller's item, and is
  accepted on an empty list.
* `ExclusiveInsertObject` leaves the caller's handle variable alone when the item is present already.
* In a nested comment the `/` that closes an inner comment is looked at again, so the character behind it is swallowed, and a
  `*` there opens another comment. `ScannerComments.BodySkipped` counts these openings, and by
  `ScannerComments.CommentSkippedExactly` a comment is skipped as a whole if and only if there are none.
* A made-up `/` or `$` that was put back is lost when the text ends behind it, or goes on with a `/` or `$` that means something
  (`ScannerInput.PutBackDelivered`), and `SetInput` does not reset the flag for it.
* A `/` or `$` with nothing behind it is lost, so a path name that ends in a slash loses it at the end of the text:
  `ScannerPath.TrailingSlashLost`.
* `Scan_For_Regions` looks below the children of an object, but does not compare the children themselves with the region:
  `Filters.RegionFilterKeeps` says what it keeps, and `Filters.RegionFilterMissesDirectChild` exactly when that differs from what
  the object is built on.
* A tolerance larger than the size wraps the lower limit of the EQ filter around, and one that is too large the upper limit:
  `Interpreter.ToleranceIsRange`.
* An engine error equal to `DLIST_SEARCH_COMPLETE` would end a filter early without a word, and keep what it should remove:
  `Interpreter.SearchCompleteGoesUnnoticed`. `DoQuery` therefore asks that neither the engine nor a name lookup uses that number.
* The size of an operation or a task on the wire is computed in an `int`, and wraps around. A count of options that is too large,
  or below 0, can get through the check of the length, and the entry is taken over with that count from too few bytes:
  `Codec.WrappedCountAccepted` (for options of 524 bytes the count 8196503), `Codec.NegativeCountAccepted`. `Codec.AdvanceCanonical`
  says exactly for which bytes this does not happen, and `CodecBuffers.PutEntryExact` the same for packing.
* `MY_PACK_EVMS_OBJECT` forgets the length it was given once a basic record is packed and goes by `NET_BUFFER_LEN` instead:
  `CodecBuffers.PacksIfFits` and `CodecBuffers.PacksUnlessBetween` say when that makes a difference.
* `MY_UNPACK_EVMS_OBJECT` always expects a basic record, although `MY_PACK_EVMS_OBJECT` can leave it out:
  `Codec.ObjectRoundTrip` is an if-and-only-if.
* After `ClearNode` the zeroed slots of a thread stay used up, and they hide what is stored for handle 0 later:
  `PrivateData.PointsUsed`, `PrivateData.ZeroQueryExactly`.
* The branch of `Convert_Int` for times is never reached: `Units.TimesAreNotConverted`.

## Model

| member | source | states |
|---|---|---|
| DList.InsertObject | evms/dlist.c:266-485 | the new node stands where mode and reference item say, the current item stays on its node unless asked otherwise, and a failure changes nothing |
| DList.LinkFirst | evms/dlist.c:370-376 | the first item is first, last and current |
| DList.LinkByMode | evms/dlist.c:381-465 | the switch over the modes inserts at the position that the mode stands for |
| DList.InsertedWhere | evms/dlist.c:381-478 | at either end, or right in front of or right behind the reference item, and nothing else changes; the current item is the new one or what it was |
| DList.MakeCurrent | evms/dlist.c:473-478 | the cursor is on the new item |
| DList.LinkBefore | evms/dlist.c:383-420 | linking in front of an item gives the sequence with the node inserted there, with both ends and the count right |
| DList.LinkAfter | evms/dlist.c:421-458 | the same behind an item |
| DList.ChainedInsert | evms/dlist.c:383-458 | relinking two neighbours makes the longer sequence a chain in both directions |
| DList.ExclusiveInsertObject | evms/dlist.c:561-622 | nothing happens when the item is present already, otherwise an insertion |
| DList.Find | evms/dlist.c:600-611 | the walk along the chain ends at the first item that is equal, or at the end |
| DList.DeleteObject | evms/dlist.c:652-714 | the first item that is equal goes, and only that |
| DList.DeleteAllItems | evms/dlist.c:758-818 | the list is empty and every node released |
| DList.Lookup | evms/dlist.c:1344-1367 | a handle of another list is refused, no handle means the current item, an empty list has its own code |
| DList.GetObject | evms/dlist.c:883-963 | the item of that tag is returned, with the codes for an empty list, a foreign handle and a wrong tag |
| DList.BlindGetObject | evms/dlist.c:1026-1104 | the same without asking for a tag |
| DList.GetNextObject | evms/dlist.c:1156-1229 | the cursor moves on only if the next item has the tag |
| DList.ExtractObject | evms/dlist.c:1300-1437 | the item leaves the chain and the current item becomes its successor, else its predecessor, else none |
| DList.BlindExtractObject | evms/dlist.c:1506-1642 | the same without asking for a tag |
| DList.Unlink | evms/dlist.c:1375-1429 | removing a node from a chain gives the shorter chain, with count, ends and cursor right |
| DList.RemovedWhere | evms/dlist.c:1399-1421 | the current item stays, or else is the one behind the removed one, or else the one in front of it |
| DList.GiveUpPlaces | evms/dlist.c:1399-1421 | a removed node hands its place as first, last or current item to its neighbours |
| DList.Bypass | evms/dlist.c:1380-1397 | the neighbours are linked to each other |
| DList.ChainedRemove | evms/dlist.c:1380-1397 | bypassing a node makes the shorter sequence a chain in both directions |
| DList.ReplaceObject | evms/dlist.c:1714-1809 | data and tag of one item are exchanged, all others stay |
| DList.NextItem | evms/dlist.c:2211-2263 | the cursor moves on by one, or a code says why not |
| DList.PreviousItem | evms/dlist.c:2291-2342 | the cursor moves back by one, or a code says why not |
| DList.GoToStartOfList | evms/dlist.c:2366-2401 | the cursor is on the first item, if any |
| DList.GoToEndOfList | evms/dlist.c:2425-2459 | the cursor is on the last item, if any |
| DList.GoToSpecifiedItem | evms/dlist.c:2491-2539 | the cursor is on the item of the handle, or the handle is refused |
| MergeSort.MergeSorted | evms/dlist.c:2686-2767 | merging two stably sorted runs, the first from the left, is stably sorted |
| MergeSort.PassSorted | evms/dlist.c:2659-2798 | a sweep over sorted runs of one width leaves sorted runs of twice the width |
| MergeSort.SortCorrect | evms/dlist.c:2641-2809 | for a total preorder the bottom-up merge sort is a stably sorted permutation |
| MergeSort.StablySortedUnique | evms/dlist.c:2641-2809 | there is only one stably sorted order, so the sort computes it |
| MergeSort.TrySortPermutes | evms/dlist.c:2641-2809 | whatever the callback answers, errors included, no item is lost or doubled |
| MergeSort.SortStops | evms/dlist.c:2690-2706 | the sort hands back the first error that the callback reports, and makes no call after it |
| MergeSort.TrySortDecided | evms/dlist.c:2641-2809 | with a callback that does not fail the outcome is that of the merge sort |
| DListSort.CallCompare | evms/dlist.c:2690-2701 | at every call of the callback, whatever it answered before, the list is fully linked, counted, holds the original nodes and keeps its current item |
| DListSort.CutOut | evms/dlist.c:2715-2730 | the node of object 2 is bypassed and the end of the list is right |
| DListSort.PutBefore | evms/dlist.c:2734-2748 | the node is linked in front of object 1 |
| DListSort.Advance | evms/dlist.c:2676-2683 | the walk over a run ends behind it or at the end of the list |
| DListSort.MoveInFront | evms/dlist.c:2708-2754 | the node of object 2 moves in front of object 1 by relinking, and the list stays a list |
| DListSort.MergeStep | evms/dlist.c:2686-2767 | one comparison does to the list what one step of merging does to the sequence, or ends it with its error |
| DListSort.MergeAdvances | evms/dlist.c:2703-2767 | what is left to be merged after a step goes on where the step ends |
| DListSort.MergeLoop | evms/dlist.c:2686-2767 | merging two runs in place is merging them as sequences, with the same calls and the same error |
| DListSort.MergeRuns | evms/dlist.c:2666-2798 | one round merges two runs and steps over both; with width 0 it stands still |
| DListSort.MergePass | evms/dlist.c:2659-2798 | one sweep is the sweep of the merge sort, up to the first error, with at most one comparison for each item |
| DListSort.SortRound | evms/dlist.c:2659-2802 | a round sweeps once and doubles the width, which stays below the wrap-around |
| DListSort.WidthWraps | evms/dlist.c:2800-2803 | after p doublings the 32-bit width is 2^p for p < 32 and 0 from then on |
| DListSort.SortEndsExactly | evms/dlist.c:2654-2803 | the doubling width reaches the number of items if and only if there are at most 2^31 of them |
| DListSort.SortPasses | evms/dlist.c:2654-2803 | the number of sweeps is the least p with 2^p at least n, and at most n * p comparisons are made |
| DListSort.SortList | evms/dlist.c:2603-2809 | order, code and number of calls are those of the merge sort on what the callback answers; the same nodes, sorted and stable for a total preorder without errors, and the current item kept |
| DListTraverse.ForEachItem | evms/dlist.c:2893-2987 | the callback gets the items one by one in the direction asked for until it reports an error or the end of the search |
| DListTraverse.FoldStops | evms/dlist.c:2893-2987 | the items are handed over one by one up to the first code other than 0, which is reported; 255 ends the search and is reported as 0 |
| DListTraverse.PruneLinks | evms/dlist.c:3160-3190 | the node is bypassed on both sides |
| DListTraverse.PruneStep | evms/dlist.c:3142-3275 | one round kills or passes over, and ends the traversal for an error or the end of the search |
| DListTraverse.PruneLoop | evms/dlist.c:3142-3275 | the loop ends with exactly the survivors that the answers of the callback leave |
| DListTraverse.PruneNode | evms/dlist.c:3160-3246 | a killed item is unlinked and the traversal goes on behind it |
| DListTraverse.PruneCount | evms/dlist.c:3195-3235 | a killed node hands its place as the current item to its successor, else to its predecessor, and is counted out |
| DListTraverse.KeptUnmark | evms/dlist.c:3142-3275 | killing one more item removes exactly it from the survivors |
| DListTraverse.CursorUnmark | evms/dlist.c:3195-3215 | moving the cursor at each kill ends where the final rule says |
| DListTraverse.PruneList | evms/dlist.c:3081-3280 | the killed items vanish, all others and the unvisited rest keep their order, every item is asked about once in order |
| DListTraverse.CursorOnNextSurvivor | evms/dlist.c:3195-3215 | the current item is then the first survivor at or after the old one |
| DListTraverse.CursorOnLastSurvivor | evms/dlist.c:3195-3215 | else it is the last survivor |
| DListTraverse.CursorWithoutSurvivor | evms/dlist.c:3195-3215 | else there is none |
| DListTraverse.PruneIsFilter | evms/dlist.c:3142-3278 | a callback that depends on the item alone and reports no error makes pruning a filter |
| DListTraverse.PruneStops | evms/dlist.c:3081-3280 | condemned items are killed up to the first code other than 0; the item with that code is killed only with 255, and everything behind it is kept |
| DListMerge.AppendList | evms/dlist.c:3314-3427 | the target holds its items and then those of the source, the source is empty |
| DListMerge.SwapControl | evms/dlist.c:3375-3387 | an empty target trades contents with the source and adopts the nodes |
| DListMerge.Concatenate | evms/dlist.c:3389-3421 | the chain of the source goes behind that of the target |
| DListMerge.JoinChains | evms/dlist.c:3395-3402 | the last node and the first node are linked to each other |
| DListMerge.Adopt | evms/dlist.c:3418-3421 | every node gets the target as owner |
| DListMerge.BuildCopy | evms/dlist.c:3534-3562 | a temporary list of new nodes with the same items, or none if an allocation fails |
| DListMerge.LinkChain | evms/dlist.c:3582-3625 | a chain is linked in between two neighbours or at an end |
| DListMerge.ChainedSplice | evms/dlist.c:3582-3625 | a chain linked into another one at its ends makes one chain |
| DListMerge.SpliceCopy | evms/dlist.c:3566-3629 | the copied chain goes in at the place of the mode, and the current item stays on its node |
| DListMerge.CopiedWhere | evms/dlist.c:3566-3629 | the copies are at either end, or right in front of or right behind the current item, which stays current |
| DListMerge.CopyList | evms/dlist.c:3461-3634 | all or nothing: fresh nodes with the same items are spliced in, also when a list is copied into itself; a failed allocation changes nothing |
| DListOps.ExtractUndoesInsert | evms/dlist.c:266-1437 | extracting by the handle that an insertion returned gives the item back and restores the list |
| DListOps.SortSortsItems | evms/dlist.c:2641-2809 | for a callback that goes by a total preorder of the items the items are sorted, and equal ones keep their order |
| DListActs.Act | evms/dlist.c:266-3634 | every operation turns the list, as a sequence of handles and items with a current one, into what its meaning says, reports what it says, and loses track of no node |
| DListActs.SortedView | evms/dlist.c:2641-2809 | relinked nodes and a current item that was kept are the sorted sequence with its cursor |
| DListActs.ItemsKept | evms/dlist.c:3142-3275 | the items of the surviving nodes are the surviving items |
| DListRun.ListWorld.Perform | evms/dlist.c:266-3634 | one operation on one list is what its meaning says, leaves all other lists and their items alone, makes new nodes only, and keeps all lists disjoint and all owner fields true |
| DListRun.ListWorld.Append | evms/dlist.c:3314-3427 | so does appending one list to another |
| DListRun.ListWorld.Create | evms/dlist.c:159-192 | a new list is empty and joins the others, or there is none when memory cannot be had |
| DListRun.ListWorld.Execute | evms/dlist.c:266-3634 | one command of a program makes of all lists, items included, what a function of the lists, the command and the new nodes says, and replies that |
| DListRun.ListWorld.OwnersRestored | evms/dlist.c:360-364 | owner fields are true again after an operation on one list |
| DListRun.ListWorld.Run | evms/dlist.c:266-3634 | over any run of any operations on several lists every list refines a sequence of items with a cursor, lists share no node, and every list and every reply is what the commands so far say |
| DListRun.RunDetermined | evms/dlist.c:266-3634 | two runs of a program that start with the same lists and make the same nodes agree in every list and every reply |
| ScannerInput.FetchUsesUp | evms/scanner.c:1211-1300 | every character read is paid for by the measure on the context stack |
| ScannerInput.StepUsesUp | evms/scanner.c:1398-1697 | every pass through the switch of GetCharacter makes the measure smaller, substitutions included |
| ScannerInput.ScanAhead | evms/scanner.c:1398-1697 | a whole call never has more ahead than before |
| ScannerInput.GetCoherent | evms/scanner.c:1398-1440 | a delivered character that was not made up is the last one read |
| ScannerInput.GetAhead | evms/scanner.c:1398-1440 | a call uses up what is ahead unless it repeats the character put back or finds the end |
| ScannerInput.PutBackDelivered | evms/scanner.c:1398-1443 | a character put back is delivered again; when the one read last means something to the scanner, the call is the one without putting back |
| ScannerComments.BodySkipped | evms/scanner.c:1444-1505 | scanning the body of a comment to its closing mark uses up exactly these characters, closes one comment and opens one for each inner closing mark with a `*` behind it |
| ScannerComments.PieceSkipped | evms/scanner.c:1444-1505 | inside a comment an ordinary character, the end of a line, a `*` that ends nothing and a `/` with the character behind it are passed over |
| ScannerComments.CommentSkipped | evms/scanner.c:1444-1505 | a balanced comment of any depth without such a `*` is skipped as a whole by one call |
| ScannerComments.CommentSkippedExactly | evms/scanner.c:1444-1505 | in front of plain text a balanced comment is skipped if and only if there is no such `*`, and otherwise the rest of the text is lost |
| ScannerComments.Resumes | evms/scanner.c:1476-1505 | the character right behind a nested comment is swallowed, and counts as an opening if and only if it is a `*` |
| ScannerExpansion.CommandReplaced | evms/scanner.c:1506-1691 | a call at a command gives what it would give with the parameter in its place |
| ScannerExpansion.CommandRefused | evms/scanner.c:1584-1691 | otherwise the input ends: no parameter of that number, the text that the command stands in, or no memory |
| ScannerExpansion.UnclosedCommand | evms/scanner.c:1527-1583 | the input ends as well when digits and spaces are not followed by the closing parenthesis |
| ScannerExpansion.Digits | evms/scanner.c:1545-1583 | the digits are read one after the other, then spaces, and a closing parenthesis leads to the substitution, anything else to the end |
| ScannerExpansion.ValueIsDecimal | evms/scanner.c:1545-1559 | the digits of a command are a decimal number, modulo 2^32 |
| ScannerExpansion.NumberFree | evms/scanner.c:1393-1395 | the number of an earlier command plays no role |
| ScannerExpansion.MarkDelivered | evms/scanner.c:1455-1526 | a `/` without a `*` behind it, or a `$` without a `(`, is delivered and the input stands right behind it; with nothing behind it the input ends |
| ScannerExpansion.MarkThenNext | evms/scanner.c:1455-1459 | two calls deliver such a `/` or `$` and the ordinary character behind it, and what is left is the text behind that |
| ScannerExpansion.ReplacementUsesUp | evms/scanner.c:1643-1662 | replacing a command makes the measure smaller |
| ScannerExpansion.NextDelivered | evms/scanner.c:1211-1300 | one call delivers the first character of the pending expansion, or the end |
| ScannerExpansion.ExpansionDelivered | evms/scanner.c:1506-1691 | repeated calls deliver exactly the recursive expansion of any text, without comments and ends of lines, and then 0 for ever |
| ScannerToken.GetToken | evms/scanner.c:449-1086 | a call ends for every input with a token and leaves the scanner in order; what the token is say the rows of ScannerMunch, ScannerPath and ScannerQuote |
| ScannerToken.LexStepUsesUp | evms/scanner.c:456-1084 | every pass through the switch uses up input or comes closer to a token |
| ScannerToken.GetTokenSettles | evms/scanner.c:456-1084 | a call ends between two tokens, never has more ahead than before, and its text has at most 256 characters |
| ScannerToken.GetTokenProgress | evms/scanner.c:456-1084 | a call consumes at least one pending character or reports the end or an invalid character |
| ScannerToken.EofForever | evms/scanner.c:1058-1070 | once the end was reported it is reported for ever |
| ScannerToken.Tokens | evms/scanner.c:449-1086 | the tokens of any text are finitely many, and only the last reports the end or an invalid character |
| ScannerMunch.PlainGet | evms/scanner.c:1398-1440 | on plain text a call delivers the next character, and putting it back undoes the call |
| ScannerMunch.Munched | evms/scanner.c:456-1084 | from every state in the middle of a token the automaton takes the longest continuation |
| ScannerMunch.AgreeAll | evms/scanner.c:456-1084 | on every character the automaton and the languages of the tokens agree |
| ScannerMunch.WordCons | evms/scanner.c:497-576 | the first character decides what a token can be |
| ScannerMunch.LongestMatch | evms/scanner.c:449-1086 | maximal munch: the token is the longest word its state allows, of classes of characters that are spelled out, and of one kind only; the state behind it is that of its kind and the next character; an invalid character means there is no such word |
| ScannerMunch.TokenFollowed | evms/scanner.c:637-1056 | behind a number comes a keyword at once if a letter follows, behind a number or a keyword else a separator, behind all others anything |
| ScannerMunch.TokensAreTheText | evms/scanner.c:449-1086 | the words of the tokens, concatenated, are the consumed text: nothing is lost or doubled |
| ScannerPath.PathNameToken | evms/scanner.c:829-906 | when the characters delivered are those of a path name and one that ends it, one call gives the String token of the path name, cut off at 256 characters, and puts that character back |
| ScannerPath.PathNameScanned | evms/scanner.c:829-906 | so it is for a path name in a text that is not followed by a `$`, and whose last slash starts no comment; what is left is the text behind |
| ScannerPath.TrailingSlashLost | evms/scanner.c:1460-1475 | at the end of the text a slash at the end of a path name is lost |
| ScannerQuote.StringKept | evms/scanner.c:908-956 | inside quotes every character is kept, with one quote mark for two |
| ScannerQuote.QuotedChar | evms/scanner.c:908-956 | one character inside a string is kept, and a quote mark only behind another one |
| ScannerQuote.StringClosed | evms/scanner.c:922-934 | a quote mark followed by anything else ends the string and puts that back |
| ScannerQuote.QuotedString | evms/scanner.c:482-494 | the quoting round trip: a string with its quote marks doubled and put in quotes scans to one token with that text |
| ScannerQuote.UnclosedString | evms/scanner.c:908-956 | a string that is not closed before the end of the text is taken as if it were |
| ScannerMachine.Scanner.constructor | evms/scanner.c:229-245 | the scanner before its first input is between two tokens |
| ScannerMachine.Scanner.SetInput | evms/scanner.c:327-379 | the text is the only context, the buffer is clear, and everything but the pending injection starts over |
| ScannerMachine.Scanner.ReadCharacter | evms/scanner.c:1211-1300 | the loop over contexts and newlines reads the character that the recursive definition gives |
| ScannerMachine.Scanner.SwitchNormal | evms/scanner.c:1403-1443 | the states that return a character, as the function has them |
| ScannerMachine.Scanner.SwitchComment | evms/scanner.c:1444-1505 | the states of a comment, and the counter does not go below 0 |
| ScannerMachine.Scanner.SwitchSubstitution | evms/scanner.c:1506-1583 | the states of a command, up to its number |
| ScannerMachine.Scanner.Substitute | evms/scanner.c:1584-1691 | the parameter becomes the current context, unless it is that already or memory is short |
| ScannerMachine.Scanner.SwitchOnce | evms/scanner.c:1401-1697 | one pass either returns or leaves as much to deliver as before, closer to the end |
| ScannerMachine.Scanner.GetCharacter | evms/scanner.c:1353-1699 | the loop around the switch computes the function |
| ScannerMachine.Scanner.KeepCharacter | evms/scanner.c:1702-1716 | the character is stored while there is room, and the cells behind stay 0 |
| ScannerMachine.Scanner.MakeToken | evms/scanner.c:1120-1186 | the text moves to the token and its cells are cleared |
| ScannerMachine.Scanner.SwitchStart | evms/scanner.c:458-585 | the start of a token |
| ScannerMachine.Scanner.SwitchSign | evms/scanner.c:587-635 | behind a sign |
| ScannerMachine.Scanner.SwitchNumber | evms/scanner.c:637-725 | inside a number |
| ScannerMachine.Scanner.SwitchSeparator | evms/scanner.c:727-797 | behind a word |
| ScannerMachine.Scanner.SwitchWord | evms/scanner.c:829-906 | inside a keyword or a path name |
| ScannerMachine.Scanner.SwitchString | evms/scanner.c:908-956 | inside a quoted string |
| ScannerMachine.Scanner.SwitchRun | evms/scanner.c:958-1056 | inside a run of spaces or tabs |
| ScannerMachine.Scanner.Look | evms/scanner.c:587-1056 | a state reads a character and does what the function says |
| ScannerMachine.Scanner.Switch | evms/scanner.c:456-1082 | one pass hands out the token of the function or goes on as it does |
| ScannerMachine.Scanner.GetToken | evms/scanner.c:449-1086 | the loop around the switch computes the function, ends between two tokens, and keeps the buffer in bounds and clear behind the position |
| TypedStack.Push | evms/interpreter.c:476-517 | the cell is on top with its tag |
| TypedStack.Pop | evms/interpreter.c:453-474 | the top cell is taken if it has the tag, and the program ends otherwise |
| TypedStack.Peek | evms/interpreter.c:519-538 | the tag on top, with the stack as it was |
| Reachability.CheckDecidesReachability | evms/interpreter.c:6572-6611 | without an error the early-exit search fails if and only if no path leads to what is looked for; there is an error only if a record on the way is unknown |
| Reachability.Witness | evms/interpreter.c:6593-6604 | a search that stops early has found a path |
| Reachability.NoPath | evms/interpreter.c:6588-6604 | a search that comes back empty-handed excludes every path |
| Reachability.DiskReachable | evms/interpreter.c:6572-6611 | for a disk that is a path of one or more child edges |
| Reachability.CheckChildForDisk | evms/interpreter.c:6572-6611 | the loop with recursion ends on every layered engine and computes the search |
| Reachability.CheckChildForRegion | evms/interpreter.c:6614-6670 | the same for regions, below objects and regions only |
| Reachability.CheckChildForContainer | evms/interpreter.c:6748-6802 | the same for containers, and for storage records that the container produced |
| Filters.DiskFilterKeeps | evms/interpreter.c:5859-5934 | the disk filter keeps exactly the segments built on the disk, and of the disks that disk |
| Filters.ContainerFilterOnVolumes | evms/interpreter.c:5493-5584 | the container filter keeps exactly the volumes below which the container is found |
| Filters.RegionFilterKeeps | evms/interpreter.c:5671-5691 | without an error the region filter kills an object if and only if it is another one and the region is not found below any of its children |
| Filters.RegionReachable | evms/interpreter.c:6614-6670 | a region is found below an object if and only if it is one of its children or found below one |
| Filters.RegionFilterMissesDirectChild | evms/interpreter.c:5671-5691 | the filter disagrees with what the object is built on if and only if the region is a child of it and not found below any child |
| Filters.DirectChildIsKilled | evms/interpreter.c:5671-5691 | such as an object whose only child is the region |
| Filters.ScanForDisksLoop | evms/interpreter.c:5859-5934 | the loop over the children of a segment computes the verdict |
| FilterMeaning.DiskSpelled | evms/interpreter.c:6573-6611 | the search for a disk goes by chains of one or more children of storage records |
| FilterMeaning.RegionSpelled | evms/interpreter.c:6615-6670 | that for a region by such chains through objects and regions only |
| FilterMeaning.ContainerSpelled | evms/interpreter.c:6749-6802 | that for a container by chains that end at the container or at a storage record it produced |
| FilterMeaning.SegmentSearchDecides | evms/interpreter.c:6674-6745 | without an error that for a segment finds it at the end of a chain of children of objects and of what containers consume, or where the search for regions finds it |
| FilterMeaning.VolumeFilterKeeps | evms/interpreter.c:5028-5107 | what the volume filter keeps, in fields of the records |
| FilterMeaning.PluginFilterKeeps | evms/interpreter.c:5208-5307 | the plugin filter |
| FilterMeaning.ObjectFilterKeeps | evms/interpreter.c:5346-5453 | the object filter: also the regions and segments that the object is built on |
| FilterMeaning.ContainerFilterKeeps | evms/interpreter.c:5494-5584 | the container filter: a volume exactly when a chain of children from its object ends at the container or at what the container produced |
| FilterMeaning.RegionFilterKeepsAll | evms/interpreter.c:5627-5717 | the region filter on records of every kind |
| FilterMeaning.DiskFilterKeepsAll | evms/interpreter.c:5860-5934 | the disk filter on records of every kind |
| FilterMeaning.SegmentFilterKeeps | evms/interpreter.c:5970-6064 | the segment filter |
| FilterMeaning.TypeFilterKeeps | evms/interpreter.c:5775-5826 | the filter by the type of a plugin; associative features count as features |
| FilterMeaning.SizeFilterKeeps | evms/interpreter.c:6169-6282 | the size filters compare the number of bytes, 512 times the size, as a 64-bit number |
| Interpreter.Interpreter.DoUnitConversion | evms/interpreter.c:2743-2790 | the number on the stack is replaced by the converted one, or taken off for an unknown unit |
| Interpreter.Interpreter.DoIntegerData | evms/interpreter.c:2432-2445 | the number with its unit is on the stack |
| Interpreter.Interpreter.ProcessUnits | evms/interpreter.c:2440-2442 | the unit below a number is applied to it |
| Interpreter.Interpreter.DoPrecision | evms/interpreter.c:2448-2484 | the tolerance and whether it has no unit are on the stack |
| Interpreter.Interpreter.ProcessOperand | evms/interpreter.c:591-620 | an operand leaves its cells on the stack or fails with its code |
| Interpreter.Interpreter.ProcessOperands | evms/interpreter.c:5009-5010 | the operands leave their cells one on top of the other, or the first failure counts |
| Interpreter.Interpreter.TakeMask | evms/interpreter.c:5757-5758 | the type mask comes off the stack |
| Interpreter.Interpreter.TakeHandle | evms/interpreter.c:5310-5343 | the operand of a handle filter comes off the stack and its record is looked up |
| Interpreter.Interpreter.TakeSizes | evms/interpreter.c:6093-6147 | the operands of a size filter come off the stack in the right order and give the limits |
| Interpreter.Interpreter.EvaluateOperands | evms/interpreter.c:5006-5013 | the operands of a filter are evaluated and taken off the stack, and there is an error exactly when one of them fails |
| Interpreter.SizeCriterionIs | evms/interpreter.c:6093-6147 | GT and LT compare with the bytes of the operand, EQ with the range that the tolerance makes of them |
| Interpreter.FilterShows | evms/interpreter.c:4999-6306 | a scan without an error condemns a record exactly when the filter does not show it, said about its operands and the fields of the record |
| Interpreter.Interpreter.PruneBy | evms/interpreter.c:5015-5016 | a scan succeeds if and only if every record is judged without an error, and then keeps exactly the records that pass, in their order |
| Interpreter.Interpreter.DoFilter | evms/interpreter.c:4999-6165 | a filter succeeds if and only if its operands can be evaluated and every record is judged without an error; then the stack is as it was and the list thinned out by the criterion |
| Interpreter.Interpreter.PruneAndPush | evms/interpreter.c:5015-5020 | the list goes back on the stack only if the scan succeeded |
| Interpreter.Interpreter.ProcessFilters | evms/interpreter.c:3178-3180 | all filters one after the other leave the records that all of them show; they succeed if and only if each of them does on what is left |
| Interpreter.Interpreter.FillList | evms/interpreter.c:3150-3170 | the list holds the records of all handles in order, or the failure is reported |
| Interpreter.Interpreter.Show | evms/interpreter.c:3186-3188 | every record of the list is shown, in order |
| Interpreter.Interpreter.DoQuery | evms/interpreter.c:3115-3202 | a query succeeds if and only if its candidates are known and all filters run without an error; then the stack is as it was and it shows, of the handles of the answer in turn, exactly the records that every filter shows; otherwise it shows nothing |
| Interpreter.SelectedMembers | evms/interpreter.c:3172-3191 | a record is selected if and only if it is a candidate and every filter shows it |
| Interpreter.ChosenMembers | evms/interpreter.c:3115-3202 | the record of a handle is shown if and only if every filter shows it |
| Interpreter.ChosenByNone | evms/interpreter.c:3150-3188 | without filters record k of the outcome is that of handle k |
| Interpreter.ChosenBySize | evms/interpreter.c:6169-6306 | a GT (LT) query shows a record that is no plugin if and only if 512 times its size modulo 2^64 is greater (less) than the bytes of the operand |
| CompleteEngines.QueriesSucceed | evms/interpreter.c:3115-3202 | in an engine that knows every handle in its records a query fails only for what it is given: names, units, handles |
| CompleteEngines.ScanSucceeds | evms/interpreter.c:5028-6282 | there no scan of a known record fails |
| Interpreter.OrderIrrelevant | evms/interpreter.c:3172-3191 | the order of the criteria makes no difference to what passes |
| Interpreter.FilterOrderIrrelevant | evms/interpreter.c:3172-3191 | the order of the filters of a query makes no difference to what it shows, nor does giving one twice |
| Interpreter.PassingTwice | evms/interpreter.c:3172-3191 | filtering twice is filtering by both criteria |
| Interpreter.PruneSucceeds | evms/dlist.c:3142-3278 | a pruning that reports success has judged every record without error |
| Interpreter.SearchCompleteGoesUnnoticed | evms/interpreter.c:5063-5064 | with an engine error of the number of an early end a filter reports success and keeps a record that it condemns and that does not pass |
| Interpreter.ToleranceIsRange | evms/interpreter.c:6125-6137 | the EQ filter accepts exactly the sizes within the tolerance if and only if the tolerance is at most the size and their sum is below 2^64 |
| Interpreter.ToleranceInPercent | evms/interpreter.c:6126-6129 | a tolerance without unit is a percentage, rounded down |
| Interpreter.SectorsComeBack | evms/interpreter.c:1429-1431 | the sectors of an option are those of the records |
| Units.BytesAreExact | evms/interpreter.c:2756-2768 | the number of bytes is right if and only if the product fits in 63 bits |
| Units.SizesCompose | evms/interpreter.c:1403-1438 | the two conversions come to the product divided by the target factor, truncated toward zero |
| Units.SizesByPowers | evms/interpreter.c:1403-1438 | a kilobyte is 1024 bytes and every further unit 1024 of the one before, for the number as for the option: the number comes out times a power of 1024, or divided by one and truncated |
| Units.SameUnitUnchanged | evms/interpreter.c:1403-1438 | a size for an option of the same unit comes back unchanged as long as its bytes fit |
| Units.SectorsOption | evms/interpreter.c:1429-1431 | two sectors are a kilobyte |
| Units.SizesElsewhere | evms/interpreter.c:1403-1461 | a size for an option of any other unit ends the program; without a unit the number is kept |
| Units.SizesExact | evms/interpreter.c:1403-1438 | exact whenever the target factor divides the source factor |
| Units.SizesMonotone | evms/interpreter.c:1403-1438 | monotone in the number |
| Units.TimesAreNotConverted | evms/interpreter.c:1440-1461 | a time reaches an option only in microseconds; otherwise the program ends |
| Units.TimesByRatio | evms/interpreter.c:2743-2790 | an hour is 60 minutes, a minute 60 seconds, a second 1000 milliseconds and a millisecond 1000 microseconds |
| Units.UnknownUnit | evms/interpreter.c:2783-2790 | exactly an unknown unit gives no number |
| Codec.IntRoundTrip | evms/ConvertStructs.c:252-254 | an integer survives encoding and decoding |
| Codec.IntCanonical | evms/RevertStructs.c:191-192 | and bytes survive decoding and encoding |
| Codec.BlocksRoundTrip | evms/RevertStructs.c:290-292 | options of equal size are cut apart as they were joined |
| Codec.EntryRoundTrip | evms/RevertStructs.c:282-293 | an operation or a task is read back as it was, or the program ends because there is no memory for it |
| Codec.EntryCanonical | evms/RevertStructs.c:277-293 | an entry that is read is whole and encodes to the bytes it was read from if and only if its count is not below 0 and its size is below 2^31 |
| Codec.EntryVerdict | evms/RevertStructs.c:282-293 | an entry with a count in order is refused exactly if it is longer than what is left, ends the program exactly if there is no memory for it, and is taken whole otherwise |
| Codec.HeadUnchecked | evms/RevertStructs.c:262-287 | heads and counts are read without a look at the length |
| Codec.WrappedCountAccepted | evms/RevertStructs.c:284-287 | a count whose size wraps around is accepted with fewer bytes than one option takes |
| Codec.NegativeCountAccepted | evms/RevertStructs.c:284-287 | so is the least int for options of even size, with no byte behind the head |
| Codec.EntriesRoundTrip | evms/RevertStructs.c:277-311 | operations and tasks of any number of options are read back as they were, if there is memory for all of them |
| Codec.FeaturesRoundTrip | evms/RevertStructs.c:313-330 | features are read back as they were |
| Codec.EntriesCanonical | evms/RevertStructs.c:277-311 | operations or tasks that are read encode to the bytes they were read from if and only if all counts are in order |
| Codec.AdvanceRoundTrip | evms/RevertStructs.c:253-335 | what was encoded is read back as it was, by exactly as many bytes, whatever follows, unless memory for an entry cannot be had |
| Codec.AdvanceCanonical | evms/RevertStructs.c:253-335 | what is read without fault encodes to the bytes it was read from if and only if no count in them is below 0 or stands for a size of 2^31 or more |
| Codec.BasicRoundTrip | evms/RevertStructs.c:174-251 | a leading basic record is split off at the right offset |
| Codec.BasicVerdict | evms/RevertStructs.c:174-251 | the leading record is refused if and only if what is left does not start with the encoding of any record |
| Codec.ObjectRoundTrip | evms/RevertStructs.c:149-171 | an object survives with no byte left over if and only if it has a basic record and there is memory for its entries |
| Codec.ObjectOnTheWire | evms/ConvertStructs.c:239-390 | type and record, then three counts, operations, tasks and features, each at its place; numbers have four bytes, the least significant one first; heads, numbers of options and options of all entries stand where their sizes say |
| CodecBuffers.AdvanceInfo.AddOperation | evms/ObjectStructs.c:158-184 | the operation goes to the end of its table, or the code says why not |
| CodecBuffers.AdvanceInfo.AddOptionDescriptors | evms/ObjectStructs.c:136-156 | the descriptors replace the first options of one operation and nothing else |
| CodecBuffers.AdvanceInfo.AddTask | evms/ObjectStructs.c:186-203 | a task goes to the end of the table, or the code says why not |
| CodecBuffers.AdvanceInfo.AddFeature | evms/ObjectStructs.c:205-232 | the name, cut off if necessary, goes to the end of its table, or the code says why not |
| CodecBuffers.FilledFits | evms/ObjectStructs.c:158-232 | tables filled by these calls stay within what can be packed |
| CodecBuffers.PackEntry | evms/ConvertStructs.c:344-356 | the head and the options are written if each fits by the 32-bit length, and nothing outside of them |
| CodecBuffers.PutEntryExact | evms/ConvertStructs.c:344-356 | that is the encoding for every length at which it fits if and only if the options are shorter than 2^31 bytes or no length lets the wrapped one through |
| CodecBuffers.PackEntries | evms/ConvertStructs.c:341-374 | the loop writes what the entries come to one after the other, and nothing outside of it |
| CodecBuffers.PutEntriesFit | evms/ConvertStructs.c:341-374 | for entries that do not wrap around it writes their encoding if and only if that fits |
| CodecBuffers.PackFeatures | evms/ConvertStructs.c:376-384 | the loop writes all features if and only if they fit together, and nothing outside of them |
| CodecBuffers.PackAdvance | evms/ConvertStructs.c:318-390 | on success it writes exactly the bytes it reports and nothing outside of them, and on failure nothing outside the given length |
| CodecBuffers.PutAdvanceFits | evms/ConvertStructs.c:318-390 | and unless the options of an entry wrap around it packs if and only if the encoding fits, and writes exactly that |
| CodecBuffers.PackBasic | evms/ConvertStructs.c:239-313 | it packs if and only if the type is known and the record fits, and writes nothing but that, or but the type |
| CodecBuffers.PackObject | evms/ConvertStructs.c:188-225 | it packs exactly under the condition that the code checks, and then writes the bytes of the object at the start of the buffer and nothing else |
| CodecBuffers.PacksIfFits | evms/ConvertStructs.c:195-220 | which is that the encoding fits, for a network buffer or an object with one part |
| CodecBuffers.PacksUnlessBetween | evms/ConvertStructs.c:206-220 | and otherwise differs exactly for sizes between the two lengths |
| CodecBuffers.UnpackEntries | evms/RevertStructs.c:277-311 | the loop over the announced entries fills the table as the decoding says, miscounted entries included |
| CodecBuffers.UnpackFeatures | evms/RevertStructs.c:313-330 | the loop over the announced features fills the table as the decoding says |
| CodecBuffers.UnpackAdvance | evms/RevertStructs.c:253-335 | the loops compute the decoding, with every access out of bounds and every failed allocation of an entry as an outcome of its own |
| CodecBuffers.UnpackBasic | evms/RevertStructs.c:174-251 | the record of the announced type is read, or refused |
| CodecBuffers.UnpackObject | evms/RevertStructs.c:149-171 | the basic record and what is behind it are decoded |
| PrivateData.QueryIsFirstSince | evms/PrivateData.c:203-222 | after any history a query of a handle other than 0 gives the first size stored since the last clear, else 0 |
| PrivateData.PointsUsed | evms/PrivateData.c:184-201 | every insertion uses up a slot, up to 128, and clearing gives none back |
| PrivateData.PointsNeverShrink | evms/PrivateData.c:164-181 | used slots never shrink |
| PrivateData.ThreadsApart | evms/PrivateData.c:53-222 | what a thread finds depends on its own calls only |
| PrivateData.ZeroHandleIsHidden | evms/PrivateData.c:203-222 | as in the history of storing, clearing and storing for handle 0 |
| PrivateData.ZeroQueryExactly | evms/PrivateData.c:203-222 | a query of handle 0 gives the first size since the last clear if and only if no slot was in use then or that size is 0 |
| PrivateData.HashTable.InitHash | evms/PrivateData.c:8-15 | the table is empty |
| PrivateData.HashTable.SearchNode | evms/PrivateData.c:111-152 | the walk along the chain of the bucket finds the one node of the thread, or none |
| PrivateData.HashTable.AddNode | evms/PrivateData.c:53-100 | the thread has one node, in the bucket of its number modulo 64, and no other thread is affected |
| PrivateData.HashTable.LinkInFront | evms/PrivateData.c:85-96 | the new node is first in its chain and has no points |
| PrivateData.HashTable.ClearNode | evms/PrivateData.c:164-181 | the slots of the thread are zeroed, or the code says that it has no node |
| PrivateData.HashTable.InsertPrivateData | evms/PrivateData.c:184-201 | the pair is behind the others of the thread, or 128 are there already |
| PrivateData.HashTable.QueryPrivateData | evms/PrivateData.c:203-222 | the size at the first slot with the handle, else 0 |
| PrivateData.HashTable.Execute | evms/PrivateData.c:164-201 | any history of insertions and clearings leaves the table that the history means |

## Left out

- The checks under `EVMS_DEBUG` and the verify field of the list: the validity of a list is a precondition.
- `DestroyList`, `GetHandle`, `GetListSize`, `ListEmpty`, `AtEndOfList`: they read or set single fields.
- `free`: memory that is given back is not tracked; neither is the flag of a callback that asks for it, nor the handle argument of the callbacks.
- Scanner contexts that read files, rows and columns, and error messages.
- ScannerMachine.Scanner.MakeToken: does not model the NULL that is returned when there is no memory for a token.
- TypedStack.Push: does not model the end of the program when there is no memory for a cell.
- DListRun.ListWorld.Run: what a callback remembers is carried on within one call, but not from one command to the next.
- DList.InsertObject: asks for fewer than 2^32 - 1 items, because the wrap-around of the item count is not modelled.
- ScannerMunch.LongestMatch: says nothing about text with a slash, a `$` or a quote mark; ScannerPath and ScannerQuote do.
- ScannerPath.PathNameScanned: leaves out a `$` behind the path name; what it starts or delivers is a matter of ScannerExpansion.ExpansionDelivered, and ScannerPath.PathNameToken covers it.
- ScannerExpansion.ExpansionDelivered: comments that are not closed, or in which a `*` stands right behind an inner closing mark, are not part of a text.
- DListTraverse.ForEachItem: in the interpreter the children of a node are traversed by loops of its own, because a callback here cannot push on the stack; codes that end a traversal early do not occur there.
- Filters.ScanForDisksLoop: the other callbacks that compare an array with a handle in a loop are modelled by membership.
- The layout that objects, regions, segments and disks share in the engine's union is one record; a search that would read the record of another kind through it finds no children.
- Filters without operands (convertible, unclaimed, list options), the freespace filter and the queries for acceptable objects.
- Interpreter.Interpreter.DoQuery: asks that no lookup fails with the code that ends a traversal early; what happens with it is shown for one filter only. It says when a query fails, but which code the filters fail with is not part of its contract.
- Interpreter.Interpreter.DoUnitConversion: real numbers, and the overflow of a signed product other than by wrapping around.
- Name lookup, the parser, help, prompts, tasks, options and commit: the interpreter starts from trees, and names have been looked up by the engine.
- CodecBuffers.UnpackAdvance: memory for the records of fixed size is always there; only that for entries, whose size comes from the wire, can be missing.
- Codec.AdvanceRoundTrip: the records themselves are blocks of bytes; how names are cut off and fields are filled in is not modelled, and neither is padding, nor the byte order of other machines.
- PrivateData.HashTable.AddNode: the calls of different threads come one after the other, because the code has no locks.
- Sockets, frames, shell calls and files.
