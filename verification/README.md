# Verified model of the packet monitor

The repository captures packets with pcap, hands them through a bounded task ring to worker
threads that decode Ethernet/IPv4/TCP/UDP, and passes accepted copies through a second, lossy ring
to an output thread. Around that sit an INI engine for its settings and a logger with an
asynchronous mode. This project models those four parts and proves what each is for.

**INI engine.** `CString` gives `strcmp` and `memcmp`; `ConfigTree` is the search tree as a value
and as a map; `ConfigListing` its in-order listing; `ConfigBTree` the nodes relinked in place;
`IniStore` the two-level store; `IniGrammar` a line grammar; `IniText` that grammar told on
characters alone; `IniModel` what a text and the set/get interface mean; `IniMeaning` what a text
means without any tree; `IniCursor` and `IniParser` the one-pass jump-table parser; `IniPrinter` and
`IniRoundTrip` the sorted printer and reading back; `IniNumber` integers as text. Insertion compares
with `memcmp(key, p->key, key_len)` while lookup and deletion use `strcmp`; the two part ways
exactly where the new key is a proper prefix of the visited one. The map contract of insertion is
therefore stated as an equivalence with the condition under which it holds, beside a tree that loses
a key.

**Task ring.** `TaskRing` is `CTaskQueue` as atomic steps of any number of threads over two
semaphores, two mutexes and two cursors, with any positive length; `TaskQueue` is the object whose
statements move that state machine.

**Packets.** `PacketContent` is the packet record that owns its buffers, over an allocator that
knows which blocks are live; `MonitorRing` the index arithmetic of both monitor rings; `BlockQueue`
and `AcQueue` the two ring classes; `PacketDecode` the frame format and the decoders as functions;
`PacketBytes` what they report, told on the frame's bytes by position; `PacketWorker` the decoders
and the worker loop's body in place; `Pipeline` capture, task ring, workers, output ring and output
as one state machine whose steps include every task-ring step.

**Logger.** `AsyncLog` is the check-then-push hand-off with any number of loggers, the flusher and
the close path; `AsyncClose` what closing costs and when it goes wrong; `CLog` the object whose
statements move the machine. `CloseLog` deletes the queue and closes the stream without regard to
loggers on their way to either. A run of the machine ends where a logger uses one of them too late,
and the two conditions under which that can happen are stated exactly.

Threads are modelled as interleavings of atomic steps over sequentially consistent memory. Memory
allocation succeeds. Integers are unbounded except where the source's width matters: the unsigned
ring indices, 32-bit lengths and differences, 16- and 32-bit header fields, and the integers that
`ini_config_set_int` takes.

## Model

| member | source | states |
|---|---|---|
| CString.MemCmpVersusStrCmp | inipares/iniconfile.c:99-99 | the insertion comparison equals `strcmp` except where the new key is a proper prefix of the visited one, which it calls equal |
| CString.FirstDifferenceDecides | inipares/iniconfile.c:99-189 | both comparisons are decided by the first character that differs, the smaller character first |
| CString.PrefixesAreContiguous | inipares/iniconfile.c:99-117 | between a string and one of its extensions in `strcmp` order lie only its extensions |
| ConfigTree.FindIsLookup | inipares/iniconfile.c:159-178 | on an ordered tree the search finds a key exactly when it is stored, with its value |
| ConfigTree.FindAfterInsert | inipares/iniconfile.c:84-178 | on any tree, ordered or not, find right after insert returns the inserted value |
| ConfigTree.InsertIsMapUpdate | inipares/iniconfile.c:84-126 | insertion into an ordered tree is map update if and only if its search stops at no other key, and then keeps the order |
| ConfigTree.NoExtensionIsClean | inipares/iniconfile.c:98-124 | that condition holds whenever no stored key properly extends the new one |
| ConfigTree.CleanMeansNoExtension | inipares/iniconfile.c:98-124 | for a key that is not stored the condition holds if and only if no stored key properly extends it |
| ConfigTree.AscendingInsertIsClean | inipares/iniconfile.c:98-124 | it holds by itself when the new key is above every stored one |
| ConfigTree.UncleanInsertLoses | inipares/iniconfile.c:118-124 | when the search stops at another key, that stored key is gone afterwards |
| ConfigTree.PrefixInsertBreaksTheOrder | inipares/iniconfile.c:98-124 | with "abb" under "abc", inserting "ab" breaks the order and "abb" is not found any more |
| ConfigTree.InsertKeepsOrderIff | inipares/iniconfile.c:98-124 | the order alone survives an insertion if and only if the search ends at a free place or stops at the first of the stored keys that start with the new one |
| ConfigTree.InsertCount | inipares/iniconfile.c:93-117 | the node count grows by one exactly when the search ends at a free place |
| ConfigTree.CountIsMapSize | inipares/iniconfile.c:95-95 | the node count of an ordered tree is the size of its map |
| ConfigTree.DeleteIsMapRemoval | inipares/iniconfile.c:180-254 | deletion removes exactly the given key, keeps order and every other binding, lowers the count by one; an absent key changes nothing |
| ConfigTree.RootGivesWay | inipares/iniconfile.c:199-248 | a deleted node is replaced by the greatest key on its left, else by the least on its right, else by nothing, the other side staying as it is |
| ConfigTree.RemoveMaxIsMaximum | inipares/iniconfile.c:199-219 | what the predecessor splice takes is the greatest key of the left subtree, and the rest lies below it in order |
| ConfigTree.RemoveMinIsMinimum | inipares/iniconfile.c:222-242 | what the successor splice takes is the least key of the right subtree, and the rest lies above it in order |
| ConfigListing.OrderedIsRising | inipares/iniconfile.c:264-270 | the in-order walk of an ordered tree lists its keys strictly rising |
| ConfigListing.ListingIsLookup | inipares/iniconfile.c:264-270 | the listing holds exactly the stored bindings |
| ConfigListing.InsertIsPlace | inipares/iniconfile.c:84-126 | in the sorted listing an insertion replaces the first extension of the key or goes to its sorted place, provided at most one stored key extends it |
| ConfigBTree.UnlinkMax | inipares/iniconfile.c:200-215 | the walk with a trailing field pointer unlinks exactly the rightmost node and leaves the rest of the memory linked |
| ConfigBTree.UnlinkMin | inipares/iniconfile.c:223-238 | the mirror image for the leftmost node |
| ConfigBTree.SpliceOut | inipares/iniconfile.c:199-248 | predecessor, successor or nothing takes the place of the node, as the value tree says, over the same nodes |
| ConfigBTree.BTree.constructor | inipares/iniconfile.c:80-83 | an empty tree with count 0 |
| ConfigBTree.BTree.InsertNode | inipares/iniconfile.c:84-126 | in-place insertion yields the value tree's insertion for every tree; 1 for a new node, 2 for a replaced one; the count stays the number of nodes |
| ConfigBTree.BTree.FindNode | inipares/iniconfile.c:159-178 | returns the node that holds the value the search of the value tree finds, or null when there is none |
| ConfigBTree.BTree.DeleteNode | inipares/iniconfile.c:180-254 | in-place deletion yields the value tree's deletion; 0 and nothing changed for an absent key; the count follows |
| IniGrammar.AcceptedByLines | inipares/iniconfile.c:359-386 | a text is accepted exactly when each line is well formed on its own |
| IniText.TrimStrips | inipares/iniconfile.c:37-53 | trimming takes away exactly the blanks, returns and newlines around a text |
| IniText.TrimsToNothing | inipares/iniconfile.c:37-53 | nothing is left exactly of texts of such characters alone |
| IniText.LineFailsIff | inipares/iniconfile.c:327-386 | a line is refused if and only if it is no comment and, behind any number of bracketed names, has a '[' never closed, a blank name in brackets, or a blank key before '=' |
| IniText.TextFailsIff | inipares/iniconfile.c:399-453 | a text is refused if and only if it has such a line |
| IniText.LineSays | inipares/iniconfile.c:317-394 | a line of bracketed names and an entry opens those names in order and puts that key and value, the blanks around each left out |
| IniText.LineSaysOpens | inipares/iniconfile.c:317-394 | and without an entry only opens them |
| IniText.BlanksAreNotStored | inipares/iniconfile.c:359-386 | an accepted text followed by a line of key and value with blanks around each: exactly that key is stored with exactly that value in the section that is open |
| IniText.DefaultByName | inipares/iniconfile.c:405-440 | entries before the first header go under "default", which is there from the start |
| IniGrammar.DocumentSplit | inipares/iniconfile.c:359-386 | a text's operations are those of its parts around any newline, up to the first malformed line |
| IniGrammar.CommentLineIsSkipped | inipares/iniconfile.c:387-394 | inserting a line that starts with ';' at any line boundary changes neither operations nor acceptance |
| IniGrammar.FinalNewlineIsSkipped | inipares/iniconfile.c:441-452 | a final newline changes nothing |
| IniGrammar.CrLfIsInvisible | inipares/iniconfile.c:37-53 | turning every newline into CR LF changes nothing |
| IniModel.LoadIgnoresLayout | inipares/iniconfile.c:399-453 | the loaded configuration, or the failure, is the same under all three changes of layout |
| IniMeaning.ReadsAsThroughoutIff | inipares/iniconfile.c:84-157 | after every single operation exactly the opened sections are found and each key has the last value put since its section was last opened, if and only if each name is there already, or is no proper prefix of one that is, when its turn comes |
| IniMeaning.LoadMeans | inipares/iniconfile.c:399-453 | a loaded text whose operations meet that condition reads as they say, and every tree is in order |
| IniModel.ReopeningForgets | inipares/iniconfile.c:128-138 | opening a section leaves it found and without any key, whatever the configuration held and in whatever order |
| IniRoundTrip.ReopenedTextForgets | inipares/iniconfile.c:327-346 | a section header at the end of any accepted text leaves the section empty, whatever stood in it before |
| IniModel.StartIsFound | inipares/iniconfile.c:149-157 | whatever was read so far, the section that takes the next key is found, so storing a key never fails for want of a section |
| IniModel.GetAfterSet | inipares/iniconfile.c:490-514 | a key that was set is read back, from any configuration, with the section created if missing |
| IniModel.SetLeavesOthers | inipares/iniconfile.c:502-514 | every other (section, key) lookup is unchanged when neither name collides with a longer stored one |
| IniModel.SetLeavesOthersIff | inipares/iniconfile.c:502-514 | all other sections are found as before and the section's other keys keep their values if and only if the searches of the set are clean, the section existing or not |
| IniModel.SetKeepsOrder | inipares/iniconfile.c:502-514 | a set whose searches are clean keeps every tree in order, so the other results apply to the next set |
| IniModel.SetKeepsTheSection | inipares/iniconfile.c:502-514 | in an existing section the other keys survive if and only if the search for the new key stops at no longer key |
| IniStore.IniConfig.InsertSection | inipares/iniconfile.c:128-138 | an empty section object comes to hang where the insertion of the name ends, in memory as in the model's opening; which other sections survive is the next two rows |
| IniModel.OpenLeavesOthers | inipares/iniconfile.c:84-138 | on an ordered configuration, opening a section leaves every other name's section alone if and only if the search for its place stops at no longer name, and then keeps the order |
| IniModel.OpeningAPrefixDisplaces | inipares/iniconfile.c:84-138 | with only "ab" open, opening "a" removes "ab" |
| IniStore.IniConfig.GetSection | inipares/iniconfile.c:140-147 | returns the object whose content the model finds under the name, or null |
| IniStore.IniConfig.InsertSectionNode | inipares/iniconfile.c:149-157 | storing into the named section changes that section only; 0 and no change when the name is not found |
| IniStore.IniConfig.SetString | inipares/iniconfile.c:502-514 | the memory after the call stands for the model's set; the first key_len characters of the key, or all for 0, are found under the section or "default" with the value cut likewise; returns 1 for a new place, 2 for a replaced key |
| IniStore.StoreCodeTells | inipares/iniconfile.c:84-126 | where the search is clean, 1 tells a key that was not there from 2, one that was |
| IniStore.IniConfig.GetString | inipares/iniconfile.c:490-500 | returns the stored value or the given default |
| IniStore.IniConfig.SetInt | inipares/iniconfile.c:516-520 | stores the decimal text of the integer |
| IniStore.IniConfig.GetInt | inipares/iniconfile.c:479-488 | returns the number the stored text begins with, behind white space and a sign and up to the first character that is no digit, 0 for a text without one, or the given default |
| IniStore.SetIntThenGetInt | inipares/iniconfile.c:479-520 | every 32-bit integer that is set is read back equal, from any configuration |
| IniStore.CreateNode | inipares/iniconfile.c:58-75 | key and data lie apart within the bytes allocated for them, each followed by a NUL, and both read back from there as C strings |
| IniStore.NodeStrings | inipares/iniconfile.c:58-75 | what a new node holds, read back from its bytes, is the key and the data it was made from |
| IniStore.IniConfig.constructor | inipares/iniconfile.c:403-403 | a configuration without sections |
| IniNumber.ItoaReadsBack | inipares/iniconfile.c:487-518 | the decimal text of an integer reads back as that integer |
| IniNumber.AtoiReads | inipares/iniconfile.c:487-487 | white space, perhaps a sign, any digits and any rest that begins with no digit read as the signed decimal value of the digits |
| IniNumber.AtoiOfNoNumber | inipares/iniconfile.c:487-487 | a text without digits in that place reads as 0 |
| IniNumber.EveryTextReads | inipares/iniconfile.c:487-487 | every text is one or the other |
| IniNumber.ItoaIsDecimal | inipares/iniconfile.c:517-518 | an integer is written as a '-' if negative and its decimal digits without leading zeros |
| IniNumber.ItoaFits | inipares/iniconfile.c:517-518 | every 32-bit integer and its terminator fit the 32-byte buffer |
| IniParser.MemTrim | inipares/iniconfile.c:37-53 | for every text made of blanks, something bare at both ends, and blanks, returns the bare part, or null when it is empty |
| IniParser.JumpTable | inipares/iniconfile.c:402-432 | the table sends each of the 256 bytes to its handler |
| IniParser.Parser.constructor | inipares/iniconfile.c:399-440 | the parse starts with an empty default section in memory and the whole text ahead |
| IniParser.Parser.DefaultAction | inipares/iniconfile.c:307-311 | keeps "operations done so far, then what the grammar gives from here, is the whole text" across an ordinary byte |
| IniParser.Parser.SectionStart | inipares/iniconfile.c:317-326 | the same invariant across an opening bracket |
| IniParser.Parser.SectionEnd | inipares/iniconfile.c:327-346 | the same, opening the trimmed section in memory; refuses exactly when the grammar refuses the text here |
| IniParser.Parser.ValueStart | inipares/iniconfile.c:347-358 | the same invariant across '=' |
| IniParser.Parser.CommentStart | inipares/iniconfile.c:387-394 | the same invariant across ';', a comment in column 1 only |
| IniParser.Parser.NewLine | inipares/iniconfile.c:359-386 | the same invariant across a line end, storing the trimmed key and value; at the end of the text everything has been carried out |
| IniParser.CreateFromString | inipares/iniconfile.c:399-453 | the one-pass parser fails exactly when the text has a line with an unclosed bracket, a blank name or a blank key, and otherwise builds in memory exactly the configuration the line grammar means |
| IniPrinter.SaveEntries | inipares/iniconfile.c:264-525 | appends one line per entry in listing order |
| IniPrinter.SaveSections | inipares/iniconfile.c:264-532 | appends each section header and its entries in listing order |
| IniPrinter.EntriesLiterally | inipares/iniconfile.c:522-525 | each entry is printed as key, '=', value and newline, nothing else between entries |
| IniPrinter.SectionsLiterally | inipares/iniconfile.c:526-532 | each section is printed as its name in brackets, a newline and its entries |
| IniPrinter.PrintConfig | inipares/iniconfile.c:522-545 | prints the text of the configuration the memory stands for |
| IniRoundTrip.LoadOfPrint | inipares/iniconfile.c:399-545 | the printed text parses into the ascending insertions of its sections and entries into the initial default section |
| IniRoundTrip.IsTextIff | inipares/iniconfile.c:37-53 | what names, keys and values must be to survive printing is any row of bytes but NUL and newline without a blank at either end |
| IniRoundTrip.InsertAscending | inipares/iniconfile.c:84-126 | inserting a rising listing one by one lists exactly those bindings, prefixes among the keys included |
| IniRoundTrip.RereadSection | inipares/iniconfile.c:399-545 | section by section, reading back restores what was printed; an empty default section appears only when no stored name covers it |
| IniRoundTrip.RoundTrip | inipares/iniconfile.c:399-545 | print then parse is the identity on the map of maps if and only if "default" or a prefix of it names a section; otherwise it adds an empty default |
| IniRoundTrip.SecondPrint | inipares/iniconfile.c:522-545 | a second print is byte for byte the first under exactly that condition |
| IniRoundTrip.PrintedIsReadable | inipares/iniconfile.c:522-545 | printed text meets what the parser asks of its input |
| TaskRing.StepKeepsInv | source/TaskQueue.cpp:55-81 | every atomic step of every thread keeps token sums, lock ownership, cursor positions and slot contents |
| TaskRing.FirstInFirstOut | source/TaskQueue.cpp:55-81 | in every run with any threads, values read are a prefix of values written and never more than a ring behind |
| TaskRing.SlotsAreSafe | source/TaskQueue.cpp:55-81 | in every run no producer is about to write the slot a consumer is about to read, no unread slot is overwritten and no unwritten slot is read |
| TaskRing.StepRefinesQueue | source/TaskQueue.cpp:55-81 | each step is an enqueue within capacity, a dequeue of the head, or invisible |
| TaskRing.MutualExclusion | source/TaskQueue.cpp:55-81 | at most one thread is between lock and unlock on either side |
| TaskRing.IsEmptyMeans | source/TaskQueue.cpp:50-53 | the cursors coincide exactly when nothing or a whole ring lies between them |
| TaskRing.NeverStuck | source/TaskQueue.cpp:55-81 | with a producer and a consumer about, every reachable state has an enabled step |
| TaskQueue.CTaskQueue.constructor | source/TaskQueue.cpp:4-15 | the object starts in an initial state of the state machine |
| TaskQueue.CTaskQueue.IsEmpty | source/TaskQueue.cpp:50-53 | true exactly when nothing or a whole ring is unread |
| TaskQueue.CTaskQueue.CallPush | source/TaskQueue.cpp:55-55 | entering a push is the machine's step and keeps its invariant |
| TaskQueue.CTaskQueue.WaitProducer | source/TaskQueue.cpp:56-56 | taking a slot token is the machine's step and keeps its invariant |
| TaskQueue.CTaskQueue.LockProducer | source/TaskQueue.cpp:57-57 | taking the producer mutex is the machine's step and keeps its invariant |
| TaskQueue.CTaskQueue.WriteSlot | source/TaskQueue.cpp:59-59 | writing one slot of the buffer is the machine's step and keeps its invariant |
| TaskQueue.CTaskQueue.MoveProducer | source/TaskQueue.cpp:60-63 | the cursor's advance, back to the head from the tail, is the machine's step and keeps its invariant |
| TaskQueue.CTaskQueue.UnlockProducer | source/TaskQueue.cpp:65-65 | giving the producer mutex back is the machine's step and keeps its invariant |
| TaskQueue.CTaskQueue.PostConsumer | source/TaskQueue.cpp:66-66 | posting a token to the consumers is the machine's step and keeps its invariant |
| TaskQueue.CTaskQueue.CallPop | source/TaskQueue.cpp:69-69 | entering a pop is the machine's step and keeps its invariant |
| TaskQueue.CTaskQueue.WaitConsumer | source/TaskQueue.cpp:70-70 | taking a value token is the machine's step and keeps its invariant |
| TaskQueue.CTaskQueue.LockConsumer | source/TaskQueue.cpp:71-71 | taking the consumer mutex is the machine's step and keeps its invariant |
| TaskQueue.CTaskQueue.ReadSlot | source/TaskQueue.cpp:73-73 | reading one slot is the machine's step and keeps its invariant; returns the value the machine says the thread now holds |
| TaskQueue.CTaskQueue.MoveConsumer | source/TaskQueue.cpp:74-77 | the cursor's advance, back to the head from the tail, is the machine's step and keeps its invariant |
| TaskQueue.CTaskQueue.UnlockConsumer | source/TaskQueue.cpp:79-79 | giving the consumer mutex back is the machine's step and keeps its invariant |
| TaskQueue.CTaskQueue.PostProducer | source/TaskQueue.cpp:80-80 | posting a token back to the producers is the machine's step and keeps its invariant |
| TaskQueue.CTaskQueue.Push | source/TaskQueue.cpp:55-67 | the statements in program order, undelayed: the value is written next, one slot token has become a value token, all else is as before |
| TaskQueue.CTaskQueue.Pop | source/TaskQueue.cpp:69-81 | the statements in program order, undelayed: returns the oldest value, one value token has become a slot token, all else is as before |
| TaskQueue.CTaskQueue.Run | source/TaskQueue.cpp:55-81 | the object carries out any interleaving of its threads' statements that can happen, each thread with its value in a variable of its own, and ends in the state that run of the machine reaches |
| TaskQueue.CanRunReaches | source/TaskQueue.cpp:55-81 | the interleavings that can happen are exactly those that lead to a state, and to one only |
| MonitorRing.NextIsNextSlot | source/ACQueue.cpp:107-131 | unsigned and signed index arithmetic both step to the next slot, the start value included |
| MonitorRing.PushAppends | wlog/include/BlockQueue.h:146-149 | writing the next back slot appends, in both arithmetics |
| MonitorRing.PopTakesTheOldest | wlog/include/BlockQueue.h:171-173 | the next front slot holds the oldest element, and what is left in it does not matter |
| MonitorRing.BackIsTheNewest | wlog/include/BlockQueue.h:105-116 | the back slot holds the element pushed last |
| MonitorRing.RingIsABoundedQueue | source/ACQueue.cpp:46-137 | over every run of push, pop and clear from an empty ring, signed or unsigned, all answers are those of a bounded sequence |
| BlockQueue.BlockQueue.constructor | wlog/include/BlockQueue.h:21-39 | an empty ring of the given length with the signed start value |
| BlockQueue.BlockQueue.Push | wlog/include/BlockQueue.h:136-155 | appends, and fails with no change exactly when full |
| BlockQueue.BlockQueue.Pop | wlog/include/BlockQueue.h:158-176 | takes the oldest element; on an empty ring it sleeps or, when the wait fails, fails, with no change |
| BlockQueue.BlockQueue.Back | wlog/include/BlockQueue.h:105-116 | shows the element pushed last, or leaves the caller's value when empty |
| BlockQueue.BlockQueue.Clear | wlog/include/BlockQueue.h:41-48 | nothing waits afterwards |
| BlockQueue.BlockQueue.Full | wlog/include/BlockQueue.h:68-78 | true exactly when the waiting elements fill the ring |
| BlockQueue.BlockQueue.Empty | wlog/include/BlockQueue.h:80-90 | true exactly when nothing waits |
| BlockQueue.BlockQueue.Size | wlog/include/BlockQueue.h:118-125 | the number of waiting elements |
| PacketContent.Allocator.OneOwner | include/TaskQueue.h:13-29 | while the heap is sound, a block is live exactly when an existing record points at it, and only one does |
| PacketContent.AnalContent.constructor | include/TaskQueue.h:30-49 | an empty record joins the sound heap |
| PacketContent.AnalContent.FromCapture | include/TaskQueue.h:50-72 | a captured record holds its own copy of the bytes, the heap stays sound |
| PacketContent.AnalContent.Destroy | include/TaskQueue.h:74-87 | exactly the record's blocks are freed, each live until then |
| PacketContent.AnalContent.Assign | include/TaskQueue.h:89-128 | a deep copy between different records: equal values, fresh blocks, the old blocks freed, no leak |
| PacketContent.AnalContent.AcInit | include/TaskQueue.h:130-150 | frees both blocks and resets the fields, time stamp, identification and offset excepted |
| PacketContent.WipedIs | include/TaskQueue.h:130-150 | field by field what the reset keeps and what it clears |
| PacketContent.NoFieldsAre | include/TaskQueue.h:30-72 | field by field what a new record starts with |
| AcQueue.CACQueue.constructor | source/ACQueue.cpp:11-30 | distinct empty slots and an empty ring with the unsigned start value |
| AcQueue.CACQueue.Push | source/ACQueue.cpp:97-116 | a copy joins the waiting packets, with failure and no change exactly when full; the caller's record keeps its value; no block leaks |
| AcQueue.CACQueue.Pop | source/ACQueue.cpp:118-137 | the oldest packet arrives equal to what was pushed, its slot keeps no bytes, and no block leaks or is freed twice; on an empty ring it sleeps or fails with no change |
| AcQueue.CACQueue.Clear | source/ACQueue.cpp:46-53 | nothing waits afterwards, while the slots keep their packets until they are overwritten |
| AcQueue.CACQueue.IsFull | source/ACQueue.cpp:55-65 | true exactly when the waiting packets fill the ring |
| AcQueue.CACQueue.IsEmpty | source/ACQueue.cpp:67-77 | true exactly when nothing waits |
| AcQueue.CACQueue.Size | source/ACQueue.cpp:79-86 | the number of waiting packets |
| PacketDecode.DecodeInvertsEncode | source/ProtocolAnalysis.cpp:37-108 | decoding a captured frame reports every encoded field and exactly the payload; payload + 34 + (20 or 8) is the frame length; raw bytes change in the EtherType only |
| PacketDecode.PaddingBecomesPayload | source/TcpProtoAnal.cpp:46-51 | what pads a frame is reported as payload, every field still right |
| PacketDecode.PayloadIsExactIff | source/UdpProtoAnal.cpp:24-29 | the payload reported is the one sent if and only if the frame is not padded |
| PacketDecode.EveryFrameIsEncoded | include/PcapHeader.h:35-84 | every frame with a plain IPv4 header, plain TCP or UDP header and no padding is an encoded one, so the inversion speaks of all of them |
| PacketDecode.FrameAcceptedWhen | source/DealProtPkg.cpp:55-89 | such a frame is passed on exactly when it has a payload or empty ones are wanted |
| PacketDecode.SwapChangesTwoBytes | source/DealProtPkg.cpp:53-53 | bringing the EtherType into host order touches its two bytes only and undoes itself |
| PacketDecode.DottedFits | source/ProtocolAnalysis.cpp:66-70 | every dotted address fits its 16-byte array |
| PacketBytes.CompleteIff | include/PcapHeader.h:35-84 | which bytes have to be there, by position |
| PacketBytes.DottedReads | source/ProtocolAnalysis.cpp:66-70 | a reported address is four decimal numbers between dots that are the address bytes in order |
| PacketBytes.AddressTextIsUnique | source/ProtocolAnalysis.cpp:66-70 | such a text belongs to one address only |
| PacketBytes.SentAddressesAreReported | source/ProtocolAnalysis.cpp:66-70 | for every encoded frame the reported texts are those of the addresses it was sent with |
| PacketBytes.IpStepReports | source/ProtocolAnalysis.cpp:64-70 | identification, 13-bit offset, addresses and their texts, by byte position from the header on |
| PacketBytes.TcpStepReports | source/TcpProtoAnal.cpp:31-51 | type, ports, sequence numbers and payload, by byte position |
| PacketBytes.UdpStepReports | source/UdpProtoAnal.cpp:18-29 | type, ports and payload, by byte position, the rest as captured |
| PacketBytes.OtherStepReports | source/ProtocolAnalysis.cpp:78-105 | for every other protocol payload, ports, numbers and type stay as captured |
| PacketBytes.DecodedIs | source/DealProtPkg.cpp:49-76 | frames with 8 and 0 in bytes 12 and 13 get the IP step from byte 14 on; of all others nothing changes but the exchange of those bytes |
| PacketBytes.AcceptedIff | source/DealProtPkg.cpp:55-89 | a captured packet is passed on if and only if it is IPv4 and empty packets are wanted or it is TCP or UDP with bytes behind the header |
| PacketWorker.UdpProtocolAnalysis | source/UdpProtoAnal.cpp:14-34 | ports and a payload copy of the 32-bit length; failure code and no change on null |
| PacketWorker.TcpProtocolAnalysis | source/TcpProtoAnal.cpp:27-61 | ports, sequence numbers and a payload copy of the 32-bit length; failure code and no change on null |
| PacketWorker.LengthLeft | source/ProtocolAnalysis.cpp:89-98 | lengths pass through signed parameters and unsigned differences without wrapping while the headers are there |
| PacketWorker.IpProtocolAnalysis | source/ProtocolAnalysis.cpp:37-108 | the record afterwards is the decoded packet, its address texts those of the header's bytes; failure code and no change on a null record or pointer |
| PacketWorker.Analyse | source/DealProtPkg.cpp:49-76 | decodes in place with the output ring untouched; 0 for frames with 8 and 0 in bytes 12 and 13, 0xff for all others |
| PacketWorker.Forward | source/DealProtPkg.cpp:77-89 | a copy joins the output ring exactly when decoding succeeded, a payload is there or not needed, and there is room |
| PacketWorker.Discard | source/DealProtPkg.cpp:90-92 | deleting the worker's record leaves the packets in the ring and their buffers as they are |
| PacketWorker.Deal | source/DealProtPkg.cpp:43-92 | one turn of the worker loop: the output ring gains the decoded copy exactly when there is room and the frame's bytes say IPv4 and empty packets are wanted or TCP or UDP with a payload; for other EtherTypes it is unchanged; the packet is gone, the heap stays sound |
| Pipeline.SettleIsDeal | source/DealProtPkg.cpp:77-89 | the state machine's judging step changes the output ring exactly as the worker loop's body is proved to |
| Pipeline.StepKeepsInv | source/DealProtPkg.cpp:41-92 | every step of capture, task ring, workers and output keeps the pipeline's invariant |
| Pipeline.Conservation | source/DealProtPkg.cpp:41-92 | in every run with any number of workers, captured = waiting in capture + in the task ring + held + rejected + dropped + in the output ring + popped |
| Pipeline.OnePlaceEach | source/MyPcapDump.cpp:7-17 | no packet is counted twice: settled ones are distinct, held ones are not settled, two workers never hold the same, and the ring takes packets in capture order |
| Pipeline.FreedOnceByItsTaker | source/DealProtPkg.cpp:90-91 | each captured object is freed at most once, only by the worker that popped it, and nobody holds it afterwards |
| Pipeline.DeliveredInWorkerOrder | source/ACQueue.cpp:97-137 | what is delivered is accepted, decoded and never twice, and each worker's part of it is in capture order, for every pattern of drops |
| Pipeline.JudgedByBytes | source/DealProtPkg.cpp:55-89 | in every run what is rejected, and what is in the output ring or popped, told by the bytes of the captured frame |
| Pipeline.OneWorkerKeepsCaptureOrder | source/DealProtPkg.cpp:41-92 | with one worker every packet is settled in capture order without a gap and the delivered stream is in capture order |
| Pipeline.NothingGetsStuck | source/DealProtPkg.cpp:41-92 | with a worker about, as long as a captured packet is not freed, the capture thread inside its push or a worker has a step to take, even if the output never pops |
| AsyncLog.EveryLineHasOnePlace | wlog/source/CLog.cpp:251-261 | with any number of loggers and through any close, up to the first use of a deleted queue or closed stream, every submitted line is in exactly one place, once: logger, queue, flusher, file or lost |
| AsyncLog.OneLoggerLosesNothing | wlog/source/CLog.cpp:248-315 | one logger and no close: nothing is ever lost, submitted = with the logger + queued + in the flusher's hand + written, and queued lines are written in submission order |
| AsyncLog.FileOnlyGrows | wlog/source/CLog.cpp:257-311 | with any number of loggers the file grows at its end only: what stands in it stays where it is |
| AsyncLog.LinesAreConsecutive | wlog/source/CLog.cpp:248-261 | one logger and no queue: the file holds the submitted lines from the first on, in order and without a gap, and until the file pointer is null only the one in hand is missing |
| AsyncLog.DirectLinesRise | wlog/source/CLog.cpp:248-261 | one logger, with or without a queue and through any close: the lines it writes itself stand in the order they were submitted |
| AsyncLog.TwoLoggersCanLose | wlog/source/CLog.cpp:251-254 | from any reachable state with one free place and two idle loggers, the asynchronous mode still on, a run loses the second line |
| AsyncLog.OnlySeveralLoggersLose | wlog/source/CLog.cpp:248-315 | without a close, an asynchronous logger with a queue of any length can lose a line if and only if at least two threads log |
| AsyncLog.QueuedLinesKeepTheirOrder | wlog/source/CLog.cpp:302-315 | in every run queued lines stand in the file in push order without a gap; until the queue is deleted the rest is in hand or queued |
| AsyncClose.JoinReturns | wlog/source/CLog.cpp:348-354 | the join cannot hang: while it waits the flusher has a step or waits for a logger whose write frees the mutex, each flusher step brings it nearer its end, and nobody else's sets it back, even when the wake-up push fails |
| AsyncClose.CloseLosesTheRest | wlog/source/CLog.cpp:348-360 | in every run at most one more queued line is written after the flag is cleared, and deleting the queue loses exactly the pushed and unwritten lines, wherever the loggers stand |
| AsyncClose.AtMostOneMore | wlog/source/CLog.cpp:302-354 | whatever happens after the flag is cleared, the flusher adds at most one line to those it had written then |
| AsyncClose.CanLoseIff | wlog/source/CLog.cpp:251-365 | from any state reached before the log is closed, in either mode, a run can lose a line if and only if somebody logs or a line waits in the queue other than the one the flusher is bound to pop |
| AsyncClose.CanLoseFromTheStart | wlog/source/CLog.cpp:251-365 | from the beginning a run can lose a line if and only if somebody logs |
| AsyncClose.CloseCanLoseTheQueue | wlog/source/CLog.cpp:348-360 | a witness of the whole queue being lost: any reachable state in asynchronous mode with the flusher at its loop test |
| AsyncClose.DeadQueueIff | wlog/source/CLog.cpp:251-360 | a logger can come to use the deleted queue if and only if, the flag still set, there is a logger, or, the flag cleared, a logger stands between its test of the flag and its push |
| AsyncClose.DeadFileIff | wlog/source/CLog.cpp:257-365 | a logger can come to write to the closed stream if and only if: before the queue is deleted, there is a logger; after that, some logger is not stranded at the queue; once the file pointer is null, a logger saw it otherwise |
| AsyncClose.FaultsFromTheStart | wlog/source/CLog.cpp:251-365 | from the beginning the first can happen if and only if the log is asynchronous and has a logger, the second if and only if it has one |
| AsyncLog.StepKeepsInv | wlog/source/CLog.cpp:251-365 | every step keeps queue order, ownership of the mutex, and the states in which flag, flusher and close path can meet |
| CLog.Log.constructor | wlog/source/CLog.cpp:143-150 | the object starts in an initial state, asynchronous exactly when a queue size of at least one is given |
| CLog.Log.Format | wlog/source/CLog.cpp:237-249 | a line enters the machine with the next number |
| CLog.Log.TestAsync | wlog/source/CLog.cpp:251-251 | reading the flag is the machine's step and keeps its invariant |
| CLog.Log.TestFull | wlog/source/CLog.cpp:251-251 | the queue check is the machine's step and keeps its invariant; on a deleted queue it is the recorded fault |
| CLog.Log.PushLine | wlog/source/CLog.cpp:253-253 | the push, whose failure nobody sees, is the machine's step and keeps its invariant; on a deleted queue it is the recorded fault |
| CLog.Log.TestFile | wlog/source/CLog.cpp:257-258 | taking the mutex and testing the file pointer is the machine's step and keeps its invariant; with a null pointer the line is lost |
| CLog.Log.WriteLine | wlog/source/CLog.cpp:259-260 | the direct write and the release of the mutex are the machine's step and keep its invariant; on a closed stream it is the recorded fault |
| CLog.Log.LoopTest | wlog/source/CLog.cpp:305-305 | the flusher's loop test is the machine's step and keeps its invariant |
| CLog.Log.InnerTest | wlog/source/CLog.cpp:307-307 | the flusher's second test of the flag is the machine's step and keeps its invariant |
| CLog.Log.PopLine | wlog/source/CLog.cpp:307-307 | the flusher's pop is the machine's step and keeps its invariant; returns the line the machine says it holds |
| CLog.Log.WaitFails | wlog/source/CLog.cpp:307-307 | a pop whose wait fails is the machine's step and keeps its invariant |
| CLog.Log.WriteQueued | wlog/source/CLog.cpp:309-311 | the flusher's write is the machine's step and keeps its invariant |
| CLog.Log.ClearFlag | wlog/source/CLog.cpp:345-351 | the start of the close path, with or without a queue, is the machine's step and keeps its invariant |
| CLog.Log.PushWake | wlog/source/CLog.cpp:352-353 | the wake-up push is the machine's step and keeps its invariant |
| CLog.Log.FlushQueue | wlog/source/CLog.cpp:354-355 | the return of the join, after which flushing the queue does nothing, is the machine's step and keeps its invariant |
| CLog.Log.DeleteQueue | wlog/source/CLog.cpp:356-360 | deleting the queue with whatever is left in it, and whoever stands before it, is the machine's step and keeps its invariant |
| CLog.Log.FlushMem | wlog/source/CLog.cpp:363-363 | flushing the stream under the mutex is the machine's step and keeps its invariant |
| CLog.Log.CloseStream | wlog/source/CLog.cpp:364-364 | closing the stream, outside the mutex, is the machine's step and keeps its invariant |
| CLog.Log.NullFile | wlog/source/CLog.cpp:365-365 | setting the file pointer to null, outside the mutex, is the machine's step and keeps its invariant |
| CLog.Log.Run | wlog/source/CLog.cpp:248-365 | the object carries out any interleaving of its threads' steps that can happen, each thread with its line in a variable of its own, and ends in the state that run of the machine reaches |

## Left out

- The GBK mode of the parser: entry 127 of its jump table is never set and its two-byte step may pass the end of the text.
- Section names of 64 bytes or more, NUL bytes in INI text and failing allocation: excluded by precondition, the source overruns its buffer or truncates there. Names, keys and values are C strings throughout, so that a key given with an explicit length holds no NUL either.
- Characters are modelled as numbers below 256; `memcmp` may look at bytes of a stored key's block after its terminator, which do not influence its result for keys without NUL.
- `atoi` on text that does not fit an `int`, and the 32-bit node counter running over.
- `ini_config_destroy`: its callback lacks a return value and the top-level nodes are not freed. A node freed by insertion or deletion drops out of the tree's footprint; use after free is excluded, the freed blocks are not counted.
- `ini_config_create_from_file`, `ini_config_save` and the two lookup helpers at the end of the file: file input and output around the modelled functions.
- The timed pops of both rings: their deadline has no fixed relation to the milliseconds asked for, and the one of `CACQueue` returns nothing on success. `BlockQueue::front` reads the slot popped last and is no view of the next element.
- The task ring's reads of cursors outside the mutexes (`IsEmpty`) are atomic here.
- TaskQueue.CTaskQueue.IsEmpty: answers about the instant of the call, which other threads may outdate at once.
- PacketDecode.DecodeInvertsEncode: says nothing about frames cut short, IP or TCP options and fragments; the source reads headers without checking lengths and does not handle the others.
- PacketWorker.Deal: asks that the headers the source reads are there, for the same reason.
- The host is little-endian with 4-byte DWORD and 2-byte WORD fields.
- Pipeline.Conservation: one capture thread, as the program has; capture itself is an environment step that delivers a complete packet.
- PacketContent.AnalContent.Assign: excludes a record assigned to itself, where the source frees the buffer it then copies from; no caller does this.
- The output thread's user functions, its file and hex output, and libpcap itself.
- What happens after a logger has used a deleted queue or a closed stream: the behaviour is undefined.
- A second consumer of the log queue through `FlushLog` on a signal, reopening a closed log, line formatting, log file rotation and deletion by date or line count.
- Thread start and detach, signal handling and the creation of the singletons.
