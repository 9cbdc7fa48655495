# Verified model of the executable parts of the Android headers

Most headers of this repository only declare interfaces. Four groups of them contain code, and this
project models that code in Dafny and proves what its users rely on.

* **Atomics under concurrency** (`cutils/atomic-*.h`, `cutils/aref.h`).
  `Tso.dfy` is the x86 machine: a FIFO store buffer per processor, forwarding from the own buffer, and
  `mfence` or a `lock` prefix waiting for the buffer to drain. `SpinLock.dfy`, `Flags.dfy` and
  `PublishLog.dfy` prove three client protocols that the x86 headers serve with few fences or none, for
  any number of processors and any run, beside arbitrary unrelated code; the first two against the lock of
  `IdealLock.dfy`. `X86Calls.dfy` has the x86 operations as methods of one processor among interfering
  others. `AtomicSpec.dfy` says what an atomic operation is: one indivisible step per call.
  `AtomicCode.dfy` has the operations of all headers instruction by instruction. `AtomicMachine.dfy` runs
  any number of threads on the arm, mips (and mips64) and arm64 code, `TsoAtomics.dfy` any number of
  processors with store buffers on the x86 code, and each proves that every run refines the
  specification; on x86 a release store takes its step when it drains. `AtomicLoops.dfy` has the retry
  loops as loops, with the bound on their passes. `Aref.dfy` is the reference count shared by threads on
  any of these machines.
* **The intrusive list** (`cutils/list.h`). `Links.dfy` has the pointer operations on heap nodes,
  `Rings.dfy` any sequence of them over several lists, `Traversal.dfy` the loop macros with bodies that
  change the list, and undoing.
* **The resource bitmap** (`cutils/bitops.h`). `Words.dfy` is a 32-bit word as its binary digits,
  `Bitmask.dfy` the operations on an array of words against a mathematical set.
* **qemud framing** (`hardware/qemud.h`). `Hex.dfy` prints and scans the length, `Qemud.dfy` sends and
  receives over descriptors that interrupt, fail and move fewer bytes than asked.

A machine with concurrency is a state, a type of actions, and the functions `Enabled`, `Step` and, where
clients observe something, `Observe`; a run is a sequence of actions. A theorem about runs is about every
sequence of enabled actions, so about every interleaving. Beside each safety theorem stands one that says
the machine can go on: a call that runs alone finishes (`AtomicMachine.SoloCompletes`,
`TsoAtomics.SoloCompletes`), and from every reachable state every processor can still get the lock, get in
or read the next entry (`SpinLock.EveryoneCanAcquire`, `Flags.EveryoneCanGetIn`,
`PublishLog.PublishedCanBeRead`).

Three promises hold only up to a bound, and each bound is proved exact: a message survives framing if and
only if it is shorter than 65536 bytes (`Qemud.FrameRoundTrip`); a reference put releases if and only if
the number of live references is 1 modulo 2^32 (`Aref.PutReleasesExactlyWhen`), so with more than 2^32 of
them it can release early (`Aref.TooManyReferencesReleaseEarly`); and `bitmask_weight` is the number of
ids in use if and only if no bit past `num_bits` is set (`Bitmask.WeightIsExactOnCleanTail`), which a
`bitmask_set` past `num_bits` in the last word breaks (`Bitmask.WeightCountsIdsPastTheEnd`). Two failures
outside the promised use are shown as well: flags raised without the `mfence` let two processors in
(`Flags.WithoutTheFenceTwoGetInside`), and a receiver takes the bytes after a broken frame for its missing
part (`Qemud.BrokenFrameSwallowsNext`).

Assumptions: `int32_t` wraps around at 32 bits; x86 is compiled for `ANDROID_SMP`; shared words are
aligned; a store-conditional may fail at any time; on mips the instruction after `bne` is skipped by a
taken branch; arm and mips memory is sequentially consistent; arm64's `__sync_val_compare_and_swap` is
one atomic step.

## Model

| member | source | states |
|---|---|---|
| Tso.LookupFlush | cutils/atomic-x86.h:65-70 | a processor's own view does not change while its plain stores drain in order |
| IdealLock.AcceptedIsOrderly | cutils/atomic.h:43-54 | what a lock promises, read off what clients observe: acquisitions find nobody inside, everything else is done by the holder, a read returns the latest write |
| SpinLock.LockIsSequentiallyConsistent | cutils/atomic.h:43-54 | the lock recipe with android_atomic_acquire_cas and android_atomic_release_store: every run under x86-TSO is a run of a lock over ordinary memory, and no two processors ever hold it |
| SpinLock.HoldersSeeAllEarlierWrites | cutils/atomic-x86.h:65-90 | every guarded read is by the current holder and returns the last value any holder wrote, although the release store has no fence |
| SpinLock.HolderSeesLatest | cutils/atomic-x86.h:65-90 | in every reachable state a processor holds the lock exactly when the events say so, and can then read any guarded word and gets the last value put there |
| SpinLock.CasSucceedsExactlyWhenFree | cutils/atomic-x86.h:72-90 | android_atomic_acquire_cas returns zero exactly when nobody holds the lock and no release store is still buffered |
| SpinLock.EveryoneCanAcquire | cutils/atomic.h:43-54 | from every reachable state every processor can still get the lock: the holder need only unlock and the buffers drain |
| SpinLock.StepRefines | cutils/atomic-x86.h:65-99 | each single instruction of the protocol, each drain and each unrelated instruction keeps the simulation |
| SpinLock.DrainStep | cutils/atomic-x86.h:65-70 | the stores-are-not-reordered argument: the release store reaches memory after every guarded store |
| Flags.NeverTwoInside | cutils/atomic-x86.h:43-70 | flags raised with acquire_store, looked at in any order with acquire_load and lowered with release_store exclude each other, for any number of processors and rounds |
| Flags.FlagsAreALock | cutils/atomic-x86.h:43-70 | going in and coming out are the acquisition and the release of a lock over ordinary memory |
| Flags.InsidersSeeAllEarlierWrites | cutils/atomic-x86.h:43-70 | whoever is inside reads the last value written by anyone inside, with plain loads and stores and no fence but that of the raise |
| Flags.InsiderSeesLatest | cutils/atomic-x86.h:43-70 | in every reachable state a processor is inside exactly when the events say so, and can then read any guarded word and gets the last value put there |
| Flags.EveryoneCanGetIn | cutils/atomic-x86.h:43-70 | from every reachable state every processor can still get in: the others need only complete what they have begun and come out |
| Flags.WithoutTheFenceTwoGetInside | cutils/atomic-x86.h:58-70 | the exclusion rests on the mfence of acquire_store: with release_store two processors get in |
| Flags.OutsideFlagsComeDown | cutils/atomic-x86.h:65-70 | a lowered flag is down in memory once the buffer has drained |
| Flags.StepKeepsFlagInv | cutils/atomic-x86.h:43-70 | every instruction keeps: a completed raise is visible to all, and no two processors have each seen the other's flag down |
| Flags.StepKeepsBufInv | cutils/atomic-x86.h:65-70 | the stores-are-not-reordered argument: nobody has seen a flag down whose owner still has guarded stores in its buffer |
| Flags.StepRefines | cutils/atomic-x86.h:43-70 | each instruction, each drain and each unrelated instruction is allowed by the lock and keeps the simulation |
| PublishLog.ReadersSeeFinalContents | cutils/atomic-x86_64.h:50-77 | whoever got count k from acquire_load and reads a slot below k gets the last value ever put there, with no fence anywhere |
| PublishLog.DrainedCountIsComplete | cutils/atomic-x86_64.h:72-77 | once the writer's buffer is empty acquire_load returns the full published count |
| PublishLog.PublishedCanBeRead | cutils/atomic-x86_64.h:50-77 | from every reachable state an entry that the writer fills and publishes can be read by every processor once the writer has drained |
| PublishLog.StepKeepsInv | cutils/atomic-x86_64.h:50-77 | at every moment of the drain each published slot already shows what the writer sees |
| X86Calls.UnhitView | cutils/atomic-x86.h:43-70 | what a processor sees at a word changes only when another processor writes there |
| X86Calls.Processor.AcquireLoad | cutils/atomic-x86.h:43-49 | acquire_load returns the processor's own view |
| X86Calls.Processor.ReleaseLoad | cutils/atomic-x86.h:51-56 | release_load returns what is in memory, its own stores having drained |
| X86Calls.Processor.ReleaseStore | cutils/atomic-x86.h:65-70 | release_store only enters the store buffer |
| X86Calls.Processor.AcquireStore | cutils/atomic-x86.h:58-63 | when acquire_store returns its value is in memory unless another processor has overwritten it |
| X86Calls.Processor.Cas | cutils/atomic-x86.h:72-99 | cas and its acquire and release forms are one step on memory that returns zero exactly on exchange; undisturbed, exactly when the processor saw the old value |
| X86Calls.Processor.Add | cutils/atomic-x86.h:101-121 | add is one step on memory that returns the previous value; undisturbed, the value the processor saw |
| X86Calls.Processor.Fetch | cutils/atomic-x86.h:123-143 | and, or are one step on memory even when the load is forwarded from the own buffer, in at most one pass more than others wrote the word |
| X86Calls.Processor.FetchPass | cutils/atomic-x86.h:127-130 | a failing pass changes nothing and is the fault of another processor's write |
| AtomicSpec.AdvanceKeepsMatched | cutils/atomic.h:73-84 | steps and calls match one to one, and a call returns the value computed from the word just before its step |
| AtomicSpec.ReturnsPreviousWord | cutils/atomic.h:73-84 | add, inc, dec, and, or and a load return the word just before their step |
| AtomicSpec.CasReportsExchange | cutils/atomic-x86.h:72-81 | cas returns zero exactly when it found the old value; then the new one is in, otherwise the word is unchanged |
| AtomicSpec.StoresAndLoads | cutils/atomic-x86.h:43-70 | a store sets the word, a load leaves it |
| AtomicSpec.WordIsSumOfIncrements | cutils/atomic.h:73-84 | after any history of adds the word is the initial value plus the increments modulo 2^32 |
| AtomicSpec.TicketsCollideExactlyOnWrapAround | cutils/atomic.h:73-84 | two incs return the same value exactly when a multiple of 2^32 separates them |
| AtomicSpec.TicketsAreDistinct | cutils/atomic.h:73-84 | up to 2^32 incs return pairwise distinct values |
| AtomicSpec.FlagsAccumulate | cutils/atomic.h:73-84 | after any history of ors bit b, the parity of the unsigned word divided by 2^b, is one exactly when it was before or is in some mask |
| AtomicSpec.FlagsAreCleared | cutils/atomic.h:73-84 | after any history of ands bit b is left exactly when every mask keeps it |
| Int32.BitsAreBinary | cutils/atomic.h:76-84 | the digits that the bitwise operators work on are the binary digits of the uint32_t |
| Int32.OperatorBits | cutils/atomic.h:83-84 | bit by bit, in arithmetic terms: and is conjunction, or is disjunction |
| Int32.OperatorSums | cutils/atomic.h:83-84 | without bits: (x or y) plus (x and y) is x plus y, and (x and y) is at most x, which is at most (x or y) |
| AtomicMachine.EveryRunIsAtomicSteps | cutils/atomic-arm.h:69-165 | linearizability of cas, add, and, or on arm, and by the same statement on mips and arm64, under any interleaving and any store-conditional failures |
| AtomicMachine.SoloCompletes | cutils/atomic-arm.h:106-165 | from every reachable state on arm, mips and arm64 a call whose thread runs alone is ready to return after at most two rounds of its code, with the word changed and the value returned as the operation says |
| AtomicMachine.LoneCall | cutils/atomic-mips.h:72-172 | a call that runs alone from the start takes one round |
| AtomicCode.InstructionIsRight | cutils/atomic-mips.h:72-172 | each instruction of each loop, whichever way the status flag is read, either is the call's atomic step or changes nothing |
| AtomicMachine.CountersCount | cutils/atomic-arm64.h:108-130 | on arm, mips and arm64 a word changed by add, inc, dec is the initial value plus the increments that took effect |
| AtomicMachine.IncsReturnDistinctValues | cutils/atomic-arm64.h:120-124 | on arm, mips and arm64 two incs are handed the same previous value exactly when a multiple of 2^32 separates their steps |
| AtomicMachine.FlagsAreNeverLost | cutils/atomic-arm64.h:144-154 | on arm, mips and arm64 flags set with or by any number of threads are all in the word |
| TsoAtomics.EveryRunIsAtomicSteps | cutils/atomic-x86.h:43-143 | x86-TSO: in every run each cas, add, and, or is one step on memory between its call and its return, each release_store takes effect once, in order, when it drains, and acquire_load returns the own outstanding store or the word |
| TsoAtomics.SoloCompletes | cutils/atomic-x86.h:72-143 | the same on x86, after the own buffer has drained, from what the processor saw, its outstanding stores included |
| TsoAtomics.PostedStoreLands | cutils/atomic-x86.h:43-70 | a release_store is seen by its own processor at once and by all once its buffer has drained |
| TsoAtomics.EmptyBufferMeansLanded | cutils/atomic-x86.h:58-63 | after the mfence of acquire_store no store of the processor is outstanding |
| TsoAtomics.ReleaseStoreTakesEffectLater | cutils/atomic-x86.h:65-70 | release_store is no step between call and return: another processor can still load the old value |
| TsoAtomics.DrainRefines | cutils/atomic-x86.h:65-70 | a drained store of the word is one step of its own, the oldest outstanding one |
| TsoAtomics.CountersCount | cutils/atomic-x86.h:101-121 | with store buffers a word changed by add, inc, dec is the initial value plus the increments that took effect |
| TsoAtomics.IncsReturnDistinctValues | cutils/atomic-x86.h:111-115 | with store buffers two incs are handed the same previous value exactly when a multiple of 2^32 separates their steps |
| TsoAtomics.FlagsAreNeverLost | cutils/atomic-x86.h:134-143 | flags set with the cas loop of or, whose load may be forwarded, are all in the word |
| AtomicLoops.Word.ArmCasBlock | cutils/atomic-arm.h:74-85 | the asm block: status zero means the cas happened at once, otherwise nothing was stored and interference or a spurious failure is to blame |
| AtomicLoops.Word.ArmFetchBlock | cutils/atomic-arm.h:111-119 | the same for add, and, or |
| AtomicLoops.Word.MipsCasBlock | cutils/atomic-mips.h:76-87 | the same with zero for failure |
| AtomicLoops.Word.MipsFetchBlock | cutils/atomic-mips.h:116-124 | the same for add, and, or |
| AtomicLoops.Word.ReadCasBlock | cutils/atomic-arm64.h:113-116 | read then cas: correct even if the word changed and changed back |
| AtomicLoops.Word.ArmCas | cutils/atomic-arm.h:69-87 | the call is one atomic step; its passes are bounded by others' writes and spurious failures |
| AtomicLoops.Word.ArmFetch | cutils/atomic-arm.h:106-165 | the same for add, and, or |
| AtomicLoops.Word.MipsCas | cutils/atomic-mips.h:72-89 | the same for mips |
| AtomicLoops.Word.MipsFetch | cutils/atomic-mips64.h:104-165 | the same for add, and, or |
| AtomicLoops.Word.ReadCasFetch | cutils/atomic-arm64.h:108-154 | the call is one atomic step in at most one pass more than the writes by others during it |
| Aref.Counter.constructor | cutils/aref.h:39-42 | after aref_init the count stands for the one reference of the creator |
| Aref.Counter.Count | cutils/aref.h:44-47 | aref_count returns the number of references exactly when there are fewer than 2^31 |
| Aref.Counter.Get | cutils/aref.h:49-52 | aref_get adds one reference, however many there are |
| Aref.Counter.Put | cutils/aref.h:54-58 | aref_put gives one reference up and calls release exactly when the references were 1 modulo 2^32 |
| Aref.ReleaseOnceOnArmAndMips | cutils/aref.h:49-58 | on the instruction-level machines of arm, mips and arm64: clients that use the count only while they hold a reference, and never more than 2^32 of them, get exactly one release, after the last put, in every run |
| Aref.ReleaseOnceOnX86 | cutils/aref.h:49-58 | the same for the x86 instructions with store buffers |
| Aref.ReleaseOnceAfterLastPut | cutils/aref.h:54-58 | for every interleaving of calls, steps, returns and references handed over, with at most 2^32 alive, release is never called while a reference lives, never twice, and has been called once all references are put and all calls have returned |
| Aref.NothingAfterLastPut | cutils/aref.h:49-58 | from aref_init on, once no reference is left, no step on the count happens in any continuation: calls can only return |
| Aref.PutReleasesExactlyWhen | cutils/aref.h:54-58 | in every run, without any bound, the step of a put decides to release exactly when the live references before it are 1 modulo 2^32 |
| Aref.LastPutReleases | cutils/aref.h:54-58 | putting the one reference there is calls release |
| Aref.CountIsLive | cutils/aref.h:44-47 | aref_count is the number of live references exactly while there are fewer than 2^31 |
| Aref.TooManyReferencesReleaseEarly | cutils/aref.h:49-58 | with 2^32 + 1 references a put releases although 2^32 are left |
| Links.Init | cutils/list.h:52-56 | list_init makes an empty ring |
| Links.AddTail | cutils/list.h:58-64 | list_add_tail appends to the ring, also when it is empty and head and head->prev are one node |
| Links.AddHead | cutils/list.h:66-72 | list_add_head prepends |
| Links.Remove | cutils/list.h:74-78 | list_remove deletes exactly that node and leaves its own links |
| Links.Rotate | cutils/list.h:26-39 | any node of a ring can serve as its head |
| Rings.RunAll | cutils/list.h:52-78 | any legal sequence of list calls over any number of disjoint lists keeps them disjoint rings with the contents of the sequence model; adding beside any node, adding nodes that were list_inited, removing any node and list_init of an empty list are legal |
| Rings.OneRingChanges | cutils/list.h:58-78 | a call changes the one list its node is in, at that node, and no other |
| Rings.InitPlaces | cutils/list.h:52-56 | list_init adds an empty list, unless the node heads one already, and keeps every list |
| Rings.AddTailPlaces | cutils/list.h:58-64 | list_add_tail puts the item just before its first argument and changes nothing else |
| Rings.AddHeadPlaces | cutils/list.h:66-72 | list_add_head puts the item just after its first argument and changes nothing else |
| Rings.AddAtHead | cutils/list.h:58-72 | given the head of a list, list_add_tail appends and list_add_head prepends |
| Rings.RemovePlaces | cutils/list.h:74-78 | list_remove takes the node out and changes nothing else; a node alone stays as it is |
| Rings.MoveConserves | cutils/list.h:58-78 | moving any node before any other conserves the set of nodes, puts it there and keeps the order of all others |
| Traversal.ForEach | cutils/list.h:41-42 | list_for_each visits the items in order |
| Traversal.ForEachReverse | cutils/list.h:44-45 | list_for_each_reverse visits them in reverse |
| Traversal.ForEachRemoving | cutils/list.h:41-42 | list_for_each still visits every item when the body list_removes the current one; the rest stays in order |
| Traversal.ForEachSafe | cutils/list.h:47-50 | list_for_each_safe visits every initial item once in order whatever the body does to the current node, be it moved to either end of another list; kept and moved nodes end up where they belong and no node is lost or duplicated |
| Traversal.MovedLandsAtTheEnd | cutils/list.h:58-72 | a node moved to the tail or the head of the other list is the last or the first item there |
| Traversal.RemoveAndStep | cutils/list.h:41-50 | the step to node->next after list_remove still leads to the item that followed |
| Traversal.AddTailThenRemove | cutils/list.h:58-78 | list_remove restores every other node's links after list_add_tail before any node |
| Traversal.AddHeadThenRemove | cutils/list.h:66-78 | and after list_add_head after any node |
| Bitmask.Init | cutils/bitops.h:54-57 | bitmask_init leaves the empty set and touches no word k with 32 * k >= num_bits |
| Bitmask.Set | cutils/bitops.h:88-91 | bitmask_set adds exactly that id |
| Bitmask.Clear | cutils/bitops.h:93-96 | bitmask_clear removes exactly that id |
| Bitmask.Test | cutils/bitops.h:98-101 | bitmask_test is membership |
| Bitmask.Ffz | cutils/bitops.h:59-76 | bitmask_ffz is the least free id below num_bits, and -1 exactly when there is none, whatever the bits past num_bits are |
| Bitmask.Weight | cutils/bitops.h:78-86 | bitmask_weight counts every one bit of the words k with 32 * k < num_bits |
| Bitmask.BitsToWords | cutils/bitops.h:49 | BITS_TO_WORDS is the least number of words that holds that many bits |
| Bitmask.StoredIsPrefix | cutils/bitops.h:48-50 | the words that hold num_bits ids are the first BITS_TO_WORDS ones |
| Bitmask.WeightIsExactOnCleanTail | cutils/bitops.h:78-86 | that is the number of ids in use exactly when no bit past num_bits is set |
| Bitmask.WeightCountsIdsPastTheEnd | cutils/bitops.h:78-91 | bitmask_set makes the weight wrong, by one, exactly for an id past num_bits in the last word |
| Bitmask.IdsAfterUpdate | cutils/bitops.h:48-52 | the word and bit index macros address each id's own bit |
| Bitmask.HasIsBit | cutils/bitops.h:48-52 | an id is the bit of value 2^(id % 32) in word id / 32 |
| Words.OperatorsAsNumbers | cutils/bitops.h:52-101 | the unsigned operators as arithmetic: ~v is 2^32 - 1 - v, 1 << b is 2^b, and and or share the sum |
| Bitmask.UpdatesRepresent | cutils/bitops.h:88-96 | set and clear in range keep the bits past num_bits zero |
| Bitmask.Session | cutils/bitops.h:26-46 | after init and any sequence of sets and clears in range, test answers for the abstract set and weight is its size |
| Bitmask.Allocate | cutils/bitops.h:37-40 | ffz then set takes the least free id |
| Bitmask.AllocateAll | cutils/bitops.h:37-40 | repeated allocation hands out distinct ids, exactly the free ones, num_bits less the weight of them |
| Hex.HeaderRoundTrip | hardware/qemud.h:115-142 | the length printed with %04x into five bytes is four lower-case digits, read back exactly when it is below 65536 and as another length otherwise |
| Hex.HeaderDigits | hardware/qemud.h:115 | below 65536 the header is the four hexadecimal digits, most significant first |
| Hex.HeaderIsCut | hardware/qemud.h:115 | of a longer length only the leading digits are printed |
| Hex.DigitCharacters | hardware/qemud.h:115 | the digits are the characters 0 to 9 and a to f in this order |
| Hex.ScanStopsAtOther | hardware/qemud.h:139 | the number read is that of the leading digits; without any it is an error |
| Qemud.FrameRoundTrip | hardware/qemud.h:104-151 | a message that fits the buffer is received as sent exactly when it is shorter than 65536 bytes |
| Qemud.LongMessageIsRefused | hardware/qemud.h:139-144 | a message longer than the buffer is refused, its bytes staying on the stream |
| Qemud.EmptyFrameIsReceived | hardware/qemud.h:139-150 | the frame of an empty message is received as one |
| Qemud.FramesRoundTrip | hardware/qemud.h:104-151 | over a whole conversation the receiver gets the nonempty messages in order and consumes the stream |
| Qemud.FramesInjective | hardware/qemud.h:104-151 | different conversations differ on the wire |
| Qemud.CutStreamYieldsPrefix | hardware/qemud.h:128-151 | a stream cut anywhere yields a prefix of the messages, none altered |
| Qemud.BrokenFrameSwallowsNext | hardware/qemud.h:120-124 | after a payload that broke off, the receiver takes what follows for the missing part |
| Qemud.Sender.FdWrite | hardware/qemud.h:43-51 | qemud_fd_write adds exactly the bytes it reports and never fails with EINTR |
| Qemud.Payload | hardware/qemud.h:109-110 | the bytes to be sent: the first msglen, or those before the first zero when msglen is negative |
| Qemud.Sender.Send | hardware/qemud.h:104-126 | the bytes added are a prefix of the frame, and 0 is returned exactly when the whole frame was added |
| Qemud.Receiver.FdRead | hardware/qemud.h:53-61 | qemud_fd_read takes exactly the bytes it reports off the stream and never fails with EINTR |
| Qemud.Receiver.Recv | hardware/qemud.h:128-151 | a message returned fits the buffer; the bytes taken off the stream are exactly its frame, or, when the call fails, no complete frame with a payload; without short reads the outcome is the one of the format |
| Qemud.SendAll | hardware/qemud.h:104-126 | sends in a row add a prefix of the frames, all of them exactly when every send returned 0 |
| Qemud.RecvAll | hardware/qemud.h:128-151 | receives in a row return the messages of the format |
| Qemud.PrefixYieldsNext | hardware/qemud.h:128-151 | from whatever part of the frames has arrived, only the next nonempty message can be received |
| Qemud.ReceiveFailsExactlyWhenEarly | hardware/qemud.h:128-151 | in a conversation a receive fails exactly when its frame has not arrived in full, and takes exactly that frame otherwise |
| Qemud.Converse | hardware/qemud.h:104-151 | sending, transport and receiving interleaved in any way, over calls that may fail: what is received is a prefix of the nonempty messages, and all of them over interrupted calls unless a receive came before its frame had arrived in full |

## Left out

- The HAL interface headers, the `*_open` and `*_close` wrappers, and the cutils headers that only declare (hashmap, str_parms, properties and others): there is no code to model.
- cutils/threads.h, trace.h, log and socket helpers, `qemu_pipe_open` and `qemud_channel_open`: plumbing around system calls.
- `node_to_item`, `AREF_TO_ITEM`, `list_empty`, `list_head`, `list_tail`: address arithmetic or one field access.
- `popcount`, `popcountl`, `popcountll` of cutils/bitops.h: direct calls of compiler builtins. The builtins popcount and ffs are defined by their meaning in `Words.dfy`.
- The barriers of the arm, arm64 and mips headers: their memory is taken to be sequentially consistent, so `dmb` and `sync` do nothing in the model.
- Compiler reordering: compiler barriers are taken at their word.
- Aref.ReleaseOnceAfterLastPut: assumes what reference counting rests on, that a thread touches the count only while it holds a reference, and that aref_init is done before the count is shared.
- PublishLog.ReadersSeeFinalContents: the writer stops publishing at 2^31 - 1 entries, the largest count an int32_t holds.
- Bitmask.Set, Bitmask.Clear and Bitmask.Test take ids that are not negative and whose word exists, and Bitmask.Init, Bitmask.Ffz and Bitmask.Weight a num_bits that is not negative and whose words exist: the header checks no bounds.
- Rings.RunAll: list_init on a node that is still linked to others, and adding a node that is, are left out; both break the other list in C.
- Qemud.Converse: a read that finds nothing waits for a later turn instead of blocking.
- Hex.Scan: leading white space, a sign and a 0x prefix, which sscanf would accept, count as malformed; qemud_channel_send never writes them.
- Qemud.Receiver.Recv: the bytes that a failed receive left in the caller's buffer are not described, only those it took off the stream.
