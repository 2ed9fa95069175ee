# lo2s: ordered, well-nested traces from unordered records

lo2s collects records that are produced concurrently and out of order (perf buffers,
shared-memory ring buffers, GPU tool callbacks) and turns them into OTF2 event streams that
have to be ordered in time, well nested, and consistent about the calling contexts they name.
This project models the places where that is decided and proves what they guarantee, for all
inputs, all runs and all interleavings.

| file | models |
|---|---|
| `CallingContexts.dfy` | the tagged context value and its three comparison operators |
| `CctxTrace.dfy` | the reference meaning of a local tree: a bare call stack whose events name nodes by path |
| `LocalTree.dfy` | `LocalCctxTree`: call stack, growing tree, numbered nodes, event stream |
| `CctxMerge.dfy` | `merge_nodes`, `merge_calling_contexts`, the tree loop of `finalize`, and the end-to-end result |
| `SampleWriter.dfy` | the sample writer on top of a local tree |
| `SampleStream.dfy` | exactly which thread, CPU and sample events a sample writer writes |
| `SampleMerge.dfy` | sample writers and the merge together, up to the translated streams |
| `Bytes.dfy` | little-endian fields and windows into a buffer that wraps |
| `ShmRingbuf.dfy` | the shared-memory ring buffer, one step per atomic access or byte, any interleaving |
| `GpuKernels.dfy` | the writer that numbers kernel names, its events, and the GPU monitor |
| `GpuNames.dfy` | what the trace shows of the kernels, read with the monitor's table |
| `GpuRing.dfy` | writer and monitor joined by the ring buffer, which answers the writer's reservations |
| `EventReader.dfy` | the perf mmap reader and its wrap-around copy |
| `MultiReader.dfy`, `BioWriter.dfy` | the k-way merge of per-CPU buffers and the block I/O writer behind it |
| `HipReorder.dfy` | the bounded reorder heap for HIP kernels |
| `MemoryMap.dfy` | the interval map from addresses to resolvers |
| `EventAttr.dfy` | bit deposit into config words |

Each imperative class is proved against a specification function or reference machine in the
same or a lower file, and the results are stated about those.

Where the code does not do what its comments or names promise, the code is followed, and the
exact condition under which the promise holds is proved:

* `CallingContext::operator!=` is false for any two contexts of one kind, so a process or thread
  that appears without a switch-out in between is recorded under its predecessor
  (`WrittenInFirstScope`, against `WrittenInOwnScope` for a real disequality).
* The root of a local tree carries the number of the first node, so a call chain without an address,
  sampled while nothing is entered, is read as a sample of that node (`RootIsReadAsFirstNode`,
  `RootSampleIsMisread`). A run writes such an event exactly if it makes such a call
  (`NamesRootExactlyWhen`); a sample writer never does (`LifetimeNamesNoRoot`).
* A ring-buffer commit that makes head and tail meet hides everything unread
  (`ExactFillHidesEverything`), the next reservation overwrites the oldest of it
  (`ExactFillIsOverwritten`), and there is a run from a new buffer that gets there
  (`WholeBufferIsGranted`).
* A kernel whose definition found no room is written under the number 0: `NamedRightExactlyWhen` for
  the table at that moment, `NamedInTheEndExactlyWhen` and `NamesAcrossTheRing` for the table the trace
  is resolved with, and `MisnamingIsReachable` for a run in any buffer of more than 112 bytes in which
  the ring refuses the definition and grants the kernel.
* `thread_begin` written by `end()` can be older than events before it
  (`WholeStreamIsOrderedExactlyWhen`).
* `MemoryMap::emplace` loses the left part of a mapping that straddles the new start, although the
  log text says its end moves there (`OverrideExactlyWhen`), and the piece right of the new range
  keeps the page offset of the whole (`RightPieceOffsetExactlyWhen`).
* A block I/O completion for a sector that was never queued is written unless its whole device is
  unknown (`CompletionWrittenExactlyWhen`).
* The HIP heap restores the order exactly if at most 99 later-starting kernels arrive before any one
  (`ReleasedInOrderExactlyWhen`).

## Model

| member | source | states |
|---|---|---|
| `CallingContexts.LessIsStrictTotalOrder` | include/lo2s/calling_context.hpp:147-171 | operator< is a strict total order whose incomparable pairs are the equal ones, so the children maps are finite functions of the context |
| `CallingContexts.LessIsLexicographic` | include/lo2s/calling_context.hpp:147-171 | operator< goes by kind and then by number; OpenMP regions by type, number of threads and address |
| `CallingContexts.AsWrittenIsRightExactlyWhen` | include/lo2s/calling_context.hpp:199-223 | operator!= agrees with disequality exactly for equal contexts or contexts that differ in tag and payload word; left open only for an OpenMP left operand against an equal payload word of another tag, where the code reads indeterminate bytes |
| `CctxTrace.EveryRunIsNested` | include/lo2s/local_cctx_tree.hpp:52-109 | for any comparison and any run, replaying the stream gives the current stack, the root is never left, and a leave at level 1 balances the stream |
| `CctxTrace.EnterIsExact` | include/lo2s/local_cctx_tree.hpp:66-81 | with a real disequality, entering contexts at a level changes nothing if they match and otherwise leaves exactly from the first mismatch upward and enters exactly the rest |
| `CctxTrace.EnterNodePlacesContext` | include/lo2s/local_cctx_tree.hpp:128-162 | for any comparison, the context is at its level afterwards exactly if the level was free, held it already, or held something the comparison tells apart |
| `CctxTrace.SameKindIsNeverReplaced` | include/lo2s/local_cctx_tree.hpp:155-160 | with operator!= as written, entering a second process at level 1 keeps the first one and writes nothing |
| `CctxTrace.LeaveIsExact` | include/lo2s/local_cctx_tree.hpp:97-109 | leaving a level keeps the levels below and writes one leave event for each node from there up, innermost first |
| `CctxTrace.LeaveTopIsExact` | include/lo2s/local_cctx_tree.hpp:91-94 | leaving the top-most node pops that one and writes its leave event; at the root nothing happens |
| `CctxTrace.EnterBelowIsExact` | include/lo2s/local_cctx_tree.hpp:52-59 | entering below the stack puts all contexts on top, with one enter event each |
| `CctxTrace.SampleIsExact` | src/local_cctx_tree.cpp:25-52 | a sample is one event for the stack followed by what was sampled, and leaves the stack alone |
| `CctxTrace.FramesAreExact` | src/local_cctx_tree.cpp:28-41 | the frames of a call chain are the addresses of the entries from 1 on, last entry first, without exactly the two markers 2^64 - 128 and 2^64 - 512 |
| `CctxTrace.FramesHold` | src/local_cctx_tree.cpp:32-40 | an address is a frame exactly if an entry from 1 on holds it and it is neither marker |
| `LocalTree.LocalCctxTree.constructor` | src/local_cctx_tree.cpp:19-23 | a new tree is the root alone and refines the empty reference machine |
| `LocalTree.LocalCctxTree.CreateCctxNode` | include/lo2s/local_cctx_tree.hpp:164-177 | finds or adds exactly one child, never renumbers a node, and keeps the numbers a bijection with the non-root nodes |
| `LocalTree.LocalCctxTree.CctxLeave` | include/lo2s/local_cctx_tree.hpp:97-109 | pops and closes exactly the nodes at the level or above, as the reference machine does |
| `LocalTree.LocalCctxTree.CctxLeaveTop` | include/lo2s/local_cctx_tree.hpp:91-94 | leaves the top-most node, and nothing at the root |
| `LocalTree.LocalCctxTree.HandleEnterCctxNode` | include/lo2s/local_cctx_tree.hpp:128-162 | refines the reference machine's entering of one node, for any comparison |
| `LocalTree.LocalCctxTree.CctxEnter` | include/lo2s/local_cctx_tree.hpp:66-81 | refines entering a list of contexts from a level on |
| `LocalTree.LocalCctxTree.CctxEnterBelow` | include/lo2s/local_cctx_tree.hpp:52-59 | enters below the current stack and returns the first new level |
| `LocalTree.LocalCctxTree.CctxSampleIp` | src/local_cctx_tree.cpp:47-52 | writes a sample for the stack extended by the address and leaves the stack alone |
| `LocalTree.LocalCctxTree.WalkChain` | src/local_cctx_tree.cpp:28-41 | the downward loop reaches the node of the start path followed by the non-marker entries 1.. in reverse |
| `LocalTree.LocalCctxTree.CctxSampleChain` | src/local_cctx_tree.cpp:25-45 | writes the sample of a call chain with the number of exactly that node |
| `LocalTree.LocalCctxTree.Finalize` | include/lo2s/local_cctx_tree.hpp:35-38 | publishes the number of nodes |
| `LocalTree.Record` | include/lo2s/local_cctx_tree.hpp:30-187 | every valid run leaves the reference trace with each path replaced by its number, all numbers still valid at the end |
| `LocalTree.EveryRunReplaysToStack` | include/lo2s/local_cctx_tree.hpp:91-162 | the enter and leave numbers written replay to the numbers on the current stack |
| `CctxMerge.SameDefinitionExactlyWhen` | src/trace/trace.cpp:825-891 | two global nodes share a definition exactly if they are the same or carry the same process, thread or syscall |
| `CctxMerge.DefinitionIsExact` | src/trace/trace.cpp:803-891 | the definition of a process, thread or syscall node is the shared one of that context; that of an address, GPU kernel or OpenMP node is made for the node, below its parent's |
| `CctxMerge.Trace.constructor` | src/trace/trace.cpp:105 | the global tree starts empty over a registry that may hold shared definitions |
| `CctxMerge.Trace.AddNode` | src/trace/trace.cpp:909-942 | a new node gets the shared definition of its context or one of its own below its parent's, resolved in the process given; tree, registry and definitions keep everything they had |
| `CctxMerge.Trace.MergeChild` | src/trace/trace.cpp:904-952 | one child is in the global tree, its table entry is set from unset, and the process context is that of its own PROCESS ancestor |
| `CctxMerge.Trace.MergeNodes` | src/trace/trace.cpp:899-957 | adds exactly the local paths below, leaves all other nodes and table entries as they are, maps every number to the definition of its path, and resolves nodes in their own process when PROCESS nodes are at level 1 only |
| `CctxMerge.Trace.MergeCallingContexts` | src/trace/trace.cpp:959-981 | the table has an entry for every number, the paths are the union, existing nodes keep their definitions |
| `CctxMerge.Trace.Finalize` | src/trace/trace.cpp:1141-1150 | over all trees: union of the paths, every table right for the final tree, trees without nodes get no table; with processes on top, every address, GPU kernel, OpenMP and thread node under a process was resolved in that process |
| `CctxMerge.MergeOrderIsIrrelevant` | src/trace/trace.cpp:1143-1150 | the path set contributed does not depend on the order of the trees |
| `CctxMerge.TranslationIsFaithful` | src/trace/trace.cpp:959-981 | reading a stream through its table gives the definition at exactly the path each event below the root was written for |
| `CctxMerge.RootIsReadAsFirstNode` | src/local_cctx_tree.cpp:19-23 | an event for the root itself would be read as one for the first node |
| `CctxMerge.NamesRootExactlyWhen` | src/local_cctx_tree.cpp:25-52 | a run writes an event for the root exactly if it samples a call chain without an address while nothing is entered |
| `CctxMerge.RootRunSamplesRoot` | src/local_cctx_tree.cpp:25-45 | a run that does: enter a process, leave it, sample a chain of one entry |
| `CctxMerge.RootSampleIsMisread` | src/local_cctx_tree.cpp:19-23 | in every recording of that run the sample is read as one of the first node |
| `CctxMerge.TraceAll` | src/trace/trace.cpp:1141-1150 | end to end: any runs, recorded, merged and translated, read as their reference traces with every path below the root replaced by the global definition at that path; the whole stream does for every run that does not sample the root |
| `SampleWriter.LifetimeIsOrderedAndBalanced` | src/perf/sample/writer.cpp:51-62 | for any records in any time order, all events but thread_begin are in order and enter and leave are balanced at the end |
| `SampleWriter.WholeStreamIsOrderedExactlyWhen` | src/perf/sample/writer.cpp:216-241 | the whole stream is in order unless a thread was only ever switched out, at a time after construction |
| `SampleWriter.FirstEventExactlyWhen` | src/perf/sample/writer.cpp:174-193 | thread_begin is missing exactly while there were only switch-outs |
| `SampleWriter.WrittenInFirstScope` | src/perf/sample/writer.cpp:174-193 | with the comparison as written, everything between two switch-outs is recorded under the first process and thread there |
| `SampleWriter.WrittenInOwnScope` | src/perf/sample/writer.cpp:174-193 | with a real disequality every record is recorded under its own process and thread |
| `SampleWriter.Writer.constructor` | src/perf/sample/writer.cpp:39-49 | both time points are the time of construction, nothing is written |
| `SampleWriter.Writer.AdjustTimepoints` | src/perf/sample/writer.cpp:127-140 | the time used is the later of the record's and the last one, which it becomes |
| `SampleWriter.Writer.UpdateCallingContext` | src/perf/sample/writer.cpp:174-193 | leaves or enters process and thread, with thread_begin before the first entry on a thread |
| `SampleWriter.Writer.HandleSample` | src/perf/sample/writer.cpp:91-107 | a sample record has the effect of the reference function, with or without a call graph |
| `SampleWriter.Writer.HandleSwitch` | src/perf/sample/writer.cpp:142-172 | a switch record has the effect of the reference function; on a thread the CPU is written too |
| `SampleWriter.Writer.Finish` | src/perf/sample/writer.cpp:216-241 | end(): thread_begin if still missing, then thread_end at the last time |
| `SampleWriter.Writer.Close` | src/perf/sample/writer.cpp:51-62 | the destructor leaves level 1 and finalizes the tree |
| `SampleWriter.Measure` | src/perf/sample/writer.cpp:39-241 | a whole lifetime leaves a recording of exactly the reference stream, fit to be merged |
| `SampleStream.ThreadEventsAreExact` | src/perf/sample/writer.cpp:174-241 | on a thread exactly one thread_begin, at the latest time up to the first record that is no switch-out (the construction time without one), and exactly one thread_end, at the latest time of all; neither on a CPU |
| `SampleStream.BeginComesFirst` | src/perf/sample/writer.cpp:183-191 | thread_begin stands before every enter event |
| `SampleStream.SwitchesAreExact` | src/perf/sample/writer.cpp:142-172 | on a thread the CPU events are one for each switch record in order, -1 for a switch-out and the CPU otherwise; none on a CPU |
| `SampleStream.SamplesAreExact` | src/perf/sample/writer.cpp:91-107 | the sample events are one for each sample record in order, for its frames below the scope the comparison gives it |
| `SampleMerge.LifetimeNamesNoRoot` | src/perf/sample/writer.cpp:91-107 | a sample writer enters a process before it samples, so no event of its stream is for the root |
| `SampleMerge.SampleInStream` | src/perf/sample/writer.cpp:91-107 | every sample record is in the stream, at the latest time seen by then, below the scope that was current |
| `SampleMerge.SwitchInStream` | src/perf/sample/writer.cpp:155-172 | after a switch record on a thread the last event is its CPU, -1 exactly for a switch-out, at the latest time by then |
| `SampleMerge.MergeSamples` | src/trace/trace.cpp:1141-1150 | any number of writers, merged and translated: every sample is the definition of its frames below the first scope since the last switch-out as the code compares, below its own scope with a real disequality |
| `ShmRingbuf.FitsExactlyWhen` | src/rb/shm_ringbuf.cpp:58-89 | a reservation is granted exactly if it leaves at most the size in use, and less when the head is behind the tail seen |
| `ShmRingbuf.LoadableExactlyWhen` | src/rb/shm_ringbuf.cpp:123-137 | n bytes can be loaded exactly if that many lie between tail and head |
| `ShmRingbuf.PutKeepsCore` | include/lo2s/rb/writer.hpp:35-54 | a byte written into a reservation disturbs nothing unread, however old the tail the writer saw |
| `ShmRingbuf.CommitAppends` | src/rb/shm_ringbuf.cpp:107-111 | a commit puts the event behind the unread ones; head meets tail exactly if the buffer is then full |
| `ShmRingbuf.PopKeepsCore` | src/rb/shm_ringbuf.cpp:113-121 | a pop removes exactly the first unread event |
| `ShmRingbuf.HeadBounds` | src/rb/reader.cpp:75-79 | a header can be loaded only if its whole event can |
| `ShmRingbuf.StepKeepsInv` | src/rb/shm_ringbuf.cpp:58-137 | every step of either process keeps the invariant unless it is a commit that makes head and tail meet |
| `ShmRingbuf.PoppedIsPrefixOfCommitted` | src/rb/reader.cpp:75-89 | in every interleaving the popped events are a prefix of the committed ones, byte for byte, and the reader sees empty exactly when it has read all |
| `ShmRingbuf.UnreadBytesAreUntouched` | include/lo2s/rb/writer.hpp:35-54 | no step changes a byte of an unread event |
| `ShmRingbuf.GetAfterNonEmptySucceeds` | include/lo2s/rb/reader.hpp:48-67 | get() does not fail once empty() has said no |
| `ShmRingbuf.EmptyExactlyWhen` | src/rb/reader.cpp:75-79 | empty() says so exactly if everything committed when it loaded the head was popped |
| `ShmRingbuf.NextEventCanBeRead` | src/rb/reader.cpp:81-89 | whatever the writer is at, the reader by itself can take the next unread event out of the buffer |
| `ShmRingbuf.ExactFillHidesEverything` | src/rb/shm_ringbuf.cpp:67-73 | after a commit the reader sees the truth exactly if head and tail do not meet |
| `ShmRingbuf.WholeBufferIsGranted` | src/rb/shm_ringbuf.cpp:67-73 | a run from a new buffer reserves its whole size, and the commit then due makes head and tail meet |
| `ShmRingbuf.ExactFillIsOverwritten` | src/rb/shm_ringbuf.cpp:67-73 | after such a commit any reservation up to the whole size is granted, and clearing it wipes out the size field of the oldest unread event |
| `ShmRingbuf.RunKeepsAlignment` | src/rb/shm_ringbuf.cpp:64-65 | head and tail stay multiples of eight, so the alignment errors are never raised |
| `GpuKernels.DecodeDef` | include/lo2s/gpu/events.hpp:22-27 | a definition event holds type 1, the id and the name with its terminating zero at offsets 8, 16 and 24 |
| `GpuKernels.DecodeKernel` | include/lo2s/gpu/events.hpp:29-35 | a kernel event holds size 40, type 0, start, end and id at offsets 0, 8, 16, 24 and 32 |
| `GpuKernels.NameArrivesExactlyWhen` | src/monitor/gpu_monitor.cpp:61-67 | a name is read back as sent exactly if it holds no zero byte |
| `GpuKernels.EveryRunNumbers` | include/lo2s/gpu/ringbuf.hpp:30-55 | ids and names determine each other and each has one definition in the stream |
| `GpuKernels.NamedRightExactlyWhen` | include/lo2s/gpu/ringbuf.hpp:37-42 | every kernel event follows the definition of its id under its own name exactly if no launch was written whose definition was refused |
| `GpuKernels.FirstDefinitionStands` | src/monitor/gpu_monitor.cpp:61-67 | whatever the events, an id is known exactly if one defines it, under the name in the first that does |
| `GpuNames.StreamReadsBack` | src/monitor/gpu_monitor.cpp:47-60 | the monitor's stream, read with any table, shows the kernels sent, in order, under that table's names |
| `GpuNames.NamedInTheEndExactlyWhen` | include/lo2s/monitor/gpu_monitor.hpp:43-55 | read with the table handed to the resolvers, the trace shows exactly the launches whose kernel found room, under their own names, if and only if no kernel was written without a definition whose name is not number 0 in the end |
| `GpuRing.CopyIsStores` | include/lo2s/gpu/ringbuf.hpp:46-49 | storing the bytes of a field one by one copies it into the reserved event |
| `GpuRing.StepTracks` | include/lo2s/gpu/ringbuf.hpp:30-91 | every step of writer and reader keeps the ring's invariant and the agreement of ring and writer with the reference producer |
| `GpuRing.CommittedIsSubmitted` | include/lo2s/gpu/ringbuf.hpp:30-91 | in every interleaving the ring holds what the reference producer puts out on the launches so far, with the answers the ring itself gave |
| `GpuRing.NamesAcrossTheRing` | src/monitor/gpu_monitor.cpp:41-70 | in every interleaving, whenever the reader finds the ring empty the trace shows exactly the granted launches under their own names, if and only if none was misnamed for good; before that, the first of them |
| `GpuRing.Operate` | src/monitor/gpu_monitor.cpp:41-70 | the same of a monitor object that drains what is popped along any run |
| `GpuRing.MisnamingIsReachable` | include/lo2s/gpu/ringbuf.hpp:37-42 | in every buffer of more than 112 bytes some run has a definition refused and its kernel granted, under the number of another name |
| `GpuKernels.RingbufWriter.KernelDef` | include/lo2s/gpu/ringbuf.hpp:30-55 | known names keep their id, new ones get the next and a definition event, 0 if there was no room |
| `GpuKernels.RingbufWriter.Kernel` | include/lo2s/gpu/ringbuf.hpp:75-91 | writes one kernel event with its fields at their offsets |
| `GpuKernels.RingbufWriter.Report` | src/cuda/lib.cpp:70-79 | a launch defines its name and then writes the kernel under the id returned |
| `GpuKernels.KernelIsOneSpan` | src/monitor/gpu_monitor.cpp:47-60 | a kernel event is one enter at its start and one leave at its end on the node of its process and id |
| `GpuKernels.GPUMonitor.Drain` | src/monitor/gpu_monitor.cpp:41-70 | table and stream are those of all events seen so far |
| `GpuKernels.GPUMonitor.FinalizeThread` | src/monitor/gpu_monitor.cpp:34-39 | closes level 1 at the end of the last kernel event seen and finalizes |
| `GpuNames.ClosedExactly` | src/monitor/gpu_monitor.cpp:34-60 | a finalized monitor's stream is balanced, closes the process at the end of the last kernel, and is in order exactly if the kernels came in turn |
| `GpuNames.MonitorAll` | src/monitor/gpu_monitor.cpp:26-70 | the same of a monitor object from construction to finalize_thread |
| `EventReader.NextRecord` | include/lo2s/perf/event_reader.hpp:279-281 | the header of the next record never wraps and gives its size, and its bytes are those written |
| `EventReader.InPieces` | include/lo2s/perf/event_reader.hpp:283-293 | a stretch of the unbounded stream is one piece of the buffer, or two around its end |
| `EventReader.EventReader.KernelWrite` | include/lo2s/perf/event_reader.hpp:273-276 | the kernel appends a record to buffer and history if it fits and otherwise throws it away |
| `EventReader.EventReader.Empty` | include/lo2s/perf/event_reader.hpp:260-263 | empty exactly if no record is unread |
| `EventReader.EventReader.Get` | include/lo2s/perf/event_reader.hpp:265-295 | returns exactly the bytes of the next record, wrapped or not |
| `EventReader.EventReader.Pop` | include/lo2s/perf/event_reader.hpp:254-258 | removes exactly the next record |
| `EventReader.EventReader.Read` | include/lo2s/perf/event_reader.hpp:181-252 | hands on every record that was or meanwhile is written, once, in order and no other, until a handler stops it |
| `MultiReader.WrittenInOrder` | include/lo2s/perf/multi_reader.hpp:77-91 | over any number of reads of any buffers, written timestamps never decrease |
| `MultiReader.WrittenAreKept` | include/lo2s/perf/multi_reader.hpp:89-91 | the writer is given exactly the events not dropped, in order, each with the tracepoint of its reader |
| `MultiReader.TopIsNext` | include/lo2s/perf/multi_reader.hpp:119-128 | the top of the queue is the earliest front event, and of several the one of the smallest reader |
| `MultiReader.DroppedWasLate` | include/lo2s/perf/multi_reader.hpp:77-87 | every dropped event was older than one already written |
| `MultiReader.TakeEarliest` | include/lo2s/perf/multi_reader.hpp:70-75 | taking the earliest front of sorted buffers leaves nothing older behind |
| `MultiReader.Reader.TakeFront` | include/lo2s/perf/multi_reader.hpp:77-91 | drops exactly what is older than the last written event and writes everything else |
| `MultiReader.Reader.Follow` | include/lo2s/perf/multi_reader.hpp:67-92 | takes at least one event from one reader only and re-queues it with its true front time |
| `MultiReader.Reader.Read` | include/lo2s/perf/multi_reader.hpp:49-94 | drains every buffer, accounts for every event in its buffer's order, and from sorted buffers with nothing late drops nothing and writes in time order; each event is taken from the reader whose turn it is: the last one while none is ahead of it, else the earliest front, the smallest reader first |
| `MultiReader.Reader.Finalize` | include/lo2s/perf/multi_reader.hpp:96-104 | the last read leaves nothing behind |
| `BioWriter.EveryRunConserves` | src/perf/bio/writer.cpp:25-92 | per device and sector, bytes begun are bytes completed plus bytes in flight, modulo 2^64 and exactly below it |
| `BioWriter.DeviceKnownExactlyWhen` | src/perf/bio/writer.cpp:74-84 | a device is known exactly if something was queued or completed on it |
| `BioWriter.CompletionWrittenExactlyWhen` | src/perf/bio/writer.cpp:74-92 | a completion is written exactly if its device is known, with the bytes in flight for its sector |
| `BioWriter.QueueWrittenExactlyWhen` | src/perf/bio/writer.cpp:27-58 | a queued read or write is written as a begin event of 512 bytes a sector, counted in 32 bits, and adds as many in flight; any other changes nothing |
| `BioWriter.SectorKnownExactlyWhen` | src/perf/bio/writer.cpp:54-84 | a sector is known exactly if it was queued, or completed on a device known by then |
| `BioWriter.IssueWrittenExactlyWhen` | src/perf/bio/writer.cpp:59-73 | an issue is written exactly if its sector is known, and changes nothing else |
| `BioWriter.Writer.WriteEvent` | src/perf/bio/writer.cpp:25-98 | the three tracepoints have the effect of the reference functions, any other is an error |
| `HipReorder.ReleaseKeepsDisjoint` | src/hip/lib.cpp:95-104 | no emitted kernel starts before the previous emitted one ended |
| `HipReorder.NothingGetsLost` | src/hip/lib.cpp:108-122 | emitted plus dropped is what was received |
| `HipReorder.ArrivalsAreDispatches` | src/hip/lib.cpp:76-88 | what arrives is every kernel dispatch of the callback, once, in order, with its id and with both times less the offset in 64 bits |
| `HipReorder.ReleasedInOrderExactlyWhen` | src/hip/lib.cpp:74-122 | release is by ascending start exactly if at most 99 later-starting kernels arrive before any one |
| `HipReorder.NearlySortedIsReleasedInOrder` | src/hip/lib.cpp:74-122 | in particular if nothing arrives more than 99 places behind a later-starting kernel |
| `HipReorder.NothingDropped` | src/hip/lib.cpp:90-122 | non-empty, disjoint kernels within reach and not before the last timestamp are all emitted, sorted |
| `HipReorder.Tool.Callback` | src/hip/lib.cpp:69-123 | a callback releases its kernels in an order the 100-element heap allows, emits or drops each once, keeps emitted kernels from overlapping backwards, and emits nothing that is not a dispatch with its id and shifted times |
| `MemoryMap.EmplaceWhenFree` | include/lo2s/address.hpp:129-132 | inserting a range that shares no address with an entry succeeds and keeps the order, empty ranges included |
| `MemoryMap.FindIsRight` | include/lo2s/memory_map.hpp:152-165 | looking up an address finds the entry that has it, and nothing if none has |
| `MemoryMap.Map.EraseInside` | include/lo2s/memory_map.hpp:53-71 | erases exactly the mappings inside the new one |
| `MemoryMap.Map.FindAround` | include/lo2s/memory_map.hpp:73-78 | finds a mapping around the new one if there is one |
| `MemoryMap.Map.Split` | include/lo2s/memory_map.hpp:80-109 | replaces that mapping by the piece in front, the new one and the piece behind; all three insertions succeed |
| `MemoryMap.Map.TrimAt` | include/lo2s/memory_map.hpp:112-146 | replaces the mapping that has the start or end address: emptied at the start, cut at the end |
| `MemoryMap.Map.EmplaceMapping` | include/lo2s/memory_map.hpp:43-150 | the map stays ordered and every address answers as the code has it, for any old map and any new range |
| `MemoryMap.Map.Lookup` | include/lo2s/memory_map.hpp:152-165 | find and has answer with the one entry that has the address |
| `MemoryMap.OverrideExactlyWhen` | include/lo2s/memory_map.hpp:112-129 | emplace is a pointwise override exactly if no old mapping straddles the new start |
| `MemoryMap.PiecesAreCut` | include/lo2s/memory_map.hpp:80-146 | outside the new range an address keeps value and page offset of its old mapping, cut at the new range; it loses it exactly if that mapping straddles the new start |
| `MemoryMap.RightPieceOffsetExactlyWhen` | include/lo2s/memory_map.hpp:103-107 | addresses behind the new range keep their file offset exactly if their mapping was not cut |
| `MemoryMap.Build` | include/lo2s/memory_map.hpp:43-150 | after any history of mappings every address answers by its own history alone |
| `MemoryMap.LatestOrNothing` | include/lo2s/memory_map.hpp:43-150 | an address resolves to the latest mapping that had it, or to nothing |
| `EventAttr.ApplyMask` | src/perf/event_attr.cpp:122-134 | bit r of the value goes to the set mask bit with r set bits below it, all else is zero |
| `EventAttr.DepositIsExact` | src/perf/event_attr.cpp:122-134 | a position is set exactly if the mask has it and the value has the bit whose number is the count of mask bits below |
| `EventAttr.ExtractInvertsDeposit` | src/perf/event_attr.cpp:122-134 | extraction under the mask gives back the low popcount(mask) bits of the value |
| `EventAttr.DepositInvertsExtract` | src/perf/event_attr.cpp:122-134 | depositing what was extracted restores the word under the mask |
| `EventAttr.EventAttr.Update` | src/perf/event_attr.cpp:184-195 | ORs the field into the word its term names and no other |
| `EventAttr.BitIsSetExactlyWhen` | src/perf/event_attr.cpp:184-195 | after any updates, overlapping or not, a bit is set exactly if it was before or some field of that word sets it |
| `EventAttr.EveryFieldIsRecoverable` | src/perf/event_attr.cpp:184-195 | after any updates with disjoint masks every field of a word reads back as it was set |

## Left out

- Pointers into the trees: a node is named by the path of its keys, which is what a stable `std::map` node address stands for; aliasing of node addresses is not modelled.
- `CallingContext::root()` as an argument: the root is the empty path, so the exceptions for comparing or merging a second root do not arise.
- The thread id inside an OpenMP context, which none of its comparisons look at.
- Iteration order of the children maps in the merge: any order is allowed, of which the order of the keys is one; the numbers of definitions are therefore not fixed, only what they stand for.
- The 32-bit width of definition references and the 64-bit width of head and tail of perf buffers: unbounded numbers.
- `CctxMerge.Trace.MergeNodes`: requires that only processes, threads and syscalls are directly below the root, because the root has no definition to be a parent and the code would dereference a null pointer; all users of the trees keep to that.
- `CctxMerge.TraceAll`: requires the same of its runs (an address is sampled only inside an entered context), for the same reason.
- `LocalTree.LocalCctxTree.CctxSampleChain`: requires a call chain with an entry; for an empty one the code's index wraps around.
- Weak memory: the atomics of the ring buffer are sequentially consistent, as in the code; the plain bytes between reserve and commit are single steps.
- Reservations of 2^63 bytes and more in the ring buffer, where the size arithmetic would wrap.
- Other ring-buffer clients (OpenMP events) and the second `kernel_def` overload, where the caller chooses the id: they would repeat the results for the first one.
- Runs of 2^64 - 1 launches and more, where kernel ids would wrap, and kernel names with zero bytes, which the C strings they come from cannot hold (`NameArrivesExactlyWhen` says what would happen).
- A ring buffer run beyond an exact fill: the end-to-end results hold up to the first one.
- The choice between kernels of equal start in the HIP heap: any choice is allowed.
- Mmap, comm and fork records of the sample writer, and the resolvers built from them.
- What `FunctionResolver` objects do: a mapping's value is an identity.
- Parsing of format strings and bit masks, tracepoint formats, /proc and kallsyms text.
- Sockets, memfd and mmap, poll loops, perf_event_open, ptrace, BPF, the OTF2 archive, CUPTI, rocprofiler, libdw: foreign or operating-system code; a writer is an append-only event list and the registry a source of references.
- Metrics, counter scaling in floating point, configuration, logging and summary output.
