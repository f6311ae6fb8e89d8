# Verified models of the modem boot daemon and of the Eden NN driver

A Dafny project beside the Exynos vendor sources. It models the algorithms and protocols in
`common/cpboot_v2` (the daemon that boots a modem, receives its crash dumps and checks its loopback) and in
`exynos/eden/driver` (the neural network driver), and proves properties of the models for all inputs, all
runs and all reachable states. `dafny verify dfyconfig.toml` checks the whole project.

Code that updates state in place is a class or a method over arrays; its contract ties the new state to a
specification function of the old one, and lemmas prove what that function is worth. Devices, files,
properties and the modem are an arbitrary environment: a list of events, or a number of calls that succeed.

| file | models |
|---|---|
| `Common.dfy` | 32-bit integers and the range of `lseek` |
| `Crc32Table.dfy`, `Crc32.dfy` | `update_crc32`: the table loop is bit-by-bit polynomial division, and long division; what errors it detects |
| `Layout.dfy`, `PrePost.dfy` | the layout loops, the type dispatchers, the offsets of a SoC, pre- and post-processing |
| `ConstantLayout.dfy`, `ConstantBytes.dfy` | `convertToNCHW` for one group and for all groups of a model: which constant ends in which layout |
| `SamePadding.dfy` | the convolution branch of `supportedByNPU` |
| `Partition.dfy` | dividing the operations into runs per device, and the slots of the converted model |
| `Scheduler.dfy` | the two-stage priority queue pipeline in all interleavings |
| `NetworkGraph.dfy` | `getInputs` and `getConsumers` as two views of one graph |
| `StdProtocol.dfy`, `StdReceiver.dfy` | fragmentation and acknowledgement of a binary, and an honest receiver of it |
| `StdBoot.dfy`, `StdDelivery.dfy` | the download control table, the stages of a boot, and what the modem gets out of them |
| `StdDump.dfy`, `SitDump.dfy` | receiving a crash dump in both protocols |
| `ImageLoad.dfy` | loading images through the kernel in pieces of 62 KiB |
| `DumpRing.dfy` | the ring of 21 dump directories |
| `Loopback.dfy` | the 8-bit sequence window of the loopback |

## Where the code does not do what it seems to promise

The models follow the code. Each item names the lemma with the exact condition and the one with a concrete case.

- A CRC can be continued over a second buffer by undoing the final complement, but not from or into an empty
  buffer, for which `update_crc32` returns 0 (`CrcConcat`; `EmptyPartInterferes`).
- The NCHW to NHWC dispatcher drops the offset of 16-bit integers (`DispatchRoundTrip`; `Int16OffsetLost`).
- A constant used by several operations is permuted once for each use; `vecConverted` is never consulted. For
  two uses `TwiceIsOnce` says when that is harmless, for any list of uses `HarmlessIff` (`FourChannelsTwice`).
- Priorities are 32-bit and signed: the pipeline is right for up to 2^31 requests and not for one more
  (`SafeUpTo`; `OneMoreRequestFails`).
- A dump frame with an unexpected number ends the step with the positive result of `read`, so that the step
  counts as received (`SuccessIsCompleteIfNumbered`; `WrongNumberAccepted`).
- A dump step returns its size as an int, so that a step whose size, as 32 bits, is a negative int is refused
  (`HonestDumpReceived`; `TwoGigabytesRefused`). The total is counted modulo 2^32, so that a dump with 2^32 bytes
  too many passes for any announcement that can be met at all (`SuccessIsExactIff` of `StdDump`;
  `FourGigabytesPass`).
- Step 13 of a dump is requested with the word of DONE (`RequestsDistinctIff`; `ThirteenIsDone`).
- The SIT dump loop leaves with a positive value for a wrong header (`PositiveIff`; `WrongHeaderEnds`), and its
  32-bit count can wrap for announced sizes above 2^32 - 65527 (`SuccessIsExactIff` of `SitDump`; `WrappingDump`).
- An image whose size equals its offset in the file is never loaded, although the stage succeeds, and one at an
  offset of 2^31 or more is not found (`RegionLoaded`; `SixteenAtSixteen`, `TooFarToSeek`).
- The loop over the dump ring does not come to an end for stored indices outside 0..20, except far below 0
  (`EndsIff`; `NeverEnds`). When all the directories that are kept exist, the next dump exceeds the limit by one
  (`StoredAtMost`; `LimitExceeded`).
- `seq_diff` is one too low across a wrap, so that the sender gets four ahead of the last echoed number there
  (`AtMostThreeIff`; `FourReached`).
- A convolution of unknown size counts as supported (`PaddingLimitOnlyForExplicit`; `UnknownIsSupported`). The
  input width is read from dimension 1, where the height is; with the limits in force that decides nothing
  (`TransposingDecidesNothing`).
- The CRC of BOOT is stored in the control slot of TOC, and the slot of BOOT keeps CRC 0 (`CrcsInPlaceIff`;
  `CrcsMixedUp`). Only MAIN is validated, so the SIT session does not show it (`SessionIgnoresCrcs`).

## Model

| member | source | states |
|---|---|---|
| `Crc32Table.Entry` | common/cpboot_v2/util.c:423-477 | each of the 256 words is the sum over GF(2) of the power-of-two words that its index selects |
| `Crc32.TableEntryIsEightSteps` | common/cpboot_v2/util.c:423-477 | word i of the table is the index after eight division steps by the reflected polynomial |
| `Crc32.TableStep` | common/cpboot_v2/util.c:479-489 | the loop body is the addition of a byte followed by eight division steps |
| `Crc32.UpdateCrc32` | common/cpboot_v2/util.c:479-489 | the method returns the complement of the register that bit-at-a-time division leaves, for every buffer, length and start; 0 for a null or empty one |
| `Crc32.RegisterIsLongDivision` | common/cpboot_v2/util.c:479-489 | from the register that belongs to an initial window, the register form is textbook long division of the message followed by 32 zero bits |
| `Crc32.StepUnstep` | common/cpboot_v2/util.c:479-489 | every register is one division step away from another |
| `Crc32.CrcIsLongDivision` | common/cpboot_v2/util.c:479-489 | for every start register, the result for a non-empty message is the complement of that remainder, for exactly one initial window |
| `Crc32.FeedInjective` | common/cpboot_v2/util.c:479-489 | over one message, different start registers lead to different results |
| `Crc32.CrcConcat` | common/cpboot_v2/util.c:479-489 | running on a, undoing the complement and running on b is running on a + b, if and only if no empty part interferes |
| `Crc32.EmptyPartInterferes` | common/cpboot_v2/util.c:479-489 | continuing an empty buffer from register 0 differs from starting with the second one |
| `Crc32.ShortRunsDiffer` | common/cpboot_v2/util.c:479-489 | runs of up to 32 bits are told apart from any register |
| `Crc32.BurstErrorDetected` | common/cpboot_v2/util.c:479-489 | equal-length messages that differ only inside 32 consecutive bits never share a CRC |
| `Crc32.FourByteErrorDetected` | common/cpboot_v2/util.c:479-489 | nor do messages that differ only inside four consecutive bytes |
| `Crc32.Residue` | common/cpboot_v2/util.c:479-489 | a message followed by its own result, low byte first, has the result 0x2144DF1C, whatever the message and the start |
| `Layout.Position` | exynos/eden/driver/PrePostProcessor.cpp:48-143 | in each layout every entry lies inside the buffer |
| `Layout.PositionInjective` | exynos/eden/driver/PrePostProcessor.cpp:48-143 | no two entries share a position |
| `Layout.ElementAt` | exynos/eden/driver/PrePostProcessor.cpp:48-143 | every position holds an entry |
| `Layout.ConvertToNchw` | exynos/eden/driver/PrePostProcessor.cpp:84-107 | every entry moves, changed as asked, from its NHWC to its NCHW position |
| `Layout.ConvertToNhwc` | exynos/eden/driver/PrePostProcessor.cpp:48-71 | every entry moves from its NCHW to its NHWC position |
| `Layout.ConvertToCnhw` | exynos/eden/driver/PrePostProcessor.cpp:120-143 | every entry moves from its NHWC to its CNHW position |
| `Layout.RelaidUnique` | exynos/eden/driver/PrePostProcessor.cpp:48-143 | such a move determines the whole buffer |
| `Layout.RoundTrip` | exynos/eden/driver/PrePostProcessor.cpp:48-107 | moving there and back restores the buffer if and only if the two element changes cancel on its contents |
| `Layout.RelaidCompose` | exynos/eden/driver/PrePostProcessor.cpp:48-143 | two conversions one after the other are the direct conversion |
| `Layout.CnhwExchangesOuterAxes` | exynos/eden/driver/PrePostProcessor.cpp:84-143 | the CNHW result is the NCHW result with the planes of the two outer axes exchanged |
| `Layout.RelaidPermutes` | exynos/eden/driver/PrePostProcessor.cpp:48-143 | without an element change the buffer is a permutation of what it was |
| `PrePost.FromNhwcToNchw` | exynos/eden/driver/PrePostProcessor.cpp:367-453 | the dispatcher relays the buffer, adding the offset in the element type |
| `PrePost.FromNchwToNhwc` | exynos/eden/driver/PrePostProcessor.cpp:269-353 | so does the opposite one, except that 16-bit integers get no offset |
| `PrePost.DispatchRoundTrip` | exynos/eden/driver/PrePostProcessor.cpp:269-453 | two dispatches restore a non-empty buffer if and only if the offsets cancel modulo the type, or, for 16-bit integers, if the first one vanishes |
| `PrePost.Int16OffsetLost` | exynos/eden/driver/PrePostProcessor.cpp:333-336 | opposite offsets do not cancel for 16-bit integers |
| `PrePost.CompilerManager.InitNpucCompiler` | exynos/eden/driver/CompilerManager.cpp:61-90 | for every SoC the two chosen offsets cancel |
| `PrePost.CompilerManager.PreProcessOnInputs` | exynos/eden/driver/ExecutionScheduler.cpp:626-660 | inputs become NCHW, with the input offset added to quantised ones for the NPU |
| `PrePost.CompilerManager.PostProcessOnOutputs` | exynos/eden/driver/ExecutionScheduler.cpp:662-696 | outputs become NHWC, with the output offset added to quantised ones for the NPU |
| `PrePost.QuantisedBytes` | exynos/eden/driver/ExecutionScheduler.cpp:626-696 | on Makalu, quantised bytes for the NPU go from b to (b + 128) modulo 256 and back |
| `PrePost.OthersUnchanged` | exynos/eden/driver/ExecutionScheduler.cpp:626-696 | for any other type, preference or offset elements stay as they are |
| `PrePost.SumsWrap` | exynos/eden/driver/PrePostProcessor.cpp:269-453 | the sum wraps at the width of each element type, and the 16-bit integers lose it on the way back |
| `PrePost.PreThenPost` | exynos/eden/driver/ExecutionScheduler.cpp:626-696 | post-processing what pre-processing produced restores every byte, for every SoC, type and preference |
| `ConstantLayout.ConvertOperand` | exynos/eden/driver/ModelConverter.cpp:383-461 | a constant of rank above 1 is moved in place inside its bytes, anything else is left alone |
| `ConstantBytes.Positions` | exynos/eden/driver/PrePostProcessor.cpp:48-143 | the three positions as the source computes them |
| `ConstantBytes.ConvertedByte` | exynos/eden/driver/ModelConverter.cpp:383-461 | every byte of a constant of four dimensions, by copy or by reference, moves from its NHWC place to that of the layout |
| `ConstantBytes.LeftAlone` | exynos/eden/driver/ModelConverter.cpp:383-461 | an operand that is no constant, or has less than four dimensions, keeps all its bytes |
| `ConstantLayout.ConvertOperation` | exynos/eden/driver/ModelConverter.cpp:474-610 | an operation's branch converts exactly its list of uses, in order |
| `ConstantLayout.ConvertModelToNchw` | exynos/eden/driver/ModelConverter.cpp:474-610 | one call applies the uses of its operation list in order to one memory |
| `ConstantLayout.ConvertGroups` | exynos/eden/driver/ModelConverter.cpp:165-220 | the calls for all groups of other devices together apply the uses of all their operations, which is one list |
| `ConstantLayout.ConstantAfter` | exynos/eden/driver/ModelConverter.cpp:383-610 | a constant with bytes of its own is converted once per use and not otherwise touched |
| `ConstantLayout.OtherBytesKept` | exynos/eden/driver/ModelConverter.cpp:383-610 | a byte outside every converted constant keeps its value |
| `ConstantLayout.ConstantGetsDemandedLayout` | exynos/eden/driver/ModelConverter.cpp:474-610 | after any list of operations, such as that of all groups, a constant with one use in it and bytes of its own is in the layout that its operation demands |
| `ConstantBytes.DemandMeans` | exynos/eden/driver/ModelConverter.cpp:474-610 | which layout each kind of operation wants for each input |
| `ConstantBytes.LayoutFlag` | exynos/eden/driver/ModelConverter.cpp:474-535 | at which input each form of a convolution tells that its activations are NCHW |
| `ConstantBytes.DemandedByte` | exynos/eden/driver/ModelConverter.cpp:383-610 | after any list of operations, every byte of a constant of four dimensions with one use stands where its operation wants it |
| `ConstantBytes.OutputConverted` | exynos/eden/driver/ModelConverter.cpp:474-610 | an operand that is only output, once, goes to NCHW, except for GATHER and for NCHW convolutions |
| `ConstantLayout.UsedTwice` | exynos/eden/driver/ModelConverter.cpp:540-554 | a constant with two uses is permuted twice |
| `ConstantLayout.TwiceIsOnce` | exynos/eden/driver/ModelConverter.cpp:540-554 | that is harmless for all contents if and only if the shape makes the permutation the identity |
| `ConstantLayout.FourChannelsTwice` | exynos/eden/driver/ModelConverter.cpp:540-554 | four channels on two by two places do not survive the second permutation |
| `ConstantLayout.HarmlessIff` | exynos/eden/driver/ModelConverter.cpp:383-610 | any list of uses has the effect of one demanded conversion, for all contents, if and only if it takes every position where that one takes it |
| `ConstantLayout.SquareTransposes` | exynos/eden/driver/PrePostProcessor.cpp:84-107 | with one batch and as many channels as places in a plane, permuting twice restores the order |
| `ConstantLayout.ThreeUsesOfSquare` | exynos/eden/driver/ModelConverter.cpp:540-554 | so there three uses are harmless although two are not |
| `SamePadding.SamePaddingCorrect` | exynos/eden/driver/ModelConverter.cpp:919-937 | SAME padding is the least that covers every window, gives ceil(input / stride) outputs, is split evenly and stays below the filter size |
| `SamePadding.PaddingLimitOnlyForExplicit` | exynos/eden/driver/ModelConverter.cpp:841-948 | with the limits in force, a convolution is supported if and only if its size is unknown, or type, kernel, stride and each explicit pad are within them; computed padding never rejects one |
| `SamePadding.PadsComputed` | exynos/eden/driver/ModelConverter.cpp:917-937 | scheme 1 pads each dimension with the least that covers it, split evenly; any other scheme pads nothing |
| `SamePadding.TransposingDecidesNothing` | exynos/eden/driver/ModelConverter.cpp:865-866 | exchanging the two spatial dimensions of the input does not change the decision |
| `SamePadding.UnknownIsSupported` | exynos/eden/driver/ModelConverter.cpp:849-859 | a kernel of 100 by 100 is accepted for an input of unknown rank and rejected for a known one |
| `Partition.ModelInfo.BuildOpGroup` | exynos/eden/driver/ModelConverter.cpp:792-820 | one longest run of equal device is appended, with the sets of its operands |
| `Partition.GroupOperands` | exynos/eden/driver/ModelConverter.cpp:792-820 | the inputs of a group are what its operations read, its outputs what they write |
| `Partition.ModelInfo.DivideOperationList` | exynos/eden/driver/ModelConverter.cpp:756-781 | the groups are the longest runs of the whole model, in order |
| `Partition.ModelInfo.GetOperationsExceptNpu` | exynos/eden/driver/ModelConverter.cpp:660-680 | collects the operations of the groups for other devices |
| `Partition.ModelInfo.GetNumOfOperationForNpu` | exynos/eden/driver/ModelConverter.cpp:688-702 | counts the operations of the NPU groups |
| `Partition.ModelInfo.Convert` | exynos/eden/driver/ModelConverter.cpp:125-220 | slots stay within the allocation, which is one per operation; the result is 0 if and only if every operation outside the NPU groups can be created, and then all planned slots are filled, otherwise those before the first failure |
| `Partition.GroupsConcatenate` | exynos/eden/driver/ModelConverter.cpp:756-820 | the groups concatenate to 0..n-1 |
| `Partition.NeighboursAlternate` | exynos/eden/driver/ModelConverter.cpp:756-820 | neighbouring groups are for different devices |
| `Partition.DivisionUnique` | exynos/eden/driver/ModelConverter.cpp:756-820 | no other division into such runs exists |
| `Partition.CountsAddUp` | exynos/eden/driver/ModelConverter.cpp:660-702 | the collected operations are the unsupported ones in order, and both counts add up to n |
| `Partition.SlotsRunEveryOperation` | exynos/eden/driver/ModelConverter.cpp:165-220 | the slots execute every operation once, in the original order |
| `Partition.SlotsFit` | exynos/eden/driver/ModelConverter.cpp:143-220 | the slots never exceed the allocation, and use all of it if and only if no two neighbours are both for the NPU |
| `Scheduler.SchedulePolicy.DecidePriority` | exynos/eden/driver/SchedulePolicy.cpp:35-41 | the n-th request gets n as a signed 32-bit number |
| `Scheduler.PriorityQueueWithLock.Top` | exynos/eden/driver/PriorityQueueWithLock.h:40-94 | a request of least priority value, the queue unchanged |
| `Scheduler.PriorityQueueWithLock.Push` | exynos/eden/driver/PriorityQueueWithLock.h:40-94 | adds one request and keeps the others |
| `Scheduler.PriorityQueueWithLock.Pop` | exynos/eden/driver/PriorityQueueWithLock.h:40-94 | removes a request of least priority value and keeps the others |
| `Scheduler.StepKeepsInvariant` | exynos/eden/driver/ExecutionScheduler.cpp:539-624 | every step of any thread keeps the stages consecutive, and a pop removes what was peeked |
| `Scheduler.InvariantIsOrderly` | exynos/eden/driver/ExecutionScheduler.cpp:539-624 | then no request is lost or invented and notifications are in issue order |
| `Scheduler.RunCorrect` | exynos/eden/driver/ExecutionScheduler.cpp:120-135 | all interleavings of producer and workers are correct while at most 2^31 requests are issued |
| `Scheduler.OneMoreRequestFails` | exynos/eden/driver/ExecutionScheduler.h:67-72 | a run with 2^31 + 1 requests loses one |
| `Scheduler.SafeUpTo` | exynos/eden/driver/ExecutionScheduler.cpp:539-624 | runs of up to n requests are all correct if and only if n is at most 2^31 |
| `NetworkGraph.GetInputs` | exynos/eden/driver/NNNetworkBuilder.cpp:341-403 | the names are, per input of known rank, the model input or every producing layer as often as it outputs the operand |
| `NetworkGraph.InputNamesMeans` | exynos/eden/driver/NNNetworkBuilder.cpp:350-399 | an input contributes nothing, the data of the model, or its producers |
| `NetworkGraph.InputsInOrder` | exynos/eden/driver/NNNetworkBuilder.cpp:341-403 | the inputs contribute in their order |
| `NetworkGraph.ProducersInOrder` | exynos/eden/driver/NNNetworkBuilder.cpp:371-392 | producers are layers in the order of the operations, each with its kind |
| `NetworkGraph.GetConsumers` | exynos/eden/driver/NNNetworkBuilder.cpp:494-527 | the names are every layer that reads an output, as often as it does |
| `NetworkGraph.ConsumersInOrder` | exynos/eden/driver/NNNetworkBuilder.cpp:494-527 | the outputs contribute their readers in their order |
| `NetworkGraph.ReadersInOrder` | exynos/eden/driver/NNNetworkBuilder.cpp:494-527 | readers are layers in the order of the operations, each with its kind |
| `NetworkGraph.InputsCount` | exynos/eden/driver/NNNetworkBuilder.cpp:341-403 | X occurs among the inputs of Y once per connection, if and only if every connection is looked up |
| `NetworkGraph.ConsumersCount` | exynos/eden/driver/NNNetworkBuilder.cpp:494-527 | Y occurs among the consumers of X once per connection |
| `NetworkGraph.MatchesSymmetric` | exynos/eden/driver/NNNetworkBuilder.cpp:341-527 | connections counted from either end are the same number |
| `NetworkGraph.GraphSymmetric` | exynos/eden/driver/NNNetworkBuilder.cpp:341-527 | X occurs in the inputs of Y as often as Y in the consumers of X, if and only if no connection is hidden by an unknown rank, a model input, the first operation or the input limit |
| `StdProtocol.MsgDecodes` | common/cpboot_v2/std_boot.h:70-78 | a command word decodes to the one message it was packed from |
| `StdDelivery.Words` | common/cpboot_v2/std_boot.h:38-78 | every command and reply of the SIT protocol as a number |
| `StdDelivery.FinWords` | common/cpboot_v2/std_boot.h:38-78 | FIN and its reply as numbers |
| `StdDelivery.PlainWords` | common/cpboot_v2/std_boot.h:21-31 | the data words of the plain protocol as numbers |
| `StdProtocol.Device.ReqResp` | common/cpboot_v2/std_boot.c:146-236 | succeeds if and only if the device takes the request and gives the expected reply; otherwise only a beginning was exchanged |
| `StdProtocol.Device.SendBin` | common/cpboot_v2/std_boot.c:381-482 | succeeds if and only if the offset is below 2^31, the file is long enough and the device plays along, after exactly the frames of the binary and one response; otherwise only a beginning was exchanged |
| `StdProtocol.Device.SendBinSit` | common/cpboot_v2/std_boot.c:338-482 | the same for the SIT form, where every segment is acknowledged before the next |
| `StdReceiver.FramesReassemble` | common/cpboot_v2/std_boot.c:381-482 | there are exactly ceil(size / 2048) frames, numbered 1, 2, ..., of 1 to 2048 bytes, and they reassemble to the binary |
| `StdReceiver.FrameCarries` | common/cpboot_v2/std_boot.c:296-336 | frame i carries the i-th 2048 bytes |
| `StdReceiver.PlainDownloadDelivers` | common/cpboot_v2/std_boot.c:381-482 | an honest receiver of a successful download has the region of the file |
| `StdReceiver.SegmentCount` | common/cpboot_v2/std_boot.c:338-482 | the SIT form has ceil(size / 2048) acknowledged segments |
| `StdReceiver.SegmentsReassemble` | common/cpboot_v2/std_boot.c:338-482 | each data_offset is the sum of the lengths before it, and the segments reassemble to the binary |
| `StdReceiver.SitDownloadDelivers` | common/cpboot_v2/std_boot.c:338-482 | an honest SIT receiver has the region of the file |
| `StdBoot.BuildStdDloadControl` | common/cpboot_v2/boot_shannon5100.c:29-116 | for a well-formed table of contents every entry gets a slot of its own with its own fields, and FIN the slot behind them |
| `StdBoot.LoadStage` | common/cpboot_v2/std_boot.c:997-1091 | a stage succeeds if and only if its binary is open, can be found and read, and START, DATA, CRC and DONE, as far as enabled, are all answered |
| `StdBoot.LoadCpImages` | common/cpboot_v2/std_boot.c:997-1091 | succeeds if and only if every stage can, in order; the first failure ends the run after a beginning of the exchange |
| `StdBoot.StagesAreTheSession` | common/cpboot_v2/std_boot.c:997-1091 | the stages of a well-formed table are START, DATA, the CRC of MAIN and DONE per image in rising order, then one FIN |
| `StdBoot.SessionAlternates` | common/cpboot_v2/std_boot.c:238-294 | in the session each message is followed by the reply to the same command and index with the status expected |
| `StdBoot.RepliesDecide` | common/cpboot_v2/std_boot.h:70-78 | a reply decides which message it answers, and a message which reply is expected |
| `StdBoot.Boot` | common/cpboot_v2/std_boot.c:997-1091 | table and stages together: success if and only if the modem and the files play along, and then exactly the session took place; otherwise a beginning of it |
| `StdDelivery.BootStage` | common/cpboot_v2/std_boot.c:267-294 | what is left of BOOT, whose image went another way, is READY |
| `StdDelivery.ImageSessionMeans` | common/cpboot_v2/std_boot.c:997-1091 | every word exchanged for one image as a number; only MAIN has its CRC checked |
| `StdDelivery.DataOfSession` | common/cpboot_v2/std_boot.c:997-1091 | listening for the data of one stage gives exactly the download of that image |
| `StdDelivery.SessionDelivers` | common/cpboot_v2/boot_shannon5100.c:77-105 | after a session the modem has, for each image, its part of the NV file for NV and NV_NORM, of the protected file for NV_PROT, and of the binary for all others |
| `StdBoot.CrcsInPlaceIff` | common/cpboot_v2/boot_shannon5100.c:29-116 | every slot holds the CRC of its own entry if and only if those of TOC and BOOT are 0 |
| `StdBoot.CrcsMixedUp` | common/cpboot_v2/boot_shannon5100.c:29-116 | with the CRCs 1 and 2, TOC gets 2 and BOOT 0 |
| `StdBoot.SessionIgnoresCrcs` | common/cpboot_v2/std_boot.c:997-1091 | the session is the same whatever these two CRCs are |
| `StdDump.DumpDevice.UlRecvData` | common/cpboot_v2/std_boot.c:669-760 | one step returns, consumes and stores what the step function says, for every behaviour of the modem; its size is returned as an int |
| `StdDump.DumpDevice.RecvAllSteps` | common/cpboot_v2/std_boot.c:1531-1600 | the same for all steps, with the 32-bit total |
| `StdDump.DumpDevice.RecvInfo` | common/cpboot_v2/std_boot.c:554-667 | succeeds if and only if the dump information and the crash reason arrive and the latter is stored |
| `StdDump.DumpDevice.ReceiveCpDump` | common/cpboot_v2/std_boot.c:1531-1600 | 0 if and only if both handshakes, the dump information and crash reason, all steps and the announced size agree, and then the file has grown by the frames in order and 0x9D00, 0x9D01, ..., and 0x9D0D were requested |
| `StdDump.StepWords` | common/cpboot_v2/std_boot.c:676-677 | a request decodes to the daemon, the dump stage and its step, its frames and reply to the same from the modem |
| `StdDump.RequestsDistinctIff` | common/cpboot_v2/std_boot.c:1531-1600 | no two requests are the same word if and only if there are less than 13 steps |
| `StdDump.ThirteenIsDone` | common/cpboot_v2/std_boot.c:275-276 | step 13 has the word of DONE |
| `StdDump.SuccessNeedsReplies` | common/cpboot_v2/std_boot.c:192-236 | a dump succeeds only with the replies 0xAD00 and 0xAD0D and a crash reason that is stored |
| `StdDump.SuccessIsStored` | common/cpboot_v2/std_boot.c:739-749 | and, numbered right, only if every frame could be written |
| `StdDump.StepComplete` | common/cpboot_v2/std_boot.c:669-760 | a step without error is complete, and leaves numbered frames to come, if and only if the frames that arrive are numbered 1, 2, ... per step |
| `StdDump.WrongCommandRefused` | common/cpboot_v2/std_boot.c:711-719 | a frame with another command ends the step with EFAULT |
| `StdDump.SuccessIsCompleteIfNumbered` | common/cpboot_v2/std_boot.c:1531-1600 | a successful dump is complete, in (step, sequence) order, if and only if the frames that arrive are numbered 1, 2, ... per step; it then has the announced size modulo 2^32, and exactly that size if and only if it is below 2^32 |
| `StdDump.WrongNumberAccepted` | common/cpboot_v2/std_boot.c:722-728 | one frame with a wrong number can pass for the whole dump |
| `StdDump.HonestDumpReceived` | common/cpboot_v2/std_boot.c:1531-1600 | a complete dump sent in order is received with success if and only if the size of every step, as 32 bits, is no negative int |
| `StdDump.TwoGigabytesRefused` | common/cpboot_v2/std_boot.c:752-756 | a step of 2^20 full frames is refused however well it arrives |
| `StdDump.FourGigabytesPass` | common/cpboot_v2/std_boot.c:1539-1576 | a step of 2^21 full frames passes for an empty dump |
| `StdDump.SuccessIsExactIff` | common/cpboot_v2/std_boot.c:1558-1576 | success means a dump of exactly the announced size, whatever the modem sends in order, if and only if there are no steps or they cannot report so much |
| `SitDump.SitDumpDevice.ReceiveDump` | common/cpboot_v2/std_boot.c:1434-1523 | the loop returns, consumes and stores what the transfer function says, for every behaviour of the modem; on success each request named the number of bytes before it, and DONE came last |
| `SitDump.SitDumpDevice.ReceiveChunk` | common/cpboot_v2/std_boot.c:1434-1503 | one turn stores the payload of one chunk; the buffer always holds what is read |
| `SitDump.SitDumpDevice.ManageBuffer` | common/cpboot_v2/std_boot.c:1460-1477 | the buffer is cleared and at least as long as requested, kept if possible |
| `SitDump.ReturnValueTells` | common/cpboot_v2/std_boot.c:1434-1523 | 0 only if the 32-bit sum of the payloads is the announced size, and the sum itself up to 2^32 - 65527; a positive value only while the dump is short |
| `SitDump.ReplyDecides` | common/cpboot_v2/std_boot.c:1509-1522 | after all payloads, the transfer succeeds if and only if the reply to DONE is 0xC20D |
| `SitDump.BadChunkFails` | common/cpboot_v2/std_boot.c:1443-1492 | a chunk that cannot be written, or whose header is cut short, makes the transfer fail |
| `SitDump.PositiveIff` | common/cpboot_v2/std_boot.c:1434-1523 | a positive value if and only if a header of another command or without data comes while the count is short and nothing has failed |
| `SitDump.SuccessIsExactIff` | common/cpboot_v2/std_boot.c:1434-1508 | success means a dump of exactly the announced size, whatever the modem sends, if and only if that is at most 2^32 - 65527 |
| `SitDump.WrappingDump` | common/cpboot_v2/std_boot.c:1494-1508 | for a larger one, a dump with 2^32 bytes too many succeeds |
| `SitDump.WrongHeaderEnds` | common/cpboot_v2/std_boot.c:1449-1458 | a wrong header after any payloads that leave the dump short ends it there with a positive value |
| `SitDump.HonestDumpReceived` | common/cpboot_v2/std_boot.c:1434-1523 | every dump below 4 GiB sent in chunks of any size is received with success |
| `ImageLoad.Kernel.LoadCpImageByStage` | common/cpboot_v2/boot_shannon310.c:386-459 | ends for every size, succeeds if and only if seek, file and driver allow it, and has then requested the pieces of the region; a failure has requested exactly those before it |
| `Common.SeekableMeans` | common/cpboot_v2/boot_shannon310.c:412-416 | a 32-bit offset is found if and only if it is no negative int |
| `ImageLoad.PiecesCounted` | common/cpboot_v2/boot_shannon310.c:386-459 | one piece for every full 62 KiB and a last one, which may be empty |
| `ImageLoad.PiecesPutRegion` | common/cpboot_v2/boot_shannon310.c:386-459 | the pieces put the region at its memory offset and change nothing else |
| `ImageLoad.RegionLoaded` | common/cpboot_v2/boot_shannon310.c:420-422 | unless the driver refuses, a stage succeeds and has loaded its region, whatever the memory held, if and only if the region can be found and read and is empty or not skipped |
| `ImageLoad.SixteenAtSixteen` | common/cpboot_v2/boot_shannon310.c:420-422 | sixteen bytes at file offset 16 are never loaded, although the stage succeeds |
| `ImageLoad.TooFarToSeek` | common/cpboot_v2/boot_shannon310.c:412-416 | an image at file offset 2^31 is not found |
| `ImageLoad.Kernel.LoadCpImages` | common/cpboot_v2/boot_shannon310.c:461-487 | succeeds if and only if every stage can and the driver accepts all pieces; only then the boot is marked as done |
| `ImageLoad.AllLoadsPutImages` | common/cpboot_v2/boot_shannon310.c:461-487 | all requests together put all images into memory and change nothing else |
| `ImageLoad.ImageInPlace` | common/cpboot_v2/boot_shannon310.c:461-487 | afterwards an address holds the byte of the last image that covers it |
| `DumpRing.EndsIff` | common/cpboot_v2/main.c:640-654 | the removal loop ends if and only if the stored index is in 0..20 or starts below 0, and then after exactly 21 - limit removals |
| `DumpRing.NeverEnds` | common/cpboot_v2/main.c:640-654 | from the stored index 21 with limit 5 the loop goes on for ever |
| `DumpRing.Storage.OrganizeDumpFiles` | common/cpboot_v2/main.c:614-662 | a limit of 1 to 20 stays and any other becomes 20; the directories that stay are exactly the `limit` ones ending at the index, the index advances around |
| `DumpRing.RoundSplits` | common/cpboot_v2/main.c:640-654 | the kept slots and the removed ones are one round of the ring |
| `DumpRing.TrailDistinct` | common/cpboot_v2/main.c:647-654 | no slot is removed twice |
| `DumpRing.RemovedAreTheOldest` | common/cpboot_v2/main.c:640-654 | removed are exactly the slots that are not among the `limit` ones ending at the index |
| `DumpRing.OrganizeKeepsTheNewest` | common/cpboot_v2/main.c:614-662 | no removed dump is newer than a kept one, and the next slot is empty |
| `DumpRing.StoredAtMost` | common/cpboot_v2/main.c:614-662 | at most `limit` directories remain, for a stored limit of 1 to 20 and for the repaired one; with the next dump there are more if and only if none of the kept ones was missing |
| `DumpRing.KeptSlots` | common/cpboot_v2/main.c:640-654 | which slots are kept, counted around the ring |
| `DumpRing.LimitExceeded` | common/cpboot_v2/main.c:614-662 | a history with limit 1 that stores two dumps |
| `DumpRing.NextOrdered` | common/cpboot_v2/main.c:614-662 | writing, changing the limit and organizing all keep the dumps ordered by age along the ring |
| `DumpRing.After` | common/cpboot_v2/main.c:614-662 | in every history from the default properties the order holds, so every call ends |
| `Loopback.SeqDiffMeans` | common/cpboot_v2/lb_main.c:35 | `seq_diff` is the distance modulo 256, less one across a wrap |
| `Loopback.Link.CheckSequence` | common/cpboot_v2/lb_main.c:550-564 | a crash is forced if and only if more echoes are missing than there is patience for; otherwise the sender is at most three ahead of the last echoed number |
| `Loopback.Link.SendPacket` | common/cpboot_v2/lb_main.c:577-589 | a packet carries the low eight bits of its number, which no other packet shares whose echo may still come |
| `Loopback.Link.TakeEcho` | common/cpboot_v2/lb_main.c:469-471 | the eight bits the reader sees belong to exactly one packet that may be echoed, and that one is recorded |
| `Loopback.StepKeepsInvariant` | common/cpboot_v2/lb_main.c:550-589 | every step of sender, reader and modem keeps the window |
| `Loopback.WindowBounded` | common/cpboot_v2/lb_main.c:550-589 | in every run the sender is at most four ahead of the last echoed number, also by the eight-bit numbers, and four only across a wrap; at most three echoes are missing |
| `Loopback.NumbersNeverAlias` | common/cpboot_v2/lb_main.c:469-471 | the eight bits of an echo tell which packet it answers |
| `Loopback.CrashExactly` | common/cpboot_v2/lb_main.c:550-564 | a crash is forced if and only if two packets were sent after the last echoed one; three before the first echo and across a wrap |
| `Loopback.FourReached` | common/cpboot_v2/lb_main.c:550-589 | some run takes the sender four ahead of the last echoed number |
| `Loopback.AtMostThreeIff` | common/cpboot_v2/lb_main.c:550-589 | in all runs of up to n packets the sender stays within three of the last echoed number if and only if n is at most 256 |

## Left out

- PrePost.DispatchRoundTrip: for FLOAT32 only without offsets, because how a float plus an integer rounds is not part of this model (the dispatchers take it as a parameter); `Layout.RoundTrip` is the condition then
- ConstantLayout.ConvertModelToNchw: the flag that `getValue` reads from a constant is taken as fixed, while the driver reads it from memory that earlier conversions may have moved; constants lie in one flat memory instead of pools; ranks above 4 are read by their first four dimensions; the `vecConverted` and `vecIsNCHW` bookkeeping is not kept, no decision depends on the former
- Partition.ModelInfo.Convert: models the groups, the counts and the slots, not the operands, the compilation for the NPU or the two early returns for a model without inputs or outputs
- Scheduler.RunCorrect: safety only; the empty check and the condition wait are not atomic, so progress is not claimed
- StdBoot.Boot: the modem whose BOOT image went over SPI or PCIe before, in the SIT build; the secure variant and the plain stages, which use the same exchange, are not modelled
- SamePadding.SamePaddingCorrect: computes in unbounded integers, where the driver uses 32 bits
- StdDump.DumpDevice.ReceiveCpDump: frames hold what their length announces, at most the frame size; step numbers stay below 256; the int total of a step is taken to wrap around
- SitDump.SitDumpDevice.ReceiveDump: begins after the dump information and the crash reason; the int `saveLen` is taken to wrap around above 2 GiB, where `HonestDumpReceived` relies on it
- ImageLoad.Kernel.LoadCpImageByStage: memory offsets are unbounded instead of 32 bits wide; a load that the driver refuses has no effect
- DumpRing.Storage.OrganizeDumpFiles: a directory is an entry of a map; indices outside those of `EndsIff` would not return
- Loopback.WindowBounded: the modem may delay and lose echoes but not invent, repeat or reorder them
- Short writes, out-of-memory exits and `fsync`, whose failure in the plain dump leaves with a positive errno
- `convertDataLayoutFromNHWCToCNHW`, which dispatches like the other two, and `dump2hex`
- `getOperandsExceptNPU` and `getOutputOperandIndexes`, which collect operands
- `std_boot_load_cp_bootloader`, power control and handshakes outside the download
- `set_alarm` and the intervals of the loopback; the CP-initiated direction
- The HIDL and runtime wrappers, ION buffers, the NPU compiler's objects, option parsing, logging and crash-reason text
