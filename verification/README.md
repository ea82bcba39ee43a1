# Models of coreboot's firmware algorithms

Dafny models of the parts of coreboot whose correctness does not show from reading one function,
with proofs of what they are for. Code that changes state is modelled as classes and methods over
mutable fields and arrays; each method is proved against a specification function, and the
properties are lemmas about that function.

| part | modules | main results |
|---|---|---|
| Resource allocator | Alignment, Options, Resources, LargestFirst, Walks, Routes, Passes, SizingPass, PlacingPass, Layout, WordPasses, Allocator, FixedRanges, Listings, FixedPlaces, Domain | The sweep visits every record once, largest first. What the second pass places is aligned, nested along the bridges and otherwise disjoint; nothing that was sized is left out. The 64-bit passes do what integers would do under a bound that a caller can check. A domain is configured clear of all fixed ranges. |
| Flattened device tree | Bytes, Streams, DeviceTree, FdtWriter, FdtReader, FdtRoundTrip, FdtFormat, FdtReading | The size pass agrees with the writer, and a tree that was written loads as itself exactly if its header keeps the right reserve map offset. |
| LZMA decoder | RangeCoder, BitCodes, RangeDecoding, LzmaSyntax, LzmaUnique, LzmaSymbols, LzmaDecoder, LzmaStream, LzmaProperties, LzmaFormat, LzmaContexts | The output is the LZ77 expansion of the only complete list of operations that the input spells; every such list has an encoding. |
| PCI bus numbering | BusNumbers, BusScan | Every bus is reached by its number, alone, when its devices are looked for, exactly if there are numbers for all buses. |
| I2C master | I2cWire, I2cMaster, I2cProtocol | A transfer that succeeds is heard as exactly its segments, against any slave that moves only while SCL is low. |
| Checksum and coreboot table | MachineInts, IpChecksum, ChecksumFormat, Memory, CorebootTable, TableReader, TableFormat | Checksums of pieces add up; the two implementations agree exactly below 2^31; the reader handles exactly the records that were written. |
| Quicksort | DeviceSort | It ends exactly on lists of distinct devices, and then the list is a sorted permutation. |
| Console log | ConsoleRing | The ring holds the end of everything that was written, over writes and over the handover between stages. |
| Number formatting | NumberFormat | The digits stand for the number, and the count is the length of the field; a number is read back exactly below 2^31. |
| TE relocation | TeRelocate, TeImage | Relocating twice is relocating once, and only the listed words and the image base change. |
| Base64 | Base64 | Any text with the letters of an encoding of x decodes to x. |

The allocator, the bus scan, the table writer, the I2C bus, the range decoder, the LZMA decoder, the
flattener and the console are classes whose fields the methods overwrite; the allocator and the
bus scan are proved over a snapshot (`View`) of all records, which also says what does not change.
The specification functions follow the shape of the code. What they mean is proved apart from them, in
the terms of the records, bits and bytes themselves: Routes and FixedPlaces tell who is concerned by where
records stand in the tree, Layout what sizing is for, and FdtFormat, FdtReading, LzmaFormat, LzmaContexts,
I2cProtocol, ChecksumFormat, TableFormat and TeImage what stands where, as the formats and the bus define it.
Recursion that the code leaves unbounded is given the depth of the stack as a parameter
(`depth`, `hops`), and what happens when that is not enough is part of the result.

Standards: Devicetree Specification, sections 5.2 to 5.5; I2C-bus specification UM10204, sections
3.1.3 to 3.1.6 and 3.1.10; RFC 1071, section 2; RFC 4648, section 4; PI Specification, volume 1 (TE images).

## Findings

Places where the code does not do what it is for on all inputs. Each has a concrete
input and an exact condition, as lemmas or as what a method ensures.

- `FixedRanges.AvoidCanGrowTheWindow`, `FixedRanges.AvoidCanKeepTheRange`: `avoid_fixed_resources` and
  `constrain_resources` subtract in 64 bits. When a fixed range leaves no room on the side that is
  kept, the new limit wraps; the window then grows, or keeps the range. `FixedRanges.AvoidExcludesIff`
  has the exact condition for one step, and a fixed range at address 0 is harmless as long as
  it leaves room above.
- `FixedRanges.SmallerPartIsKept`: the comparison of the room above and below a fixed range is signed, so in a
  window of 2^63 addresses or more the smaller part can be kept. `FixedRanges.LargerPartKeptIff` has the
  exact condition.
- `WordPasses.WrappedWindowFits`: with a window smaller than what was computed, `resource_max` wraps and
  the test for the end of the window passes. `Domain.ResourceMaxHoldsIff` says exactly when the window
  still holds its size, and `WordPasses.FitIsRightIff` exactly when a record that passes the test is placed
  inside the window; `WordPasses.CursorIsRightIff` does so for the cursor behind it, and
  `WordPasses.RoundWrapsIff` and `WordPasses.SkipWrapsIff` for the two ways of rounding.
- `Alignment.VgaSkipIsUnreachable`: whatever the base, the branch that skips the VGA ports is never taken, because the rule
  for ten-bit decoders skips the same ports before it.
- `FdtWriter.FlatTreeSize`: `dt_flat_size` counts in 32 bits, and is the size of the flattened tree exactly
  if that is below 4 GiB.
- `FdtRoundTrip.RoundTripIff`, `FdtRoundTrip.ReorderedBlobIsLost`: `dt_flatten` copies the reserve map offset of
  the header that was read, but writes the map right behind the header. A blob whose structure
  block came first cannot be written and read again.
- `BusScan.ScanReachesAllIff`: the scan does not stop at 256 buses; the numbers of later ones are
  truncated to a byte in the bridges, and not all of these buses are reached.
- `I2cMaster.StopCanBeMissed`: `stop_cond` only warns when SDA stays low, so a transfer can succeed
  although no stop condition was ever on the wires. `I2cMaster.Bus.StopCondition` has the condition.
- `I2cMaster.Bus.Transfer`: a transfer of no segments on an idle bus succeeds and is heard as a start and a
  stop condition; the assertion that SCL is low is only reported.
- `IpChecksum.ChecksumsAgreeIff`, `IpChecksum.ChecksumsDiffer`: the payload library adds words into an `int`
  without folding the carry. From a sum of 2^31 on, which 64 KiB cannot reach but one word more can,
  it disagrees with the firmware's checksum, and `parse_header` refuses the table.
- `DeviceSort.SortEndsIff`: `quicksort` keeps the pivot in its second call, so two devices with equal keys
  stay together and the recursion never ends.
- `ConsoleRing.Log.Stages`: the handover reports a truncated log as soon as the first console is full, also
  when exactly its last byte was used and nothing was lost.
- `NumberFormat.ReadBack`, `NumberFormat.LostNumber`: `skip_atoi` adds up digits in an `int`. A number that was
  printed is read back exactly if it is below 2^31, and 2^32 is read back as 0.
- `TeRelocate.RelocatingBack`: `te_relocate` keeps 32 bits of the image base, so relocating an image back
  to where it was linked restores it exactly if its base had only 32 bits.

## Model

| member | source | states |
|---|---|---|
| Alignment.RoundUpIsLeastMultiple | coreboot/src/device/device.c:182-196 | on integers: `round` gives the least multiple of 2^pow that is not below val |
| WordPasses.RoundAgrees | coreboot/src/device/device.c:182-196 | in 64 bits `round` does the same if val and 2^pow add up to at most 2^64 |
| WordPasses.RoundWrapsIff | coreboot/src/device/device.c:182-196 | in 64 bits the result is not below val exactly if that sum with the mask does not overflow |
| Alignment.SkipAliasesIsLeast | coreboot/src/device/device.c:422-439 | on integers: the start of an I/O range moves to the least port not below it that ten-bit decoders do not alias |
| WordPasses.SkipAgrees | coreboot/src/device/device.c:422-439 | in 64 bits it moves there too if that port is below 2^64 |
| WordPasses.SkipWrapsIff | coreboot/src/device/device.c:422-439 | in 64 bits it never moves down exactly if that port is below 2^64 |
| Alignment.VgaSkipIsUnreachable | coreboot/src/device/device.c:422-439 | a base in the VGA range has already been moved by the alias rule, to 0x400 |
| LargestFirst.OrderSorted | coreboot/src/device/device.c:246-301 | the order of the records is a permutation, sorted by decreasing alignment and, among equal alignments, by decreasing size |
| LargestFirst.OrderStable | coreboot/src/device/device.c:246-301 | records of which neither is larger keep their traversal order |
| LargestFirst.SweepsEnumerate | coreboot/src/device/device.c:246-301 | asking for the next largest from nothing on steps through that order, every record once, and then gives nothing |
| Allocator.PickLargestState.Pick | coreboot/src/device/device.c:253-282 | one step of the sweep keeps: the state holds the best candidate of the records seen so far |
| Allocator.LargestResource | coreboot/src/device/device.c:284-301 | the sweep over a bus returns the record that follows `last` in the order, fixed ones left out |
| Routes.SweepInOrder | coreboot/src/device/device.c:284-301 | the sweep meets exactly the records of its kind on enabled devices, each place once, in the order of devices and records |
| Routes.WalkIff | coreboot/src/device/device.c:351-386 | a pass meets exactly the records of its kind to which bridge windows of that kind and with the same prefetch flag lead, link by link |
| Routes.BeneathIff | coreboot/src/device/device.c:383-386 | a record lies behind a window exactly if the window stands on the route to it, and then both have one kind and one prefetch flag |
| Routes.WantsIff | coreboot/src/device/device.c:500-613 | a record asks for an address exactly if it has a size, is movable, and stands at the end of such a route on which all devices are enabled and all windows are movable |
| Allocator.ComputeResources | coreboot/src/device/device.c:336-464 | the sizing pass overwrites the records as its specification on 64-bit words says, and no others; Layout.SizingIsTight and Routes.WalkIff say what that is |
| Allocator.AllocateResources | coreboot/src/device/device.c:480-617 | the placing pass overwrites the records as its specification on 64-bit words says, and no others; Routes.WantsIff and PlacingPass say what that is |
| SizingPass.SizingEstablishes | coreboot/src/device/device.c:336-464 | after sizing from base 0 every window below the bridge has exactly the size, alignment and limit that its contents need, all the way down |
| Layout.SizingIsTight | coreboot/src/device/device.c:388-459 | on integers: behind every window the records end up largest first and close behind each other, each at the least address it may have, and the window has the least size of its granularity, the largest alignment and the smallest limit among them, all the way down |
| PlacingPass.PlacingIsSafe | coreboot/src/device/device.c:480-617 | on integers: whatever is placed is aligned and inside the window; two placed ranges are nested like their buses or disjoint |
| PlacingPass.PlacingIsComplete | coreboot/src/device/device.c:480-617 | on integers: behind a window that was sized and has room, every record that asks for an address gets one |
| Layout.PlacingIsTight | coreboot/src/device/device.c:488-563 | on integers: from the base of the window on, largest first, every record is parked, or placed at the least address that it may have behind the one before, or left where it was with its limit cut, if it would end above that |
| Layout.EmptyIsParked | coreboot/src/device/device.c:499-508 | a record of no size is put at the highest address that it and the window allow, counts as assigned, and takes no room |
| WordPasses.PlaceAgrees | coreboot/src/device/device.c:480-617 | if every record, aligned and placed above the window, would still end below 2^64, the pass on 64-bit words does what the pass on integers does |
| WordPasses.PlacingWordsIsSafe | coreboot/src/device/device.c:500-563 | under that bound the 64-bit pass places safely |
| WordPasses.PlacingWordsIsComplete | coreboot/src/device/device.c:500-563 | under that bound, in a window sized without overflow and with room, the 64-bit pass places every record that asks for an address, settled inside the window |
| WordPasses.SizedAgrees | coreboot/src/device/device.c:336-464 | a tree in which no total overflows is sized in 64 bits as it would be on integers |
| WordPasses.WrappedWindowFits | coreboot/src/device/device.c:534-549 | a window whose base wrapped takes a record that does not fit, and the next one starts below it |
| WordPasses.FitIsRightIff | coreboot/src/device/device.c:534-549 | a record that passes the 64-bit test for the end of the window is placed at or behind the cursor and inside the window exactly if neither its alignment nor its size runs over 2^64 |
| WordPasses.CursorIsRightIff | coreboot/src/device/device.c:534-563 | the cursor behind a record placed so is above its base exactly if the record does not end at 2^64 itself |
| Domain.ResourceMaxHoldsIff | coreboot/src/device/device_util.c:481-488 | at the base that `resource_max` gives, the window still holds its size exactly if it was large enough for it |
| Domain.ResourceMaxIsHighest | coreboot/src/device/device_util.c:481-488 | the base that `resource_max` gives a window that is large enough is the highest aligned one from which its size ends at the limit |
| Domain.ConfinedByNumbers | coreboot/src/device/device.c:735-751 | a domain window ends where what is left ends; an I/O window begins where that begins, a memory window as high as it can |
| FixedRanges.AvoidExcludesIff | coreboot/src/device/device.c:665-687 | one step leaves a window without the fixed range, inside the old one, exactly if its subtraction does not run off the end of the address space |
| FixedRanges.LargerPartKeptIff | coreboot/src/device/device.c:677-687 | one step keeps the larger of the parts above and below the range exactly if their differences overflow 63 bits alike, and what is kept is that part |
| FixedRanges.SmallerPartIsKept | coreboot/src/device/device.c:677-687 | with one page below a range at 0x1000 and all other addresses above it, the page is kept |
| FixedRanges.AvoidCanGrowTheWindow | coreboot/src/device/device.c:665-687 | a fixed range that fills the window from 0 makes it grow to the whole address space |
| FixedRanges.AvoidCanKeepTheRange | coreboot/src/device/device.c:665-687 | a fixed range that reaches the top of the address space is kept although there is room below |
| FixedRanges.AvoidAllClears | coreboot/src/device/device.c:642-697 | if no step runs off, the window that is left lies in the old one and has no address of any sized fixed resource of its kind |
| FixedRanges.RangesStayOn | coreboot/src/device/device.c:642-697 | no step runs off if ranges at 0 end before a gap below the window's limit, others start behind it, and none reaches the top |
| FixedRanges.ConstrainResources | coreboot/src/device/device.c:642-697 | the recursive descent narrows the limits by every fixed resource of the enabled devices below, in traversal order |
| FixedPlaces.FixedInIff | coreboot/src/device/device.c:649-696 | the descent meets exactly the fixed resources of the device and of those below it to which only enabled devices lead |
| FixedPlaces.ListAll | coreboot/src/device/device.c:649-696 | it meets each of their places once, in the order of resources, links and children |
| Domain.AvoidFixedResources | coreboot/src/device/device.c:699-755 | the windows of a domain are cut down to what the descent leaves and moved to its top, other records stay; Domain.ConfinedByNumbers and FixedPlaces.FixedInIff say what that is |
| Domain.ConfigureDomain | coreboot/src/device/device.c:1045-1091 | sizing, avoiding and placing for one domain; for every window that is ready, every record behind it is configured |
| Domain.DomainIsConfigured | coreboot/src/device/device.c:1045-1091 | below a ready window every record of its kind that needs an address and can be reached through enabled devices and movable windows like it has one: aligned, inside the window, nested or disjoint as the records stand behind each other, and clear of every sized fixed resource of that kind on an enabled device |
| Domain.WindowIsReady | coreboot/src/device/device.c:699-755 | a window is ready if, in the share of the address space that is left, a memory window has room for its size and alignment, or an I/O window for its size above an aligned bottom, whatever fixed records lie above it |
| DeviceTree.TokensSize | coreboot/src/lib/device_tree.c:283-317 | the sizes that the size pass adds up are those of the token stream of the tree |
| FdtWriter.FlatPropSize | coreboot/src/lib/device_tree.c:283-297 | the size pass adds what a property takes in both blocks to its 32-bit counters |
| FdtWriter.FlatNodeSize | coreboot/src/lib/device_tree.c:299-317 | the recursive size pass adds the sizes of both blocks to its 32-bit counters, which keep what they can of the exact sums |
| FdtWriter.FlatTreeSize | coreboot/src/lib/device_tree.c:319-338 | the size of the whole blob, exactly if it is below 4 GiB |
| FdtWriter.Writer.FlattenNode | coreboot/src/lib/device_tree.c:381-409 | writes the token stream of a node behind what is there, advances both cursors by the sizes of the size pass, and keeps everything else |
| FdtWriter.Flatten | coreboot/src/lib/device_tree.c:411-446 | the buffer holds the flattened tree, its header copied apart from the words that describe the layout, and nothing behind its total size has changed |
| FdtFormat.HeaderByNumbers | coreboot/src/lib/device_tree.c:411-446 | the header has total size, offsets and sizes of the blocks as big-endian numbers at their places, which are the sums of what header, entries, padded tokens and names take, and the end token stands before the strings |
| FdtFormat.EntryByNumbers | coreboot/src/lib/device_tree.c:346-353 | entry i of the memory reservation block is start and size as big-endian numbers 16 * i bytes behind the header, and an entry of zeros ends it |
| FdtFormat.StructureByNumbers | coreboot/src/lib/device_tree.c:354-409 | every token of the tree stands where the sizes of those before it put it: 1 and the name, 3 with size, name offset and value, or 2, and the property name is in the strings block at that offset |
| FdtReader.Unflatten | coreboot/src/lib/device_tree.c:241-275 | loads what its specification says from any blob, error cases included |
| FdtReading.LoadedIsThere | coreboot/src/lib/device_tree.c:31-275 | whatever is loaded from any blob stands there: the header ends with the least of the three offsets, the reservation entries are all up to the first of size 0, and every token of the tree is at its place, with its value and its name |
| FdtRoundTrip.ReadNode | coreboot/src/lib/device_tree.c:175-218 | a node of a well-formed stream is read back as that node, up to the end of its last token |
| FdtRoundTrip.RoundTrip | coreboot/src/lib/device_tree.c:175-446 | loading a flattened tree gives back its reserve map, all its nodes and the extent of its header |
| FdtRoundTrip.RoundTripIff | coreboot/src/lib/device_tree.c:411-446 | it does so exactly if the header's reserve map offset is its own size |
| FdtRoundTrip.ReorderedBlobIsLost | coreboot/src/lib/device_tree.c:241-275 | a tree loaded from a blob whose structure block comes first is not the same after writing and loading |
| BusNumbers.NumberedDelivers | coreboot/src/device/pci_device.c:1268-1352 | in a numbered tree a configuration cycle for any of its numbers arrives on exactly one bus, in depth-first order |
| BusScan.RouteScan | coreboot/src/device/pci_device.c:1268-1313 | before the scan a bridge gets the next number and is opened to all higher ones, with its decoding off |
| BusScan.RouteFinal | coreboot/src/device/pci_device.c:1268-1313 | after the scan it is closed to the highest number found, its decoding is restored, and its parent knows that number |
| BusScan.ScanBus | coreboot/src/device/pci_device.c:1315-1352 | the recursive scan numbers the tree depth first, in fields of 16 bits and registers of 8, restores every command register, changes nothing outside, and looks for the devices of every bus by its number |
| BusScan.ProbeHitsIff | coreboot/src/device/pci_device.c:1268-1352 | while a bus is scanned its number reaches it and no other bus if the number is a byte, and no bus if it is a larger number of 16 bits |
| BusScan.ScanReachesAllIff | coreboot/src/device/pci_device.c:1268-1352 | all buses are reached exactly if the last number is at most 255 |
| BusScan.EveryNumberNamesOneBus | coreboot/src/device/device.c:916-958 | after the scan every number up to the subordinate one names one bus of the tree, and higher ones none |
| BusScan.WindowsNested | coreboot/src/device/pci_device.c:1268-1313 | the number ranges of sibling bridges are disjoint, ordered, and strictly inside their parent's, and each bridge has its parent's number as the primary one |
| RangeCoder.BoundIsProper | coreboot/payloads/bayou/lzmadecode.c:42-46 | after normalising, each answer is given at least 2^16 of a range below 2^32, and neither is given all of it |
| LzmaFormat.ModelledNarrows | coreboot/payloads/bayou/lzmadecode.c:42-46 | a decision takes its part of the range: 11 bits of probability, eight more bits below 2^24, and the probability moves by a 32nd towards the answer |
| LzmaFormat.DirectNarrows | coreboot/payloads/bayou/lzmadecode.c:338-351 | a decision without a model halves the range |
| RangeCoder.AdaptedStays | coreboot/payloads/bayou/lzmadecode.c:45-46 | probabilities stay between 31 and 2017 |
| RangeCoder.DecodedIffInside | coreboot/payloads/bayou/lzmadecode.c:31-52 | the decisions decoded from an input are exactly those whose interval contains the number that the input is |
| RangeDecoding.RangeDecoder.DecodeBit | coreboot/payloads/bayou/lzmadecode.c:42-46 | one adaptive bit: the decision the input asks for is taken, unless a byte is needed and there is none |
| RangeDecoding.RangeDecoder.DecodeTree | coreboot/payloads/bayou/lzmadecode.c:48-58 | the value of a bit tree is the one whose path was decoded |
| LzmaSymbols.DecodeLength | coreboot/payloads/bayou/lzmadecode.c:287-318 | the length is the one whose code was decoded, from three classes |
| LzmaSymbols.DecodeDistance | coreboot/payloads/bayou/lzmadecode.c:320-376 | the distance is the one whose slot, direct and reversed bits were decoded |
| LzmaSymbols.DecodeLiteral | coreboot/payloads/bayou/lzmadecode.c:177-214 | the literal is the one whose plain or match-guided path was decoded |
| LzmaDecoder.Decoder.Step | coreboot/payloads/bayou/lzmadecode.c:168-391 | one turn: the operation that was decoded is legal, and state, the four distances and the output become what it makes of them; or the input is refused |
| LzmaFormat.StateBehindCopy | coreboot/payloads/bayou/lzmadecode.c:211-213 | the state is what the last copy, whether a literal stood before it, and the number of literals behind it make of it |
| LzmaFormat.StateOfLiterals | coreboot/payloads/bayou/lzmadecode.c:211-213 | literals alone leave state 0 |
| LzmaFormat.StateTellsCopy | coreboot/payloads/bayou/lzmadecode.c:188-188 | the state is 7 or more exactly if the last operation was no literal |
| LzmaFormat.DistancesAfter | coreboot/payloads/bayou/lzmadecode.c:215-285 | a new distance pushes out the oldest of four; one that is used again moves to the front |
| LzmaFormat.OperationAnswers | coreboot/payloads/bayou/lzmadecode.c:168-376 | what an operation looks like in bits: its kind, a literal highest bit first, a length of three classes, a distance of slot and open bits |
| LzmaFormat.DistanceAnswers | coreboot/payloads/bayou/lzmadecode.c:320-376 | a distance is spelt by six bits for its slot and the bits that the slot leaves open, the last ones lowest first |
| LzmaFormat.OutputAfter | coreboot/payloads/bayou/lzmadecode.c:208-389 | a literal is put behind the output; a copy adds its length, every byte equal to the one its distance before |
| LzmaContexts.CodeGives | coreboot/payloads/bayou/lzmadecode.c:177-376 | every decision of an operation answers a question of the format, at the index where that is modelled: kinds by state and position, lengths by coder, class and position, slots by length, literals by table and by the byte that would be copied next |
| LzmaContexts.SharedIff | coreboot/payloads/bayou/lzmadecode.c:60-104 | two decisions of any two operations, wherever they stand, share a probability exactly if they answer the same question |
| LzmaSyntax.CopyRepeats | coreboot/payloads/bayou/lzmadecode.c:383-389 | every copied byte equals the one `distance` before it, also where source and target overlap |
| LzmaUnique.OperationsDiverge | coreboot/payloads/bayou/lzmadecode.c:168-376 | in the same situation different operations have codes that differ at a decision before either ends |
| LzmaStream.LzmaDecode | coreboot/payloads/bayou/lzmadecode.c:135-398 | the output is the expansion of the complete list of operations that the input spells, cut at its size, with the number of bytes used; it is refused only if faulty; and whatever it was encoded from is what is found |
| LzmaStream.Encodable | coreboot/payloads/bayou/lzmadecode.c:135-398 | every complete list of legal operations has an input that encodes it |
| LzmaStream.OneCompleteReading | coreboot/payloads/bayou/lzmadecode.c:135-398 | an input spells at most one complete list of operations |
| LzmaStream.FaultyEncodesNothing | coreboot/payloads/bayou/lzmadecode.c:135-398 | an input that may be refused is not the encoding of anything |
| LzmaProperties.LzmaDecodeProperties | coreboot/payloads/bayou/lzmadecode.c:110-131 | unpacks the three parameters from the byte they are packed in, and refuses exactly short data and bytes from 225 on |
| LzmaProperties.PackedOnce | coreboot/payloads/bayou/lzmadecode.c:110-131 | no two valid sets of parameters are packed into the same byte |
| I2cMaster.Bus.StartCondition | coreboot/src/device/software_i2c.c:85-115 | success is heard as one start condition, failure as nothing |
| I2cMaster.Bus.StopCondition | coreboot/src/device/software_i2c.c:117-144 | success is heard as one stop condition exactly if SDA is high at the end, otherwise as nothing; from an idle bus a start condition comes before |
| I2cMaster.StopCanBeMissed | coreboot/src/device/software_i2c.c:117-144 | from any state between bits, a slave that holds SDA makes `stop_cond` succeed unheard, and one that lets go makes it heard |
| I2cMaster.Bus.OutByte | coreboot/src/device/software_i2c.c:207-223 | is heard as the eight bits, highest first, and the acknowledge bit that is returned |
| I2cMaster.Bus.InByte | coreboot/src/device/software_i2c.c:225-244 | the byte returned is what is heard, followed by the master's own acknowledge bit |
| I2cMaster.Bus.Transfer | coreboot/src/device/software_i2c.c:246-272 | success is heard as exactly the segments with the bytes that were moved, and a stop condition if the slave let SDA go; failure ends without a stop condition; a transfer of nothing from an idle bus is heard as a start and a stop condition |
| I2cProtocol.SegmentByPlace | coreboot/src/device/software_i2c.c:251-266 | behind the start condition stand seven bits of address, highest first, and a direction bit that is high exactly if the segment reads; every byte stands highest bit first; the acknowledge bit is high exactly behind the last byte that is read |
| I2cProtocol.SegmentsByPlace | coreboot/src/device/software_i2c.c:251-266 | the segments stand behind each other in the order in which they were given |
| I2cMaster.SegmentHeard | coreboot/src/device/software_i2c.c:246-272 | what is heard of a segment determines its address, its direction and every byte |
| IpChecksum.ComputeIpChecksum | coreboot/src/lib/compute_ip_checksum.c:4-32 | the byte loop with its folded carry gives the complement of the ones' complement sum of the words, as a machine of either byte order reads it |
| ChecksumFormat.ChecksumIsComplement | coreboot/src/lib/compute_ip_checksum.c:4-32 | it is the complement of the words added one after the other with the carry wrapped around, as the standard defines it |
| IpChecksum.OneByteCounts | coreboot/src/lib/compute_ip_checksum.c:4-32 | a text with one byte changed has another checksum |
| IpChecksum.ChecksumOfParts | coreboot/src/lib/compute_ip_checksum.c:34-51 | the checksum of a concatenation from those of its parts, byte-swapped behind an odd part, with both zeros |
| IpChecksum.SwappedParts | coreboot/src/lib/compute_ip_checksum.c:34-51 | adding checksums commutes with swapping their bytes |
| IpChecksum.AddIpChecksums | coreboot/src/lib/compute_ip_checksum.c:34-51 | for any two texts with the given checksums and offset, the result is the checksum of their concatenation, on machines of either byte order |
| IpChecksum.ChecksumInside | coreboot/src/lib/compute_ip_checksum.c:4-32 | a text that is given its own checksum has the checksum zero |
| IpChecksum.IpChksum | coreboot/payloads/libpayload/libc/ipchecksum.c:34-53 | the word loop folds a sum of which a signed 32-bit number is kept |
| IpChecksum.ChecksumsAgreeIff | coreboot/payloads/libpayload/libc/ipchecksum.c:34-53 | for texts below 4 GiB both implementations agree exactly if the words add up to less than 2^31 |
| IpChecksum.ChecksumsAgree | coreboot/payloads/libpayload/libc/ipchecksum.c:34-53 | they agree on all texts of up to 64 KiB |
| IpChecksum.ChecksumsDiffer | coreboot/payloads/libpayload/libc/ipchecksum.c:34-53 | they differ on 64 KiB and one word of ones |
| CorebootTable.Table.constructor | coreboot/src/lib/coreboot_table.c:47-66 | an empty table at the next multiple of 16, nothing else changed |
| CorebootTable.Table.NewRecord | coreboot/src/lib/coreboot_table.c:83-94 | accounts for the last record, whatever it has grown to, and begins one behind it; the earlier records stay |
| CorebootTable.Table.Fill | coreboot/src/lib/coreboot_table.c:96-105 | the last record may be replaced by a longer one while it is last |
| CorebootTable.Table.Fini | coreboot/src/lib/coreboot_table.c:452-468 | the table is complete: sizes add up, both checksums are right, and the end is returned; without records the end is as far off as the memory there says |
| TableFormat.HeaderByNumbers | coreboot/src/lib/coreboot_table.c:47-66 | "LBIO", the header's own size, size, checksum and number of the records stand at their places as little-endian numbers, and the header adds up to ones |
| TableFormat.RecordByNumbers | coreboot/src/lib/coreboot_table.c:68-94 | the records stand behind each other, each with its length in its second word |
| TableReader.ParseHeader | coreboot/payloads/coreinfo/coreboot_module.c:166-237 | returns and handles what its specification says for any memory, all error returns included |
| TableReader.FindsFirst | coreboot/payloads/coreinfo/coreboot_module.c:172-181 | the search finds the first signature on its 16-byte grid |
| TableReader.FindsNoneIff | coreboot/payloads/coreinfo/coreboot_module.c:172-181 | the search fails exactly if no place of that grid within its length has the signature |
| TableReader.WalkRead | coreboot/payloads/coreinfo/coreboot_module.c:195-234 | the walk handles records that were written behind each other, each with the bytes that were written, in order |
| TableReader.VerdictOnFinished | coreboot/payloads/coreinfo/coreboot_module.c:183-193 | a finished table passes both checks exactly if it has records and their words add up to less than 2^31 |
| TableFormat.OneByteOffIsRefused | coreboot/payloads/coreinfo/coreboot_module.c:183-193 | a finished table with one byte changed anywhere is refused, if the changed records still add up to less than 2^31 |
| TableReader.ReadFinished | coreboot/payloads/coreinfo/coreboot_module.c:166-237 | of a finished table that is found, exactly its records are handled, or it is refused as stated above |
| TableReader.ReadForwarded | coreboot/payloads/coreinfo/coreboot_module.c:201-204 | a forward record ends the walk and the reader goes on where it points |
| TableFormat.ForwardByNumbers | coreboot/src/lib/coreboot_table.c:439-450 | a forward record is tag 0x11, size 16 and the address as a 64-bit number |
| TableReader.ReadThroughForward | coreboot/src/lib/coreboot_table.c:470-480 | through a forwarding table every record of the real table is handled |
| DeviceSort.PartitionSplits | coreboot/payloads/coreinfo/pci_module.c:52-70 | a permutation with smaller keys in front of the pivot and no smaller ones behind it |
| DeviceSort.PartitionInPlace | coreboot/payloads/coreinfo/pci_module.c:52-70 | the in-place loop does that to its stretch of the list and leaves the rest |
| DeviceSort.SortIsRight | coreboot/payloads/coreinfo/pci_module.c:72-83 | when the recursion ends the list is sorted and a permutation |
| DeviceSort.SortEndsIff | coreboot/payloads/coreinfo/pci_module.c:72-83 | with distinct keys twice as many nested calls as devices are enough; with equal keys no number is |
| DeviceSort.Quicksort | coreboot/payloads/coreinfo/pci_module.c:72-83 | the in-place recursion sorts its stretch and nothing else, if the stack has room |
| DeviceSort.SortDevices | coreboot/payloads/coreinfo/pci_module.c:223-223 | done exactly if the devices are distinct, and then the list is sorted and a permutation |
| ConsoleRing.Console.Store | coreboot/src/lib/cbmem_console.c:121-138 | the ring holds the last `size` bytes of what it held and the new byte |
| ConsoleRing.CursorByNumbers | coreboot/src/lib/cbmem_console.c:48-91 | the cursor is in the low 28 bits, the overflow mark is the highest bit, and a console is valid exactly if its cursor is inside it and its size fills its space |
| ConsoleRing.Console.Dump | coreboot/src/lib/cbmem_console.c:187-203 | reading from the cursor to the end and then from the start gives what the ring holds, oldest first |
| ConsoleRing.Log.Init | coreboot/src/lib/cbmem_console.c:86-108 | a console that makes sense keeps what it holds, any other is emptied |
| ConsoleRing.Log.CopyConsole | coreboot/src/lib/cbmem_console.c:147-170 | the target holds the end of what it held, the warning if the source had been full, and what the source held; the source is invalid afterwards |
| ConsoleRing.Log.Stages | coreboot/src/lib/cbmem_console.c:172-185 | over two stages the persistent console holds the end of all that was there and all that was written, as far as the first console has not lost it |
| NumberFormat.Number | coreboot/src/console/vtxprintf.c:49-136 | what is sent is the field of sign, prefix, padding, zeros and digits that the flags ask for, and the count is its length |
| NumberFormat.FieldReads | coreboot/src/console/vtxprintf.c:49-136 | from left to right a field is blanks, the sign of the number, the prefix of the base, digits of the base in the case asked for with the magnitude as their value, and blanks; padding stands on the side the flags say and only as far as the width asks |
| NumberFormat.FieldLength | coreboot/src/console/vtxprintf.c:49-136 | that length is the width, or that of sign, prefix and max(precision, digits) if it is more |
| NumberFormat.FieldValue | coreboot/src/console/vtxprintf.c:49-136 | behind blanks, sign and prefix stand digits, zero padding included, whose value in the base is the magnitude of the number |
| NumberFormat.FillDigits | coreboot/src/console/vtxprintf.c:97-105 | 64 of the 66 places are enough for the digits of any 64-bit number in any base |
| NumberFormat.SkipAtoi | coreboot/src/console/vtxprintf.c:32-39 | reads what a signed 32-bit number keeps of the value of the longest run of decimal digits: the value itself exactly if it is below 2^31 |
| NumberFormat.ReadBack | coreboot/src/console/vtxprintf.c:32-39 | `skip_atoi` reads back the digits that `number` prints in base ten exactly if the magnitude is below 2^31 |
| NumberFormat.LostNumber | coreboot/src/console/vtxprintf.c:32-39 | 2^32 is printed with ten digits and read back as 0 |
| TeRelocate.TeRelocateImage | coreboot/src/commonlib/fsp_relocate.c:116-214 | the nested loops change the image as the specification of the walk says, from any bytes, error returns included |
| TeRelocate.RelocatedIsPatched | coreboot/src/commonlib/fsp_relocate.c:161-211 | on an image whose listed words are apart from each other, the header and the directory, the walk succeeds and adds the adjustment to exactly those words |
| TeImage.ListedIff | coreboot/src/commonlib/fsp_relocate.c:161-211 | the walk patches exactly the words at the RVAs that the directory lists, an RVA standing at itself less StrippedSize plus 40 |
| TeImage.WordMoved | coreboot/src/commonlib/fsp_relocate.c:138-200 | each of them grows, in 32 bits, by where it is now less where its RVA was linked |
| TeImage.BaseMoved | coreboot/src/commonlib/fsp_relocate.c:152-159 | the image base afterwards says in 32 bits where every RVA is |
| TeImage.OthersKept | coreboot/src/commonlib/fsp_relocate.c:116-214 | no byte outside the image base and the listed words changes |
| TeRelocate.RelocationFails | coreboot/src/commonlib/fsp_relocate.c:131-201 | relocation fails without the signature, untouched, and at the first entry of a type other than 0 and 3 |
| TeRelocate.RelocatedMoves | coreboot/src/commonlib/fsp_relocate.c:116-214 | every listed word is moved once, the image base is written, and no other byte changes |
| TeRelocate.RelocationComposes | coreboot/src/commonlib/fsp_relocate.c:116-214 | relocating to one address and then to another gives the same image as relocating to the second at once |
| TeRelocate.RelocatingBack | coreboot/src/commonlib/fsp_relocate.c:145-159 | relocating back to where the image is linked restores it exactly if its base has 32 bits |
| Base64.LookupLetter | coreboot/src/lib/b64_decode.c:17-24 | the decoding table inverts the alphabet of the standard |
| Base64.Descriptor.NextChar | coreboot/src/lib/b64_decode.c:44-75 | gives the next character that is not padding or a line break, -1 if it is outside the alphabet, 0 at the end |
| Base64.B64Decode | coreboot/src/lib/b64_decode.c:82-146 | nothing is decoded if a character is outside the alphabet; otherwise the whole bytes of the bits that the letters stand for; so any text with the letters of an encoding of x gives x |
| Base64.LineBreak | coreboot/src/lib/b64_decode.c:44-75 | line feeds, carriage returns and signs of equality anywhere in a text change nothing |
| Base64.StripEncode | coreboot/src/lib/b64_decode.c:36-43 | the padded encoding of x is such a text |

## Left out

- Alignment.RoundUpIsLeastMultiple: is about integers; in 64 bits see WordPasses.RoundAgrees and WordPasses.RoundWrapsIff.
- Alignment.SkipAliasesIsLeast: is about integers; in 64 bits see WordPasses.SkipAgrees and WordPasses.SkipWrapsIff.
- PlacingPass.PlacingIsSafe: is about addresses as integers; WordPasses.PlacingWordsIsSafe is the statement about 64-bit words, under a bound on the window and the records.
- PlacingPass.PlacingIsComplete: likewise; WordPasses.PlacingWordsIsComplete is the statement about 64-bit words.
- Domain.DomainIsConfigured: `Configurable` asks for one window of each kind in the domain, and, with `DomainOk` and `Linked`, that below its first link every bridge window names a link that its device has; a missing link, about which the code only prints an error before it follows the pointer, is not modelled.
- FdtWriter.Flatten: trees of 4 GiB and more, whose offsets would wrap; FdtWriter.FlatTreeSize says when the size does.
- FdtReader.Unflatten: pointers into the blob are modelled as the bytes there; a name that runs past the blob ends with it.
- I2cMaster.Bus.StopCondition: builds in which a failed assertion halts the machine.
- BusScan.ProbeHitsIff: says nothing about where a cycle goes for a bus from number 65536 on, whose 16-bit field holds another number.
- IpChecksum.IpChksum: overflow of the signed sum is taken to wrap, as it does on the machines in question; the language leaves it open.
- NumberFormat.SkipAtoi: overflow of the signed number is taken to wrap, as above.
- NumberFormat.Number: with 64-bit numbers, as on every architecture but MIPS; the warning characters of the other case are left out.
- CorebootTable.Table: the table is written by a little-endian machine.
- TableReader.ParseHeader: what the handlers copy out of a record for display; the model keeps the bytes of every record that is handled.
- ConsoleRing.Log.Init: consoles of more than 256 MiB, which the build refuses.
- Base64.B64Decode: the buffer holds part of the output when decoding fails; only the size is stated then.
- Allocator: reset-and-rescan loops, the VGA bridge bits, the assignment of the results to device registers, and links of subtractive bridges, which are taken to be flattened into their parent's children.
- Bus scan: bus resets and the rescans they cause, the order of static children, and what is found on a bus; the tree of buses is given.
- Flattened device tree: the queries and edits of a loaded tree, phandles, memory allocation failures, and printing.
- LZMA: reading the size from the container's header and allocating the buffers.
- I2C: other masters on the bus and clock periods; delays are any number of polls.
- Console: the variable that holds the current console before memory is set up, and the UART.
- Not modelled: the NRV2B decompressor, region devices and CBFS iteration, the sizing of PCI base address registers, IRQ swizzling, FSP volume and section parsing and its patch table, printf format parsing, and the other users of device resources.
