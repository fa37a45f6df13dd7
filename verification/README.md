# Verified models of the gprovision core

Dafny models of the parts of gprovision in which a mistake would be hardest to see, with proofs of what
each is for. `dafny verify dfyconfig.toml` checks the whole project with Dafny 4.11.

| file | what it models |
|---|---|
| `raid.dfy`, `erase.dfy` | Byte-addressed reads and writes over a block device that takes aligned transfers only; backup and restore of RAID metadata; canaries, overwrite and verification of an erase |
| `cfa_packet.dfy`, `cfa_serial.dfy` | The packet format of the Crystalfontz displays: checksum, writer, incremental reader |
| `cfa_text.dfy`, `cfa_menu.dfy` | Word wrap, and the menu that redraws only what changed |
| `xps.dfy`, `topology.dfy` | Splitting CPU masks over transmit queues; choosing CPUs for interrupts by weight |
| `uefi_dpp.dfy` | The parser of UEFI device paths (section 10.3 of the UEFI Specification 2.8) |
| `log_stack.dfy` | The chain of log sinks with replay of earlier entries |
| `route.dfy` | The text form of routes: printing and parsing |
| `disk_filter.dfy` | Choosing a set of disks of nearly equal size |
| `history.dfy` | The log server's list of recently seen units |
| `wrappers.dfy`, `numbers.dfy` | Option, Result and small numeric helpers |

## How the models are built

Code that changes state is a class with methods, or a method with a loop; each is proved equal to a
specification function or against a property stated outright, and lemmas about the specification say what it
means. An error return is a `Status`, `Option` or `Result`. A panic is an out-parameter or is excluded by a
`requires`.

**Erase.** `BlockFile` is the block device: contents, position and a function `accepts` that says which
transfers it takes. A read returns what there is up to the end of the device; a write stores what fits and then
reports an error. Its size and its sector size may be unreadable. `Demands` says that exactly the transfers
aligned to `required` bytes are taken, and `Regular` that the size is a multiple of that. Safety (what a
successful call read or changed, and that a failed one changed nothing) is proved for every device, also one that
refuses transfers at will; success is proved for a device that is `Ready`. `DetectAndErase` is the whole run on
one disk: whatever it held, afterwards every byte is zero but for the metadata that its old contents announce.
`EraseArray` is the run on the disks of an array: on any disks nothing but a suffix of what they held survives, on
working ones it is known which, also when the backup of some disk reports an error. `EraseUnit` is the run on all
disks, from detection and the search for arrays on, and says exactly when they are erased.

**Display.** `Step` is one bit of the checksum. The proof of error detection is algebraic: feeding bits is the
same as xor-ing them into the register first, a step on a zero bit is a bijection, it keeps the parity, and the
lowest bit does not come back to itself in fewer than 208 of them. From this follow the three classical
guarantees, for bursts of up to sixteen bits, for odd numbers of flipped bits, and for up to three bits of a packet.
`FrameAt` is the reference for the menu: screen, cursor and legend as a full redraw would give them, as a function
of the keys alone.

**Queues and interrupts.** CPU masks are sets of bit numbers below 64, counters wrap at 16 bits as in the code,
and the order in which a Go map is visited is left open by choosing any element that is left. Weights are in
hundredths, so they are exact integers.

**Routes.** The text of IP addresses is a parameter (`AddrText`), with the assumption `Faithful`: addresses are
printed in hexadecimal digits, dots and colons, with a colon exactly for IPv6, and are read back as they were.
Prefixes, numbers, names and words are modelled in full. The scope is an 8-bit number and the protocol a signed
64-bit one.

**Logs.** `LogStack.Logger` objects are linked through `next`; a ghost field lists the chain. `Sink` values and
`Run` describe the same chain as a list, on which the properties of whole runs are proved.

**Device paths.** `Spells` is the language that the parser accepts, node by node. `StrictlySpells` is that of
section 10.3 of the UEFI Specification 2.8 for one device path; kinds of nodes that the parser does not know are
not judged. `LenientPayload` and `LenientEnd` name what is let through besides.

### Where the code does not do what it says

* `pkg/recovery/disk/disk.go:111` says that there can be no better match for a disk that is given up. There can:
  see `ViableSetMissed`. `FoundIff` says exactly when a set is found: only the window at the first pair of
  neighbours that match is ever tried.
* `RemoveLogger` (`pkg/log/stackable.go:127-146`) takes a sink out only if it is the last of several. The first
  one stays, finalized, and the others are lost; for one in between `ForwardTo` panics. `RemovedIff` is the exact
  condition, and `RemovalLosesSinks` a chain on which both go wrong.
* A sink that `AddLogger` turns away as a duplicate has already been handed the stored entries and stays linked
  to the top of the stack.
* A route is printed in a form that `parseRoute` reads back only if at least three fields are set, as it wants
  seven words; see `RoundTripIff`.
* The comment at `pkg/hw/cpu/topology.go:181` gives 0.1 as the weight of a use of a core sibling; the code, and
  the model, use 0.01.
* In `pkg/erase/erase.go:210` the loop over the patterns makes one pass more than there are patterns, so that
  zeros are written twice.
* An LBA in a DDF anchor may overflow when it is turned into an offset; then the device is still detected as DDF,
  while its backup reports an error (`WrappedRecordStart`).
* The length byte of a packet is not protected like the others: `LengthDamage` gives a damaged length that is
  taken, `LengthDamageIff` says exactly when one is.
* In a menu without items the enter key still chooses item 0: `EmptyMenuChooses` and, exactly, `ChoiceIsItem`.
* The device path parser takes more than the specification allows, such as an End node with a payload
  (`LongEndAccepted`, and exactly `AcceptsStrictAndLenient`), and refuses a device path of several instances, as
  nothing may follow the first End node (`SecondPathRejected`).
* `Array.Backup` stops at the first disk that reports an error, and `Erase` goes on (`pkg/erase/erase.go:136-141`):
  the disks after it are wiped without having been saved. `Kept` says what survives on which disk, and `MetadataLost`
  gives two disks, the second of which loses its metadata.
* On a device whose size cannot be read, only the first place is given a canary and looked at (`Places`).
* `AddLogger` with the last sink of the stack closes the chain to a ring before it notices the duplicate.
* A window whose last row wraps in a byte is not written, and reported as written (`WriteWindow`).

## Model

| member | source | states |
|---|---|---|
| Raid.AlignIsFloor | pkg/erase/raid/device.go:336-350 | although the remainder truncates, the aligned offset is the multiple at or just below the offset asked for, for negative offsets too |
| Raid.SpliceWithin | pkg/erase/raid/device.go:449-477 | rewriting a whole aligned block in which only the data differ changes the device just as writing the data alone would |
| Raid.Device.ReadSize | pkg/erase/raid/device.go:300-314 | the size of the device, read once and kept; 0 and an error if it cannot be read |
| Raid.Device.SeekAligned | pkg/erase/raid/device.go:389-397 | the place sought lies before the position asked for, by less than one alignment; negative offsets count from the end |
| Raid.Device.ReadLength | pkg/erase/raid/device.go:398-404 | the length covers what is needed, by less than one alignment too much, and stays a multiple of it |
| Raid.Device.Attempt | pkg/erase/raid/device.go:388-436 | one pass of the retry loop: on success the buffer holds the device bytes from the aligned start, and the two offsets enclose exactly the bytes asked for, cut off at the end of the device; with the alignment that the device demands it succeeds |
| Raid.Device.RawAlignedRead | pkg/erase/raid/device.go:364-446 | the loop ends; whatever the device demands the result is an error or such a buffer; offsets beyond the device, or other than 0 if its size is unknown, give EBounds; on a device that demands one of the alignments tried it succeeds wherever there is something to read |
| Raid.Device.AlignedRead | pkg/erase/raid/device.go:353-360 | an error without data, or exactly the bytes from the position to position + size, cut off at the end of the device |
| Raid.Device.WriteBlock | pkg/erase/raid/device.go:465-477 | the block is stored whole, or nothing is |
| Raid.Device.AlignedWrite | pkg/erase/raid/device.go:449-477 | on success exactly the given bytes are replaced and all others keep their value; on any error, also when the data do not fit, the device is as before |
| Raid.Device.InRange | pkg/erase/raid/device.go:322-332 | true exactly when the size is known and position + size lies within the device, whatever the current alignment |
| Raid.Device.LbaToByte | pkg/erase/raid/ddf.go:193-208 | the 64-bit product of LBA and sector size; an unreadable sector size is an error each time, one that is no multiple of 512 only the first time |
| Raid.DetectedRecordStart | pkg/erase/raid/ddf.go:41-109 | on every device detected as DDF the records start before the anchor, also without a secondary header |
| Raid.ImsmMeaning | pkg/erase/raid/imsm.go:20-28 | the iMSM signature is that text, 1024 bytes before the end |
| Raid.HeaderMeaning | pkg/erase/raid/ddf.go:54-107 | a DDF header is its four bytes of signature, before the anchor |
| Raid.DdfMeaning | pkg/erase/raid/ddf.go:41-109 | a DDF device has the signature in its last 512 bytes, a header where the LBA at byte 96 says, and another where that at byte 104 says unless it is all ones |
| Raid.ClassifyMeaning | pkg/erase/raid/device.go:209-224 | iMSM, then DDF, then unknown exactly if the size exceeds the threshold |
| Raid.HeadersKept | pkg/erase/raid/ddf.go:111-150 | unless an LBA overflows, what is kept of a DDF device starts at the lower of the headers and holds both |
| Raid.WrappedRecordStart | pkg/erase/raid/ddf.go:193-208 | an anchor whose LBA overflows can point at itself, at a negative offset, and is detected |
| Raid.Device.ReadHeader | pkg/erase/raid/ddf.go:54-107 | accepted exactly if a DDF header stands at the LBA, before the anchor |
| Raid.Device.DetectDdf | pkg/erase/raid/ddf.go:41-109 | found exactly when the anchor and the headers it names bear the DDF signature |
| Raid.Device.SettleType | pkg/erase/raid/device.go:205-229 | iMSM goes before DDF; without a signature a device above the threshold is of unknown type, and any other keeps its type |
| Raid.Device.DetectRaidType | pkg/erase/raid/device.go:195-229 | on a working device the type is that of the signatures, iMSM before DDF, and without one it becomes unknown exactly if the size exceeds the threshold, and else stays as it was; an error leaves the type alone |
| Raid.Device.SaveImsm | pkg/erase/raid/imsm.go:30-36 | what is kept is a suffix of the device, of 1024 bytes on success, and success is certain on a working device that is large enough |
| Raid.Device.SaveFrom | pkg/erase/raid/ddf.go:138-150 | what is kept is exactly the device from the record start to its end |
| Raid.Device.FindRecords | pkg/erase/raid/ddf.go:111-140 | the records start at the lower of the two LBAs of the anchor |
| Raid.Device.SaveDdf | pkg/erase/raid/ddf.go:111-150 | what is kept reaches from the start of the records to the end of the device; on a working device this fails exactly when that start lies outside |
| Raid.Device.Backup | pkg/erase/raid/device.go:232-250 | for each type: what is kept, and when this succeeds |
| Raid.Device.WriteBack | pkg/erase/raid/ddf.go:152-156 | the kept bytes are written to the end of the device, all or none |
| Raid.Device.Restore | pkg/erase/raid/device.go:253-277 | on success the suffix of the device is the kept one and nothing else changed; without kept data an error |
| Raid.SizeMatch | pkg/erase/raid/device.go:280-297 | with a tolerance of 0 or more: true exactly if both sizes can be read and either is at most the other with the tolerance added |
| Raid.SizesMatchIff | pkg/erase/raid/device.go:293-296 | the comparison is that, for all sizes; it is reflexive and symmetric |
| Raid.Array.Add | pkg/erase/raid/array.go:61-68 | the device joins and knows its array; a device of another type is refused without a trace |
| Raid.Gather | pkg/erase/raid/array.go:26-47 | the inner loop: the new array takes every later free device that matches its first one, and no other, in the order of the list |
| Raid.FindArrays | pkg/erase/raid/array.go:26-47 | every device with a type is in exactly one array and an unset one in none; members are of one type, in the order of the list, and each is within the tolerance of the first in size; devices of one type and of equal size are in one array; no array holds a device that an earlier array claims; the first array is opened by the first device with a type |
| Erase.FillPattern | pkg/erase/readWrite.go:35-50 | the buffer holds the byte of the pattern throughout |
| Erase.WriteCanary | pkg/erase/readWrite.go:61-69 | the pattern is written at the offset and nothing else changes, at the first try or the second, or nothing changes at all |
| Erase.Prepare | pkg/erase/readWrite.go:53-86 | the device is changed by canaries at successive multiples of 1 GiB and by nothing else; on success there are 1 + (size - length) / 1 GiB of them, or one if the size is unknown; on a working device success is certain exactly when one canary fits |
| Erase.CanariedCount | pkg/erase/readWrite.go:53-86 | counting after preparation gives the number written |
| Erase.SlotsMeaning | pkg/erase/readWrite.go:53-86 | the places are the multiples of 2^30 at which the pattern ends on the device |
| Erase.CountMeaning | pkg/erase/readWrite.go:90-121 | the count is the number of places that hold the pattern |
| Erase.CountPrepPattern | pkg/erase/readWrite.go:90-121 | exactly how many multiples of 1 GiB in range hold the pattern, for arbitrary contents; of the first alone if the size is unknown |
| Erase.LastPlace | pkg/erase/readWrite.go:90-121 | the loop stops at the last place in range, neither before nor after |
| Erase.NoCanaryInZeros | pkg/erase/readWrite.go:125-134 | after a complete overwrite the count is 0, wherever it is taken |
| Erase.Verify | pkg/erase/readWrite.go:125-134 | passes exactly when no canary is left |
| Erase.WritePass | pkg/erase/erase.go:198-228 | writing until the device errors fills all of it, also when the last write is cut off |
| Erase.Overwrite | pkg/erase/erase.go:198-228 | the passes leave 0x55, then 0xaa, then zeros, then zeros again in every byte; a device that refuses the chunk size is left as it was |
| Erase.EraseDisk | pkg/erase/erase.go:186-194 | success of the overwrite path means a zeroed device; success after hdparm means that no canary was seen on the disk it left; on a working device success is certain but for canaries that hdparm left |
| Erase.EraseAndRestore | pkg/erase/erase.go:153-168 | what was kept is put back on the zeroed disk or over what hdparm left, all other bytes stay as erased; on a working device the restore succeeds whenever there is something to restore |
| Erase.SuffixOverZeros | pkg/erase/raid/device.go:253-277 | restoring a suffix on a zeroed device leaves just that suffix |
| Erase.Run | pkg/erase/erase.go:136-168 | backup, erase and restore of one disk on its own: nothing but the kept metadata survives, whatever errors occur, and on a working device of each type the run succeeds |
| Erase.SurvivorsByType | pkg/erase/raid/device.go:195-250 | the type found by detection decides how many bytes survive: 1024 for iMSM, from the first record on for DDF, none otherwise |
| Erase.DetectionOf | pkg/erase/raid/device.go:195-250 | of a disk with neither signature nothing survives, and it has a type exactly if it exceeds the threshold; of one with an iMSM signature 1024 bytes do |
| Erase.DetectAndErase | pkg/erase/erase.go:92-168 | detection, backup, canaries, overwrite, count and restore on a working disk: the suffix that its old contents announce as metadata is intact and every other byte is zero; a disk with neither signature is zeroed if it exceeds the size threshold, and not touched otherwise; one with a signature is always erased |
| Erase.BackupAll | pkg/erase/raid/array.go:70-78 | a suffix of what each disk held is kept, or nothing; of working disks exactly what their contents announce, up to the first whose backup reports an error, and nothing of those after it; an error exactly if there is such a disk |
| Erase.EraseAll | pkg/erase/erase.go:153-159 | on success every disk holds what hdparm left, or zeros if it takes the chunk size, and what is kept of it is not touched; working disks are all erased exactly if no canary survives hdparm on one of them |
| Erase.RestoreAll | pkg/erase/raid/array.go:81-90 | every disk gets its kept suffix back, also after errors, and no other byte changes; on working disks an error exactly if some disk has none |
| Erase.EraseArray | pkg/erase/erase.go:136-168 | over all disks of an array: whatever errors occur, nothing but a suffix of what it held survives on a disk that hdparm left or that takes the chunk size; on working disks exactly the suffix that `Kept` gives, and it is known when the erase succeeds and which of backup and restore report an error |
| Erase.MetadataLost | pkg/erase/erase.go:136-141 | two disks detected as DDF of which the second announces 1024 bytes of metadata, and none of them is kept |
| Erase.MembersPristine | pkg/erase/erase.go:117-136 | the members of the one array are different disks of its type, as detection found them |
| Erase.TypedMeaning | pkg/erase/erase.go:107-131 | the disks with a type are those with a signature and those larger than the threshold |
| Erase.OneKindMeaning | pkg/erase/raid/array.go:26-47 | of one kind are disks with the same signature, or none, whose sizes are within the tolerance of the first |
| Erase.Arrange | pkg/erase/erase.go:107-123 | every disk gets the type that its contents give it, none changes, and they are shared out to arrays |
| Erase.OneArray | pkg/erase/erase.go:123-131 | a single array holds exactly the disks that have a type, in their order, and these are of one kind |
| Erase.NoSecondArray | pkg/erase/raid/array.go:26-47 | disks of one type that match the first in size end up in one array |
| Erase.EraseUnit | pkg/erase/erase.go:92-170 | detection, arrays, backup, erase and restore of all disks of a unit: the erase is started exactly if the disks with a type are all of one type, each of a size that matches the first, and as many as there should be; it succeeds exactly if besides no canary survives hdparm on one of them; then each of these keeps exactly the suffix that is due to it; no other disk is ever touched |
| CfaPacket.CrcByte | pkg/hw/cfa/packet.go:74-92 | the inner loop consumes the eight bits of a byte, lowest first |
| CfaPacket.CfCrc | pkg/hw/cfa/packet.go:74-92 | the checksum of a byte string |
| CfaPacket.StepsXor | pkg/hw/cfa/packet.go:74-92 | feeding bits to the register is the same as xor-ing them in first and shifting |
| CfaPacket.ShiftsInjective | pkg/hw/cfa/packet.go:74-92 | any number of shifts is a bijection on the register |
| CfaPacket.UpdateTwo | pkg/hw/cfa/packet.go:74-92 | two bytes are sixteen shifts of the register xor-ed with them |
| CfaPacket.UpdateInjective | pkg/hw/cfa/packet.go:74-92 | different registers stay different under the same byte |
| CfaPacket.UpdateTwoInjective | pkg/hw/cfa/packet.go:74-92 | different pairs of bytes lead one register to different ones |
| CfaPacket.DamageShows | pkg/hw/cfa/packet.go:74-92 | strings that differ in one byte or in two neighbouring ones have different registers, whatever follows |
| CfaPacket.RegisterFeeds | pkg/hw/cfa/packet.go:74-92 | the register of a byte string is that of its bits, lowest first in each byte |
| CfaPacket.FeedAllInjective | pkg/hw/cfa/packet.go:74-92 | different registers stay different under the same bits |
| CfaPacket.WindowInjective | pkg/hw/cfa/packet.go:74-92 | different strings of sixteen bits lead one register to different ones |
| CfaPacket.BurstShows | pkg/hw/cfa/packet.go:74-92 | strings that differ in a burst of up to sixteen bits, at any bit, have different registers |
| CfaPacket.ShiftParity | pkg/hw/cfa/packet.go:74-92 | a step on a zero bit keeps the parity of the register |
| CfaPacket.FeedAllParity | pkg/hw/cfa/packet.go:74-92 | the parity of the register after any bits is its parity before, flipped for each one among them |
| CfaPacket.OddFlipsShow | pkg/hw/cfa/packet.go:74-92 | strings that differ in an odd number of bits, anywhere, have different registers |
| CfaPacket.EightShifts | pkg/hw/cfa/packet.go:74-92 | eight steps on zero bits at once, in closed form |
| CfaPacket.BitDoesNotReturn | pkg/hw/cfa/packet.go:74-92 | the lowest bit of the register does not come back to itself in fewer than 208 steps on zero bits |
| CfaPacket.TwoFlipsShow | pkg/hw/cfa/packet.go:74-92 | strings that differ in two bits, fewer than 208 apart, have different registers |
| CfaPacket.FewFlipsShow | pkg/hw/cfa/packet.go:74-92 | strings of up to 26 bytes that differ in one to three bits have different registers |
| CfaPacket.AllOnes | pkg/hw/cfa/packet.go:74-92 | sixteen shifts of all ones give the constant 0xf0b8 of section C.2 of RFC 1662 |
| CfaPacket.KnownChecksums | pkg/hw/cfa/packet_test.go:20-28 | the checksums of two of the strings that the tests list |
| CfaPacket.ValidIffResidue | pkg/hw/cfa/packet.go:147-153 | a checksum is right exactly when running the register over data and checksum leaves 0xf0b8 |
| CfaSerial.Packet.SetCommand | pkg/hw/cfa/packet.go:34-40 | a command is set exactly if it is below 0x40 |
| CfaSerial.Packet.SetData | pkg/hw/cfa/packet.go:42-50 | at most 22 bytes are taken and become the data; more change nothing |
| CfaSerial.Packet.CrcBuf | pkg/hw/cfa/packet.go:103-122 | the bytes covered are command, length and data, and the checksum is theirs; a length out of range is an error |
| CfaSerial.Packet.Buf | pkg/hw/cfa/packet.go:133-144 | the wire form of the packet's message |
| CfaSerial.Packet.Validate | pkg/hw/cfa/packet.go:147-153 | valid exactly when the length is in range and the stored checksum is right |
| CfaSerial.ReadPayload | pkg/hw/cfa/serial.go:290-347 | data and checksum are taken from the input, nothing more; a packet results exactly when the checksum is right |
| CfaSerial.HandledIff | pkg/hw/cfa/serial.go:277-290 | responses, 0x40 to 0x7f, and the report of a key, 0x80, are taken, and nothing else |
| CfaSerial.GetPacket | pkg/hw/cfa/serial.go:260-347 | the outcome is that of `Parse` on the input: a message, consuming exactly its length + 4 bytes, or the error, and what is then left of the input |
| CfaSerial.ParseEncoded | pkg/hw/cfa/serial.go:260-347 | an encoded packet with a command from 0x40 to 0x80 and at most 22 bytes of data is parsed back whatever follows it |
| CfaSerial.OnlyEncodingsParse | pkg/hw/cfa/serial.go:260-347 | nothing is parsed but an encoding of such a message: the first byte is a command from 0x40 to 0x80, the second the number of data bytes, at most 22 |
| CfaSerial.StreamRoundTrip | pkg/hw/cfa/serial.go:260-347 | a stream of packets of any number comes back as the same messages in order |
| CfaSerial.ParseIffResidue | pkg/hw/cfa/serial.go:328-339 | with a good head, the packet is taken exactly when its bytes leave the residue |
| CfaSerial.DamageIsRejected | pkg/hw/cfa/serial.go:328-339 | damage to one byte, or to two neighbouring ones, other than the length is never taken for a packet, whatever follows on the line |
| CfaSerial.ShownIsRejected | pkg/hw/cfa/serial.go:328-339 | damage that leaves the length alone and changes the register is never taken for a packet, whatever follows |
| CfaSerial.BurstIsRejected | pkg/hw/cfa/serial.go:328-339 | the same for a burst of up to sixteen bits at any bit |
| CfaSerial.OddFlipsAreRejected | pkg/hw/cfa/serial.go:328-339 | the same for any odd number of flipped bits |
| CfaSerial.FewFlipsAreRejected | pkg/hw/cfa/serial.go:328-339 | the same for any one to three flipped bits |
| CfaSerial.LengthDamageIff | pkg/hw/cfa/serial.go:290-339 | any packet with any other length byte is taken exactly if that is in range, so many bytes are there, and they leave the residue |
| CfaSerial.LengthDamage | pkg/hw/cfa/serial.go:290-339 | for every command there is a packet whose length byte can be damaged so that it is taken |
| NicXps.FillQueue | pkg/hw/nic/xps.go:56-68 | a queue gets the next CPUs of the mask in order, as many as asked for unless the bits run out |
| NicXps.SplitCount | pkg/hw/nic/xps.go:43-52 | the share per queue and the rest cover all CPUs, also when queues outnumber CPUs and the rest wraps |
| NicXps.FirstShare | pkg/hw/nic/xps.go:54-69 | after the first phase there is no overlap and no gap below the bit reached, and the k-th queue holds the CPUs of the mask from the k-th share on, in order |
| NicXps.RanksBetween | pkg/hw/nic/xps.go:54-69 | the CPUs between two bits are those of the ranks between |
| NicXps.OnePass | pkg/hw/nic/xps.go:73-83 | one pass gives each queue at most one more CPU, without overlap or gap, in any order of the queues |
| NicXps.ShareRest | pkg/hw/nic/xps.go:70-84 | the second phase ends and gives out what remains |
| NicXps.Coverage | pkg/hw/nic/xps.go:42-86 | when both phases end, as many CPUs are given as asked for, or all there are |
| NicXps.Finish | pkg/hw/nic/xps.go:42-86 | the sizes: at least the floor share each, and for a contiguous mask no two differ by more than one |
| NicXps.XpsConfig | pkg/hw/nic/xps.go:42-86 | the queue masks are pairwise disjoint and their union is the mask when the count covers it; at least as many CPUs are given as counted; each queue gets its floor share, the k-th that of the CPUs that starts at k shares in their order; for a contiguous mask sizes differ by one at most; in any order of the map |
| CpuTopology.Topology.Weight | pkg/hw/cpu/topology.go:182-196 | own uses, half of those of other thread siblings and a hundredth of those of other core siblings |
| CpuTopology.Topology.WeightOrder | pkg/hw/cpu/topology.go:182-196 | on one socket without second threads the weights are ordered like the use counts |
| CpuTopology.Topology.WeightOfUses | pkg/hw/cpu/topology.go:180-196 | no uses weigh nothing, and one more use adds 1 to the weight of its CPU, 0.5 to that of its thread siblings and 0.01 to that of its core siblings |
| CpuTopology.Topology.LightestPreferred | pkg/hw/cpu/topology.go:182-219 | of two CPUs of a socket the lighter one is used less, counting 99 for an own use and 50 for one of a thread sibling |
| CpuTopology.Topology.CoresFirst | pkg/hw/cpu/topology.go:221-234 | CPUs that are preferred in this way, on an unused socket, are no threads of one core while there are free cores |
| CpuTopology.Topology.FillCounts | pkg/hw/cpu/topology.go:199-205 | filling in the counts changes none of them |
| CpuTopology.Topology.LowestWeight | pkg/hw/cpu/topology.go:199-219 | a CPU that is not excluded and than which no other such is lighter, in any order of the map; CPU 0 if all are excluded |
| CpuTopology.Topology.CreateSetWeighted | pkg/hw/cpu/topology.go:223-234 | as many different CPUs as asked for, at most all, each the lightest one left when it was taken, and so, of CPUs of one socket used alike, one whose thread siblings are used least; exactly their counts are raised by one; on an unused socket with cores of up to n threads no core is given twice before all are in use; on one socket without second threads counts that differ by at most one keep doing so |
| CpuTopology.StaysEven | pkg/hw/cpu/topology.go:223-234 | taking the least used first and each once keeps all counts within one of each other |
| CfaText.CutMeaning | pkg/hw/cfa/util.go:32-58 | a line ends at the last space in positions 1 to width, and a word is split exactly if there is none, or the width is 255 and the byte-sized bound wraps |
| CfaText.Fit | pkg/hw/cfa/util.go:32-46 | the loop ends, for every width, and computes the lines of `FitLines` |
| CfaText.FitKeepsText | pkg/hw/cfa/util.go:32-46 | at most row + 1 lines, none empty and none longer than the width; their non-space bytes are a prefix of those of the message, and all of them unless the row limit stopped it |
| CfaText.FitTrims | pkg/hw/cfa/util.go:32-46 | no line but the first starts with a space |
| CfaText.FitWithoutWidth | pkg/hw/cfa/util.go:32-46 | without any width there are only empty lines, and no endless loop |
| CfaText.PadcateWidth | pkg/hw/cfa/util.go:191-193 | the result is exactly as wide as asked for |
| CfaText.PadcateShows | pkg/hw/cfa/util.go:183-193 | the text from the left, then spaces; what is too long is cut off |
| CfaText.OneLineShows | pkg/hw/cfa/util.go:183-193 | a text that wraps to one line shows as if it had not been wrapped |
| CfaMenu.Lcd.Write | pkg/hw/cfa/lcd.go:175-195 | text of at most 20 bytes that fits replaces exactly its columns of its row; other text is refused and changes nothing |
| CfaMenu.Lcd.WriteWindow | pkg/hw/cfa/util.go:94-112 | every row of the window shows its line or blanks and nothing outside changes; it fails exactly when a line cannot be written, having written the rows that there are, and a window whose last row wraps writes nothing |
| CfaMenu.NoScroller.Draw | pkg/hw/cfa/blurb.go:62-76 | the item is drawn on its row if forced or moved, and nothing else changes |
| CfaMenu.Menu.DrawLines | pkg/hw/cfa/menu.go:161-187 | afterwards every row shows its item, though nothing may have been drawn |
| CfaMenu.Menu.Draw | pkg/hw/cfa/menu.go:148-203 | afterwards screen and cursor are those of a full redraw |
| CfaMenu.Menu.Update | pkg/hw/cfa/menu.go:220-283 | first and selected item move as `Next` says, and whatever is no longer up to date is marked; the legend keeps offering just the directions in which the selection can move |
| CfaMenu.KeysMove | pkg/hw/cfa/menu.go:220-283 | the up and the upper left key move the selection up by one, the down and the lower left key down by one, as far as there are items; the screen scrolls only if the selection would leave it, and as little as possible; no other key moves anything |
| CfaMenu.KeysChoose | pkg/hw/cfa/menu.go:263-273 | the first of the enter, upper right, exit and lower right keys decides: the first two choose the selected item, the others cancel |
| CfaMenu.CursorMarksSelected | pkg/hw/cfa/menu.go:161-195 | in every frame the row under the cursor shows the selected item, and the rows around it the items around it |
| CfaMenu.LegendMeaning | pkg/hw/cfa/menu.go:238-262 | the legend leaves out a direction exactly if the selection cannot move there, but for down on the first item |
| CfaMenu.AlwaysOnScreen | pkg/hw/cfa/menu.go:220-283 | over all key sequences 0 <= first <= selected <= min(max, first + height), and no row is empty while there are items for it |
| CfaMenu.Menu.Run | pkg/hw/cfa/menu.go:126-145 | over all key sequences each frame shown, of rows, cursor and legend, is that of a full redraw, and the result is the selection at the first key that decides |
| CfaMenu.ChoiceIsItem | pkg/hw/cfa/menu.go:126-145 | a choice is an existing item exactly unless the menu is empty and the key that decides is an enter key; then it is 0 |
| CfaMenu.EmptyMenuChooses | pkg/hw/cfa/menu.go:264-268 | an enter key in the empty menu chooses item 0 |
| CfaMenu.RowShowsItem | pkg/hw/cfa/menu.go:80-104 | the row of an item shows its text, padded or truncated to the width |
| UefiDpp.ReadToNullMeaning | pkg/hw/uefi/efiDppACPI.go:113-119 | the bytes before the first zero; an error exactly if there is none |
| UefiDpp.AcpiExParses | pkg/hw/uefi/efiDppACPI.go:72-99 | accepted exactly with three zero-terminated strings after the fixed part |
| UefiDpp.NodeParses | pkg/hw/uefi/efiDevicePathProtocol.go:49-142 | a node is accepted exactly when its payload suits its type and subtype, and keeps its header |
| UefiDpp.KindFixed | pkg/hw/uefi/efiDevicePathProtocol.go:49-142 | type and subtype alone decide which of the nine kinds a node is of, and any other pair gives a raw node |
| UefiDpp.FieldsAreRead | pkg/hw/uefi/efiDevicePathProtocol.go:49-142 | each field of a node is read from its place in the payload |
| UefiDpp.HddRoundTrip | pkg/hw/uefi/efiDppMedia.go:76-91 | the fields of a hard drive node written out give its first 38 bytes |
| UefiDpp.AcpiExRoundTrip | pkg/hw/uefi/efiDppACPI.go:72-99 | the fields of an extended ACPI node written out are a prefix of its payload |
| UefiDpp.PayloadRoundTrip | pkg/hw/uefi/efiDevicePathProtocol.go:49-142 | the fields of each kind of node written out give its payload back, up to bytes that nothing describes and ATAPI flags above 1; for a path exactly if it ends in a zero and holds no slash and no half of a surrogate pair |
| UefiDpp.PathRoundTripIff | pkg/hw/uefi/efiDppMedia.go:159-175 | when a decoded path gives its payload back |
| UefiDpp.ParseFilePathList | pkg/hw/uefi/efiDevicePathProtocol.go:26-154 | the loop computes `ParseList`: same nodes, same errors, no index out of range; on success there is one node for each piece of the input, in order, with its header, of the kind that its type and subtype name, and with its fields |
| UefiDpp.SpelledParses | pkg/hw/uefi/efiDevicePathProtocol.go:26-154 | every concatenation of well-formed nodes and one End node is accepted, and gives one node per piece in order |
| UefiDpp.ParsedIsSpelled | pkg/hw/uefi/efiDevicePathProtocol.go:26-154 | every accepted input is such a concatenation with nothing after it |
| UefiDpp.AcceptsExactlyLists | pkg/hw/uefi/efiDevicePathProtocol.go:26-154 | the inputs accepted are exactly the lists of nodes, each with a payload that the parser takes for its kind, closed by one End node of any subtype and length |
| UefiDpp.PayloadOkIff | pkg/hw/uefi/efiDevicePathProtocol.go:49-142 | a payload is taken exactly if it is laid out as section 10.3 of the UEFI Specification 2.8 says or is one of the lenient ones, and never both |
| UefiDpp.WrittenNullTerminated | pkg/hw/uefi/efiDppMedia.go:159-175 | a path without a zero character, written out as the specification lays it out, is a strict payload |
| UefiDpp.EndIff | pkg/hw/uefi/efiDevicePathProtocol.go:126-133 | an End node is the one of subtype 0xff and length 4, or has another subtype or length |
| UefiDpp.SpelledOnce | pkg/hw/uefi/efiDevicePathProtocol.go:26-154 | there is only one way to take an input apart into nodes and an End node |
| UefiDpp.AcceptsStrictAndLenient | pkg/hw/uefi/efiDevicePathProtocol.go:26-154 | every device path of one instance as section 10.3 wants it is accepted, and besides exactly the lists in which some node or the End node is a lenient one |
| UefiDpp.LongEndAccepted | pkg/hw/uefi/efiDevicePathProtocol.go:126-133 | an End node of subtype 1 with two bytes of payload is accepted |
| UefiDpp.SecondPathRejected | pkg/hw/uefi/efiDevicePathProtocol.go:149-152 | whatever follows the first End node makes the input unacceptable |
| UefiDpp.LengthsAddUp | pkg/hw/uefi/efiDevicePathProtocol.go:26-154 | the lengths of the nodes and of the End node add up to that of the input |
| LogStack.Logger.AddEntry | pkg/log/mem.go:26-31 | an entry reaches this sink and every later one, each once |
| LogStack.Logger.ForwardTo | pkg/log/mem.go:33-39 | panics exactly when both links are set |
| LogStack.Logger.Finalize | pkg/log/mem.go:46-51 | every sink from here on is finalized, and the memory log forgets its entries |
| LogStack.Stack.FlaggedLogf | pkg/log/stackable.go:158-170 | every sink of the stack gets the entry, once |
| LogStack.Stack.FindInStack | pkg/log/stackable.go:219-228 | the sink with that identity, or none |
| LogStack.Stack.ForwardFrom | pkg/log/stackable.go:116-125 | an error exactly if a sink of the stack has the identity of the new one; the search ends, also in the ring that the last sink closes |
| LogStack.Stack.AddPreviousEvents | pkg/log/stackable.go:195-211 | the new sink, and all it is linked to, are handed all entries of the memory log in order, unless it is one itself |
| LogStack.Stack.Link | pkg/log/stackable.go:106-111 | a sink linked already gives a panic and changes nothing; a free one becomes the top unless one like it is there; the last sink of the chain closes it to a ring and is reported as a duplicate |
| LogStack.Stack.AddLogger | pkg/log/stackable.go:100-112 | for every sink: a new one becomes the top, with the replayed entries, unless one like it is there, and the chain stays linked, acyclic and with distinct identities; one turned away has the entries and its link all the same; one linked already gives a panic after the replay; the last of the chain closes it to a ring |
| LogStack.Stack.NewLogStack | pkg/log/stackable.go:76-84 | all sinks are finalized, and the new one stands with what it is linked to, whatever that is |
| LogStack.Stack.RemoveLogger | pkg/log/stackable.go:128-146 | the chain afterwards and whether it panics, for every chain and identity |
| LogStack.Stack.FlushMemLog | pkg/log/mem.go:71-73 | with another sink above it the memory log goes, it alone, and without panic |
| LogStack.RemovedIff | pkg/log/stackable.go:128-146 | a removal takes out that sink and keeps the others exactly if there is none such or it is the last of several |
| LogStack.RemovalLosesSinks | pkg/log/stackable.go:128-146 | a chain of three sinks: removing the second panics and loses the third, removing the first keeps it and loses the other two |
| LogStack.FlushRemovesMemOnly | pkg/log/mem.go:71-73 | flushing a memory log at the end of several sinks takes out nothing else |
| LogStack.RunKeeps | pkg/log/stackable.go:100-146 | over any run of logging, adding plain sinks and flushing, identities stay distinct, the memory log stays last, and no flush panics |
| LogStack.MemHoldsAll | pkg/log/mem.go:26-31 | until it is flushed the memory log holds all that was logged, in order |
| LogStack.RunHolds | pkg/log/stackable.go:158-170 | over any such run a plain sink loses nothing and gets each later entry once |
| LogStack.ReplayComplete | pkg/log/stackable.go:100-112 | a sink added in the middle of any run ends with exactly the later entries, and with replay with those that the memory log still held in front of them, even when it is flushed afterwards |
| LogStack.RunStores | pkg/log/mem.go:26-51 | what the memory log holds after any run of logging, adding plain sinks and flushing |
| LogStack.RetainedAll | pkg/log/mem.go:26-51 | that is all entries if nothing was flushed |
| LogStack.RetainedSince | pkg/log/mem.go:71-73 | after a flush it is the entries since the last one if no sink had been added before it, and nothing otherwise |
| RouteText.ParseFormatted | pkg/net/route_linux.go:194-200 | a decimal number is read back, below the limit, and refused from the limit on |
| RouteText.SplitJoined | pkg/net/route_linux.go:145 | words without the separator are found again |
| RouteText.KeysKnown | pkg/net/route_linux.go:182-207 | seven words are keys, of which "uid" is read and ignored; a metric that is no 64-bit number is 0, and an address that cannot be read is none |
| RouteText.ScopeRoundTrip | pkg/net/route_linux.go:209-250 | every scope, named or numbered, is read back |
| RouteText.ProtoRoundTrip | pkg/net/route_linux.go:388-416 | so is every protocol, though two names stand for one |
| RouteText.NamedScopes | pkg/net/route_linux.go:209-250 | the number of each scope name, and the name of each number that has one |
| RouteText.NamedProtos | pkg/net/route_linux.go:388-416 | the same for protocols; "boot" and "dhcp" are one number, printed as "dhcp" |
| RouteText.NumberedScope | pkg/net/route_linux.go:222-229 | a numbered scope is cut to eight bits, and 0 if it is no 64-bit number |
| RouteText.DestRoundTrip | pkg/net/ip.go:47-63 | the default, a lone address of either family and a prefix are told apart and read back |
| RouteText.ParseRoute | pkg/net/route_linux.go:128-180 | the loop reads pairs and passes over single words as `Parse` says |
| RouteText.ToString | pkg/net/route_linux.go:305-338 | the text is the destination and the shown fields as words with single spaces between them |
| RouteText.TextShows | pkg/net/route_linux.go:305-338 | which words are printed, in which order, and when |
| RouteText.WordsRoundTrip | pkg/net/route_linux.go:182-207 | reading the words of a route sets every field as it was, but for a protocol below 0 |
| RouteText.ParsePrinted | pkg/net/route_linux.go:128-180 | what parsing makes of any printed route whose interface is one word or none: all of it but a protocol below 0, or nothing with fewer than three fields |
| RouteText.ParsePrintedAny | pkg/net/route_linux.go:128-180 | what parsing makes of a printed route with any interface name: the name ends at its first space, and the rest of it is read as further keys and values |
| RouteText.RoundTripIff | pkg/net/route_linux.go:128-338 | a route printed and parsed is the same again exactly if three fields are set, the protocol is not negative and the interface name has no space |
| RouteText.OnlyDefaultPrinted | pkg/net/route_linux.go:132-134 | asking for default routes leaves out exactly the printed routes that are not default routes with a gateway, for all routes |
| DiskFilter.ClosestInMeaning | pkg/recovery/disk/disk.go:151-167 | no disk is closer, and no earlier one as close |
| DiskFilter.Closest | pkg/recovery/disk/disk.go:151-167 | the loop finds that disk |
| DiskFilter.OrderPermutes | pkg/recovery/disk/disk.go:96-148 | the order of selection holds every disk as often as the input |
| DiskFilter.OrderSorted | pkg/recovery/disk/disk.go:96-148 | the closest disks come first |
| DiskFilter.OrderStable | pkg/recovery/disk/disk.go:96-148 | disks equally far away keep their order |
| DiskFilter.Select | pkg/recovery/disk/disk.go:104-119 | moving disks over one by one yields a window of that order, or nothing when disks run out |
| DiskFilter.ExtremesMeaning | pkg/recovery/disk/disk.go:130-146 | the largest and the smallest size are bounds and are reached |
| DiskFilter.ToleranceMeaning | pkg/hw/block/block.go:118-128 | the tolerance is a percentage of the wanted size, for all sizes |
| DiskFilter.GoodEnoughMeaning | pkg/recovery/disk/disk.go:121-146 | a set is good enough exactly if its last disk is within the tolerance of the target and any two are within the tolerance of the larger |
| DiskFilter.Filter | pkg/recovery/disk/disk.go:96-148 | the set that `Chosen` describes |
| DiskFilter.ChosenIsWindow | pkg/recovery/disk/disk.go:96-148 | none, or exactly as many neighbours in the order of distance as asked for |
| DiskFilter.ChosenFromInput | pkg/recovery/disk/disk.go:96-148 | all from the input, none taken twice |
| DiskFilter.ChosenNearTarget | pkg/recovery/disk/disk.go:121-129 | every one is within the tolerance of the target, though only the last is checked |
| DiskFilter.ChosenAlike | pkg/recovery/disk/disk.go:130-146 | any two differ by the set tolerance of the largest at most |
| DiskFilter.ScanFindsFirstPair | pkg/recovery/disk/disk.go:104-119 | only the window at the first pair of neighbours that match is ever tried |
| DiskFilter.FoundIff | pkg/recovery/disk/disk.go:96-148 | two disks or more are found exactly if that window is long enough, near enough and alike enough |
| DiskFilter.OneFoundIff | pkg/recovery/disk/disk.go:96-148 | one disk is found exactly if some disk is near enough |
| DiskFilter.ViableSetMissed | pkg/recovery/disk/disk.go:109-117 | four disks of which two would do, and none is found |
| ActivityLog.RecentMeaning | pkg/oss/pblog/server/history.go:50-70 | moving to the front lists every serial once, the one used last first |
| ActivityLog.TouchTaken | pkg/oss/pblog/server/history.go:50-70 | cutting the list short before a move makes no difference to its front |
| ActivityLog.HistoryIsRecent | pkg/oss/pblog/server/history.go:50-70 | after any reports the list holds the 100 serials used last, in the order of last use, even when serials that dropped out come back |
| ActivityLog.HistoryDistinct | pkg/oss/pblog/server/history.go:50-70 | no serial is listed twice, and never more than 100 are |
| ActivityLog.RecordsTell | pkg/oss/pblog/server/history.go:36-43 | a record tells the last time, stage and code name reported since the unit was last not in the list |
| ActivityLog.HistEntry.SetStage | pkg/oss/pblog/server/history.go:36-39 | stage and time change, serial and platform do not |
| ActivityLog.HistEntry.SetPlat | pkg/oss/pblog/server/history.go:40-43 | platform and time change, serial and stage do not |
| ActivityLog.ActivityHistory.GetEnt | pkg/oss/pblog/server/history.go:50-70 | the entry is the very object listed before, or a new blank one if there was none; it is in front, the others keep their order, and the list is cut to 100 |
| ActivityLog.ActivityHistory.UnitState | pkg/oss/pblog/server/history.go:121-136 | a unit is found exactly if it is among the 100 used last, and then its last stage since it was last not in the list is told |
| ActivityLog.ActivityHistory.ReportCodename | pkg/oss/pblog/server/grpc.go:65-80 | the list stays what the reports make it, with this one added if it was stored |
| ActivityLog.ActivityHistory.ReportState | pkg/oss/pblog/server/grpc.go:82-97 | the list stays what the reports make it, with this one added if it was stored |

## Left out

- Erase.EraseUnit: working disks only; `EraseArray` covers the others. Which block devices are looked at is given.
- Erase.BackupAll: on disks that do not work, how much is kept and whether there is an error is not stated.
- Erase.EraseAll: the disks are erased one after the other; in the code each has its own goroutine, but they share no state. On disks that do not work, whether the erase succeeds is not stated.
- Erase.RestoreAll: on disks that do not work, whether what was kept is put back is not stated.
- Erase.EraseArray: on disks that do not work, how much of the suffix survives is not stated.
- Erase.Run: one disk on its own, with all its errors; `EraseUnit` puts disks together.
- Erase.DetectAndErase: one disk on its own; `EraseUnit` adds the search for arrays and its checks.
- Erase: hdparm. What it leaves on the disk and whether it reports success are parameters of `EraseDisk`.
- Erase: `unrecoverableFailure` never returns; here it ends the run with a false result. Log and display output.
- Raid.BlockFile: whether a position is aligned is checked at the transfer, not at the seek; a device that cannot be opened and errors that come and go are not modelled.
- Raid: 64-bit overflow is modelled for LBA offsets only; sizes and positions are unbounded. A negative size with an offset on the device makes Go panic on allocation and is excluded, as is `InRange` before any transfer, which divides by zero.
- Raid: reading device names; the size tolerance is a real number.
- Cfa: horizontal and vertical scrollers, tickers, polling of keys, the thread that reads the serial line, retries and the pairing of commands with responses. What `Flush` discards is arbitrary.
- CfaMenu.Lcd.Write: displays of more than 236 columns, on which byte arithmetic would wrap for text that can be sent.
- CfaMenu.Menu.DrawLines: items that scroll, and errors while sending.
- CfaMenu.Menu.Draw: items that scroll, and errors while sending; after one, `update` clears the flag that would bring on another redraw (pkg/hw/cfa/menu.go:221).
- CfaMenu.Menu.Run: items that scroll, and errors while sending.
- CfaMenu.Menu.constructor: items that fit on one line only; an item that does not becomes a scroller. The width is at most 20, the longest text of one command.
- CfaText.Fit: texts are byte strings.
- NicXps.XpsConfig: with no queue, or a multiple of 65536 of them, the code divides by zero; this is excluded. Writing the masks to sysfs.
- CpuTopology: reading and parsing the CPU lists. That they hold every CPU once is assumed by the constructor, as the code relies on it without checking. Weights are exact here; in the code they are floating point.
- CpuTopology.Topology.CreateSetWeighted: evenness is stated for one socket without second threads; with siblings the choice by weight, the preference that follows from it, and that free cores come first, as uses need not stay even.
- UefiDpp.AcceptsStrictAndLenient: device paths of several instances, and nodes of kinds that the parser does not know, which count as strict. The text form of nodes and their resolution to devices.
- LogStack.Stack.AddLogger: entries to be replayed to a sink whose own chain is a ring; the replay would not come to an end.
- LogStack.Stack.NewLogStack: what is logged afterwards, if the new sink's own chain has two sinks of one identity or is a ring.
- LogStack: filtering by flags, formatting, attributes and the locks; what a closed file or connection does with later entries; the test log, which ignores links; the network sink, which logs while it logs.
- RouteText.ParsePrinted: interface names with a space, for which see `ParsePrintedAny`.
- RouteText.RoundTripIff: masks that are not prefixes, or are missing; both print as a lone address. IPv4 addresses in IPv6 form are the same address.
- RouteText: splitting the output of `ip` into lines and trimming them; changing routes.
- DiskFilter.Filter: a count below 1, for which the code panics; overflow of 64 bits in tolerances.
- ActivityLog: HTML, what storing a report does, locks. Times are integers, with 0 for the zero time.
- Image names and their sorting, housekeeping, configuration steps, gRPC and HTTP: little logic or none that is not read off the code.
