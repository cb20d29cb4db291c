# Proofs about a heating controller's firmware and its tools

The repository is the firmware of an M5Stack heating controller, together with the Arduino core, the M5Stack
library and the tools that it builds with. This project models the parts whose behaviour is hard to see from the
code alone, and proves what they promise for every input or every run. `dafny verify dfyconfig.toml` checks it all.

Each component has its modules. A specification on values says what an operation does; classes and methods in the
source's own form (fields, arrays, loops) are proved against it; lemmas then prove what the source promises about
the specification.

- **Firmware images** (`FirmwareImage`, `ImageLayout`, `ImageTermination`, `ImageFile`, `ImageLoad`, `ImageTheorems`,
  `ImagePadding`, `ImageBytes`, with `Sorting`): `ESP32FirmwareImage.save` places flash segments at file offsets congruent
  to their addresses and fills the gaps with pieces of RAM segments. Proved: nothing is lost, reordered or invented;
  every flash segment is aligned, with the least padding; the checksum is the one of the original segments; loading
  gives everything back; and exactly when the packing loop ends, when its assertion fails, and when an image is saved.
- **SLIP** (`Slip`): the encoder and the incremental reader of `esptool.py` are exact inverses for any cut of the stream.
- **String replacement** (`Replacement`, `ReplacementLength`, `WString`): the three in-place algorithms of
  `String::replace`. The growing one works from the right over text that it has already changed. It agrees with the
  others exactly for patterns none of whose proper, non-empty suffixes is a prefix of the pattern or of the
  replacement, and it stays in its buffer exactly for those none of whose suffixes is a prefix of the replacement.
- **SPI clock** (`SpiClock`): the search tries four prescalers for each n, and finds the best of all 63 * 8192 dividers.
- **Timers** (`Timer`, `TimerHistory`, `TimerCount`, `TimerControl`): `M5Timer` with callbacks that call back into it. True
  time is an unbounded number, and the clock is that number modulo 2^32.
- **MQTT cache** (`Text`, `TopicMatch`, `FlatMap`, `Payload`, `MqttCache`): a map of maps in storage of its own, fed by a
  payload parser and read through deep-copied snapshots.
- **Circular buffer** (`Ring`, `Cbuf`, `CbufHistory`): `cbuf` as a bounded first-in-first-out queue over every
  interleaving of its calls.
- **Partition tables** (`Partition`, `PartitionCodec`): layout, verification and binary form.
- **Button B** (`Button`): debouncing, and the long-push or short-press dispatch of `updateMenu`, over every run of polls.

Where the code departs from what one would expect of it, the code is kept and the exact condition is proved:

- The packing loop's assertion fails exactly when a gap of 8 bytes is met (`ImageLayout.AssertsIffGapEight`).
- The loop does not end exactly when it comes to have RAM used up and a flash address that differs from the file
  position modulo 4 (`ImageTermination.EndsIff`).
- A growing `replace` differs from the leftmost replacement for some text exactly for ambiguous patterns
  (`Replacement.AgreeIffUnambiguous`), and writes past what it reserved exactly for patterns with a suffix that starts
  the replacement (`WString.FitsIffSafe`).
- The SPI search is not the best over the whole register exactly when n = 0, which it never tries, reaches a frequency
  that no other divider gives (`SpiClock.BestOfAllIff`).
- A timer set in a last run is lost exactly when it took the slot of the callback (`TimerCount.NewTimerLostIff`).
- A filter ending in `#` does not match the parent level, unlike section 4.7.1.2 of MQTT 3.1.1
  (`TopicMatch.HashExcludesParent`).
- `cbuf::resize` to one byte less than is stored breaks the buffer, and `resizeAdd` grows it by one byte too many
  (`Cbuf.CircularBuffer.Resize`, `Cbuf.CircularBuffer.ResizeAdd`).
- Partition names of more than 16 bytes are cut without notice (`PartitionCodec.NormalIff`).

Environment as parameters: SHA-256 and MD5 are arbitrary functions to 32 and 16 bytes; clocks, pin levels, the reads of
a serial port and what a timer callback does are arguments; an allocation succeeds; a section under a mutex is one step.

## Model

| member | source | states |
|---|---|---|
| `FirmwareImage.Checksum` | components/arduino/tools/esptool.py:263-270 | The checksum loop returns the seed combined with the exclusive or of all the data. |
| `FirmwareImage.XorAppend` | components/arduino/tools/esptool.py:263-270 | The checksum of two pieces one after the other combines their checksums, so a split does not change it. |
| `FirmwareImage.XorAt` | components/arduino/tools/esptool.py:265-268 | `^` on bytes sets exactly the bits that one of the two has. |
| `FirmwareImage.FlashRanges` | components/arduino/tools/esptool.py:981-984 | The flash ranges begin and end where the memory map says. |
| `FirmwareImage.NoPaddingButUnaligned` | components/arduino/tools/esptool.py:1456-1471 | `get_alignment_data_needed` answers 0 for a position that is not aligned if and only if the gap it first computes is exactly 8. |
| `FirmwareImage.PaddingAligns` | components/arduino/tools/esptool.py:1456-1471 | When it answers more than 0, a record with exactly that many bytes leaves the segment aligned, and the next answer is 0. |
| `ImagePadding.LeastPadding` | components/arduino/tools/esptool.py:1456-1471 | That many bytes bring the segment to the first offset that has the residue of its address modulo 65536, leaves room for the two headers, and lies in a later 64 KB block than the position: no place comes before it. |
| `FirmwareImage.PadNeededMod4` | components/arduino/tools/esptool.py:1456-1471 | The answer is a multiple of 4 if and only if the file position and the segment address agree modulo 4. |
| `FirmwareImage.StepPackable` | components/arduino/tools/esptool.py:1475-1497 | A turn of the packing loop keeps the file position, flash addresses and all segment sizes multiples of 4. |
| `FirmwareImage.StepProgresses` | components/arduino/tools/esptool.py:1475-1492 | With everything a multiple of 4, every turn places a flash segment, or uses up a RAM segment, or leaves the next flash segment aligned. |
| `ImageLayout.SplitConserves` | components/arduino/tools/esptool.py:1132-1142 | Splitting a RAM segment keeps every (address, byte) pair: the piece followed by the rest loads what the segment did. |
| `ImageLayout.StepConsistent` | components/arduino/tools/esptool.py:1475-1497 | Every turn keeps: flash written plus flash left is the flash list, RAM bytes written plus RAM left is the RAM list, every record fits its header, every flash record is aligned, and the file position is the size of the records. |
| `ImageLayout.TurnsConsistent` | components/arduino/tools/esptool.py:1475-1497 | So that holds in every state that the loop reaches, from any start. |
| `ImageLayout.PackConsistent` | components/arduino/tools/esptool.py:1473-1497 | A finished run has written each flash segment whole, once and in order, and RAM records that load exactly the bytes of the RAM segments, however they were split; all else is zero filler at address 0. |
| `ImageLayout.PackKeepsTotal` | components/arduino/tools/esptool.py:1473-1497 | The checksum threaded through the records of a finished run is that of the segments the run started from. |
| `ImageLayout.FlashAlignedAt` | components/arduino/tools/esptool.py:1487-1492 | In an aligned layout every flash record has its data at a file offset congruent to its address modulo 65536. |
| `ImageLayout.AssertsIffGapEight` | components/arduino/tools/esptool.py:1463-1489 | On any input the assertion at 1489 fails if and only if some turn of the loop meets a gap of 8. |
| `ImageLayout.AssertionCanFail` | components/arduino/tools/esptool.py:1463-1489 | It does fail: a RAM segment of 65488 bytes before a flash segment at 0x3F400000. |
| `ImageTermination.ShortFiller` | components/arduino/tools/esptool.py:1475-1486 | Filler for a gap of at most a header either fits, or overshoots by less than 4, and then the next gap is more than a header. |
| `ImageTermination.TurnProgresses` | components/arduino/tools/esptool.py:1475-1497 | Every turn makes progress unless RAM is used up and the position and the next flash address differ modulo 4. |
| `ImageTermination.FillsForever` | components/arduino/tools/esptool.py:1475-1486 | In that case any number of turns leaves the flash segment unplaced, because fillers are padded to multiples of 4. |
| `ImageTermination.EndsIff` | components/arduino/tools/esptool.py:1473-1497 | On any input, aligned or not, the loop ends if and only if it never comes to that. |
| `ImageTermination.PackableEnds` | components/arduino/tools/esptool.py:1473-1497 | It always ends when flash addresses and sizes are multiples of 4. |
| `ImageTermination.UnalignedCanEnd` | components/arduino/tools/esptool.py:1478-1481 | It can end with an unaligned flash address too: a piece of RAM fills the gap to the byte. |
| `ImageFile.SplitImage` | components/arduino/tools/esptool.py:1132-1142 | The piece and the rest are the data cut at `split_len`, the rest at the address moved up by as much. |
| `ImageFile.SharesMapping` | components/arduino/tools/esptool.py:1445-1454 | The neighbour check reports exactly whether two neighbouring flash segments lie in one 64 KB mapping. |
| `ImageFile.SaveSegment` | components/arduino/tools/esptool.py:1194-1199 | A record is the 8-byte header and the data, and the checksum goes on from the one given; numbers beyond 32 bits are an error. |
| `ImageFile.NextRecord` | components/arduino/tools/esptool.py:1475-1497 | The branches of one turn, written as in the source, choose the record and leave the lists that the specification says. |
| `ImageFile.PackSegments` | components/arduino/tools/esptool.py:1473-1497 | Whenever the loops end, they leave header plus the encoded records of the specified run, its checksum and its record count, or raise the same error. |
| `ImageFile.Save` | components/arduino/tools/esptool.py:1426-1515 | Whenever the loops end, `save` writes header, records, padding to one byte short of 16, checksum, the patched record count and the digest of all of it, or raises for a shared mapping, the assertion, or a number that does not fit. |
| `ImageLoad.CommonFields` | components/arduino/tools/esptool.py:1170-1175 | In a header so written, magic, record count, flash bytes and entry point stand where `load_common_header` reads them. |
| `ImageLoad.ExtendedFields` | components/arduino/tools/esptool.py:1520-1556 | In the extended header the WP pin, the drive levels, two to a byte with the first in the low half, and the digest flag stand where `load_extended_header` reads them. |
| `ImageLoad.LoadLoop` | components/arduino/tools/esptool.py:1177-1192 | The loading loop reads as many segments as the header counts, each from where the last ended. |
| `ImageLoad.Load` | components/arduino/tools/esptool.py:1397-1413 | The constructor returns header fields, segments, checksum and both digests as specified, or the first error met. |
| `ImageLoad.LoadsBody` | components/arduino/tools/esptool.py:1177-1192 | Loading the encoded form of any list of records returns those records, in order, padded to multiples of 4, with their file offsets, whatever follows them. |
| `ImageLoad.LoadsFile` | components/arduino/tools/esptool.py:1397-1413 | Loading the file of a layout succeeds exactly when it has at most 16 records, and then gives back everything in it. |
| `ImageTheorems.StartingLists` | components/arduino/tools/esptool.py:1438-1441 | The flash and the RAM list together are the segments of the image, each in address order, flash by address range. |
| `ImageTheorems.Conserves` | components/arduino/tools/esptool.py:1426-1515 | In any file that `save` writes: flash segments whole, once, in address order and aligned; RAM records loading exactly the address-sorted RAM bytes; nothing else but zero filler. |
| `ImageTheorems.ChecksumUnchanged` | components/arduino/tools/esptool.py:1208-1221 | The checksum in the file is what `calculate_checksum` gives for the segments of the image before sorting, splitting and filling. |
| `ImageTheorems.MappingsDistinct` | components/arduino/tools/esptool.py:1443-1454 | In an accepted image any two flash segments, not only neighbours, lie in different 64 KB mappings, in increasing order. |
| `ImageTheorems.RoundTrip` | components/arduino/tools/esptool.py:1397-1413 | Loading a saved file gives its records, the entry point, the flash bytes, the low nibbles of the drive levels, the checksum of the segments and equal stored and computed digests, exactly when there are at most 16 records; otherwise the header is refused. |
| `ImageTheorems.LoadedFlashAligned` | components/arduino/tools/esptool.py:1456-1492 | Every flash record so loaded has a file offset that puts its data congruent to its address modulo 65536. |
| `ImageTheorems.FourAlignedSaveable` | components/arduino/tools/esptool.py:1117-1123 | With segments as `ImageSegment` makes them and flash addresses that are multiples of 4, `save` always returns. |
| `ImageTheorems.LoadsExactly` | components/arduino/tools/esptool.py:1739-1744 | Loading then pads nothing: each record comes back byte for byte. |
| `ImageTheorems.LoadedConserves` | components/arduino/tools/esptool.py:1426-1515 | Conservation as the loaded file shows it, by address alone: segments in flash ranges are the flash segments of the image, whole, in address order and aligned; the others, without zeros at address 0, load the bytes of its RAM segments in address order. |
| `ImagePadding.SavedTight` | components/arduino/tools/esptool.py:1456-1492 | In a saved file the data of every flash segment stands at an offset congruent to its address modulo 65536, and after padding at the first such offset there was, as seen from where its last padding begins. |
| `ImagePadding.SavedPadding` | components/arduino/tools/esptool.py:1478-1484 | Zeros by more than 8 bytes are written only when no RAM is left, and a RAM segment is never cut for 8 bytes or less. |
| `ImageBytes.HeaderBytes` | components/arduino/tools/esptool.py:1223-1225 | The first 8 bytes of a saved file are 0xE9, the record count, the flash bytes and the entry point, least significant byte first; then the WP pin, two drive levels a byte, eleven zeros and the digest flag. |
| `ImageBytes.RecordBytesAre` | components/arduino/tools/esptool.py:1194-1197 | A record is its address and its length, least significant byte first, and its data. |
| `ImageBytes.TailBytes` | components/arduino/tools/esptool.py:1218-1221 | After the records come zeros, fewer than 16, and the checksum, which completes a multiple of 16 bytes and starts from 0xEF; then the digest of all of it, if there is one. |
| `ImageBytes.SavedIff` | components/arduino/tools/esptool.py:1426-1515 | An image in the 32-bit address space is saved if and only if it has at most 255 segments, its entry point fits, no two flash segments share a mapping, no turn meets a gap of 8, and none leaves more than 255 records. |
| `ImageBytes.BadHeaderRefused` | components/arduino/tools/esptool.py:1170-1175 | A file without its headers, or with another magic byte, more than 16 records or another digest flag, is refused. |
| `ImageBytes.CutRecordRefused` | components/arduino/tools/esptool.py:1177-1189 | A record that ends in its header or in its data is refused, each with its own error. |
| `ImageBytes.CutFileRefused` | components/arduino/tools/esptool.py:1397-1413 | A loadable file that is cut anywhere before the end of its checksum is refused. |
| `ImageTheorems.SaveThenLoad` | components/arduino/tools/esptool.py:1426-1515 | The two methods one after the other return the error of `save`, or refuse more than 16 records, or give back all that the round trip says. |
| `Slip.TwoPassIsPerByte` | components/arduino/tools/esptool.py:242-247 | The two `replace` passes of `write` are the per-byte escape of the PROTOCOL section of RFC 1055: the second pass leaves the output of the first alone. |
| `Slip.SlipReader.Read` | components/arduino/tools/esptool.py:1640-1685 | One `next` of the generator gives the next packet of the bytes still to come, or the error of the first bad byte, or a timeout that says what it waited for, wherever the reads cut the stream. |
| `Slip.SlipReader.ReadAll` | components/arduino/tools/esptool.py:1640-1685 | Calling it until it raises gives every packet of the stream, in order, and the reason it stopped. |
| `Slip.EncodedDecodes` | components/arduino/tools/esptool.py:1640-1685 | The encoded form of any list of packets is read as that list, with nothing left over. |
| `Slip.DecodedWasEncoded` | components/arduino/tools/esptool.py:1640-1685 | A stream that is read to its end without error is the encoded form of the packets read. |
| `Slip.DecodesIffEncoded` | components/arduino/tools/esptool.py:1640-1685 | So a stream reads cleanly as a list of packets if and only if it is that list encoded. |
| `Slip.Transfer` | components/arduino/tools/esptool.py:1640-1685 | For every list of packets and every cut of the encoded stream into non-empty reads, the reader gives exactly those packets, in order, and stops only by a timeout while waiting for a header. |
| `Slip.WireBytes` | components/arduino/tools/esptool.py:242-247 | On the wire 0xC0 is 0xDB 0xDC, 0xDB is 0xDB 0xDD, any other byte itself, and 0xC0 frames a packet. |
| `Slip.TerminatorsAtEnds` | components/arduino/tools/esptool.py:242-247 | A frame has the terminator at its two ends and nowhere else. |
| `Slip.ReadBad` | components/arduino/tools/esptool.py:1664-1677 | A stream that does not begin with 0xC0, and an escape followed by anything but 0xDC and 0xDD, are refused by that byte; one that stops in a packet is a timeout for its content. |
| `Sorting.SortBySorts` | components/arduino/tools/esptool.py:1438-1441 | The sort that image and partition code rely on gives keys in order. |
| `Sorting.SortByIsStable` | components/arduino/tools/esptool.py:1438-1441 | It keeps the order of elements with equal keys. |
| `Replacement.UnambiguousAgrees` | components/arduino/cores/esp32/WString.cpp:788-796 | When no proper, non-empty suffix of `find` is a prefix of `find` or of the replacement, scanning from the right over the changing text replaces the leftmost non-overlapping occurrences. |
| `Replacement.AmbiguousDiffers` | components/arduino/cores/esp32/WString.cpp:788-796 | For every other longer replacement the text made of the pattern without that suffix and the pattern is replaced differently by the two scans. |
| `Replacement.AgreeIffUnambiguous` | components/arduino/cores/esp32/WString.cpp:788-796 | So the growing branch agrees with the leftmost replacement on all texts if and only if the pattern is unambiguous in that sense. |
| `WString.Strstr` | components/arduino/cores/esp32/WString.cpp:760 | `strstr` finds the first occurrence in the C string at a position, or reports that there is none. |
| `WString.LastIndexOf` | components/arduino/cores/esp32/WString.cpp:693-712 | The result is the greatest index, not above the given one, at which the text occurs, or -1 if there is none or either string is empty. |
| `WString.ReplaceEqual` | components/arduino/cores/esp32/WString.cpp:759-763 | The equal-length branch leaves the leftmost replacement in the buffer, terminated. |
| `WString.ReplaceShrinking` | components/arduino/cores/esp32/WString.cpp:764-775 | The shrinking branch leaves the leftmost replacement in the same buffer, with its length and terminator, although it reads and writes the buffer at once. |
| `WString.GrownSize` | components/arduino/cores/esp32/WString.cpp:777-781 | The size computed first is the length of the leftmost replacement. |
| `WString.OpenGap` | components/arduino/cores/esp32/WString.cpp:790-794 | The copies of a growing turn replace one occurrence in place and terminate the longer text. |
| `ReplacementLength.SafeNeverLonger` | components/arduino/cores/esp32/WString.cpp:777-796 | When no proper, non-empty suffix of `find` is a prefix of the replacement, the scan from the right makes no text longer than the leftmost replacement that was counted. |
| `ReplacementLength.UnsafeLonger` | components/arduino/cores/esp32/WString.cpp:777-796 | Otherwise some text gets longer than was counted by as much as one likes. |
| `ReplacementLength.NeverLongerIffSafe` | components/arduino/cores/esp32/WString.cpp:777-796 | So the length counted is enough for every text if and only if there is no such suffix. |
| `WString.ReplaceGrowing` | components/arduino/cores/esp32/WString.cpp:788-796 | The growing loop stays in the buffer if and only if the right-to-left replacement fits it, and then leaves that. |
| `WString.String.Reserve` | components/arduino/cores/esp32/WString.cpp:153-187 | The text survives; the capacity is unchanged if it was enough, otherwise the least that is one less than a multiple of 16. |
| `WString.String.Replace` | components/arduino/cores/esp32/WString.cpp:751-798 | Every call says whether it stayed in the buffer, exactly when a growing result fits what was reserved; and then text, length and terminator are right in all branches: the leftmost replacement if not growing, the right-to-left replacement if growing. |
| `WString.Terminated` | components/arduino/cores/esp32/WString.cpp:751-798 | A string with a buffer, such as every call leaves, ends with a zero character and has none before. |
| `WString.FitsIffSafe` | components/arduino/cores/esp32/WString.cpp:777-796 | `replace` stays in its buffer for every text and capacity if and only if no proper, non-empty suffix of `find` is a prefix of the replacement. |
| `WString.ReplaceSafe` | components/arduino/cores/esp32/WString.cpp:751-798 | With such a pattern, or a replacement that is not longer, `replace` always stays in the buffer. |
| `WString.ReplaceUnambiguous` | components/arduino/cores/esp32/WString.cpp:751-798 | If moreover no such suffix is a prefix of `find` itself, the result is the leftmost replacement for every text. |
| `WString.BorderIsSafe` | components/arduino/cores/esp32/WString.cpp:777-796 | The two conditions differ: "aa" by "bbbb" stays in the buffer although "aa" starts with its own end. |
| `WString.NothingToReplace` | components/arduino/cores/esp32/WString.cpp:782-784 | The early return for an unchanged size happens only when there is no occurrence. |
| `WString.GrowthCanOverflow` | components/arduino/cores/esp32/WString.cpp:777-796 | A text for which it does not: "aa" by 17 letters a in "aaa", with capacity 15. |
| `SpiClock.UnpackPack` | components/arduino/cores/esp32/esp32-hal-spi.c:1009-1018 | The bit fields of the register do not disturb each other. |
| `SpiClock.RegisterBits` | components/arduino/cores/esp32/esp32-hal-spi.c:1009-1018 | The fields stand where the register has them. |
| `SpiClock.DivDiv` | components/arduino/cores/esp32/esp32-hal-spi.c:1020 | Dividing the clock by the product of the two divisors is dividing twice, with both floors. |
| `SpiClock.TriesSuffice` | components/arduino/cores/esp32/esp32-hal-spi.c:1053-1062 | For every `n` and request, one of the two middle tries reaches at least what any of the 8192 prescalers reaches without passing the request. |
| `SpiClock.FrequencyToClockDiv` | components/arduino/cores/esp32/esp32-hal-spi.c:1028-1080 | For every request from the slowest divider, 152 Hz, up to the source clock, 80 MHz, the register found gives the greatest frequency not above the request among all dividers with 1 <= n <= 63, with the duty field it should have; outside that range the registers 0x7FFFF000 and 0x80000000. |
| `SpiClock.FrequencyOfDivider` | components/arduino/cores/esp32/esp32-hal-spi.c:1028-1080 | Asked for the frequency that a divider with 1 <= n gives, the search returns a register that gives exactly that. |
| `SpiClock.BestOfAllIff` | components/arduino/cores/esp32/esp32-hal-spi.c:1045-1047 | Over all of the register, n = 0 included, the best result is the best if and only if the least divisor that does not pass the request is more than 8192 or some divider with 1 <= n gives its frequency. |
| `SpiClock.FrequencyToClockDivOfAll` | components/arduino/cores/esp32/esp32-hal-spi.c:1028-1080 | The register that the search returns is the best of all under exactly that condition. |
| `SpiClock.NotBestWithZeroN` | components/arduino/cores/esp32/esp32-hal-spi.c:1045-1047 | A request for which it fails: n = 0 gives 1194029 Hz exactly and no divider that is tried does. |
| `Timer.M5Timer.FindFirstFreeSlot` | components/m5stack/src/utility/M5Timer.cpp:114-131 | The first free slot, or -1 if the count says all are used or none is free. |
| `Timer.M5Timer.SetTimer` | components/m5stack/src/utility/M5Timer.cpp:134-155 | The first free slot holds the timer, enabled and started now; every other field and slot is as it was. |
| `Timer.M5Timer.DeleteTimer` | components/m5stack/src/utility/M5Timer.cpp:168-190 | An occupied slot is freed, with no runs and nothing deferred; an empty or invalid one changes nothing. |
| `Timer.M5Timer.MarkDue` | components/m5stack/src/utility/M5Timer.cpp:56-92 | The first loop of `run` consumes at most one period of each due timer and decides what to call. |
| `Timer.M5Timer.Run` | components/m5stack/src/utility/M5Timer.cpp:49-108 | `run`, whose callbacks set, delete and restart timers as they please, leaves the state and makes the calls of the specification, slot by slot. |
| `TimerHistory.DeleteKeeps` | components/m5stack/src/utility/M5Timer.cpp:168-190 | Deleting keeps the count right and leaves nothing deferred in a free slot. |
| `TimerHistory.ApplyKeeps` | components/m5stack/src/utility/M5Timer.cpp:134-155 | So does every other call. |
| `TimerControl.StartIsConsistent` | components/m5stack/src/utility/M5Timer.cpp:35-46 | The state that the constructor makes satisfies what every history keeps. |
| `TimerHistory.HistoryKeeps` | components/m5stack/src/utility/M5Timer.cpp:35-235 | Over every history of calls and runs, whatever the callbacks do, `numTimers` is the number of occupied slots, free slots have no runs, and no empty slot is ever called. |
| `TimerHistory.CallFromFollows` | components/m5stack/src/utility/M5Timer.cpp:95-108 | The second loop of `run` calls an untouched timer once if it is due and not otherwise, and frees it if that was its last run. |
| `TimerHistory.MarkPaced` | components/m5stack/src/utility/M5Timer.cpp:66-71 | A run at most a period after the last consumes a period exactly when one has passed in true time, however often the 32-bit clock has wrapped. |
| `TimerHistory.SetOnTrack` | components/m5stack/src/utility/M5Timer.cpp:134-155 | A timer just set in a free slot is on track from then. |
| `TimerHistory.CalledOnTime` | components/m5stack/src/utility/M5Timer.cpp:49-108 | If runs come at most a period apart, an enabled n-run timer left alone has been called exactly min(n, floor((now - start) / d)) times after each of them, an endless one floor((now - start) / d) times, and it is freed with its last call. |
| `TimerHistory.ConsumedOnTime` | components/m5stack/src/utility/M5Timer.cpp:49-108 | Enabled or not, a timer that is not deleted or restarted has consumed exactly floor((now - start) / d) periods, without drift. |
| `TimerHistory.CatchesUpIff` | components/m5stack/src/utility/M5Timer.cpp:66-71 | A run leaves a timer less than a period behind if and only if it came less than two periods after the last one consumed. |
| `TimerCount.CalledExactly` | components/m5stack/src/utility/M5Timer.cpp:56-108 | Over every history, with runs at any times and the timer enabled, disabled and restarted at will, an n-run timer that is not deleted is called once in each run that finds it enabled and due, until the n-th call, which frees it; it is never called again. |
| `TimerCount.SetCounted` | components/m5stack/src/utility/M5Timer.cpp:134-155 | An n-run timer that is set in a free slot has been called 0 times. |
| `TimerControl.SlotChosen` | components/m5stack/src/utility/M5Timer.cpp:114-131 | There are never more than 10 timers; no slot is chosen if and only if there are 10, and otherwise the lowest free one. |
| `TimerControl.CalledIff` | components/m5stack/src/utility/M5Timer.cpp:56-108 | A run calls a timer that its callbacks leave alone, once, if and only if it is enabled, has runs left, and its period has passed on the 32-bit clock. |
| `TimerControl.CalledInOrder` | components/m5stack/src/utility/M5Timer.cpp:95-108 | Due timers are called in the order of their slots. |
| `TimerControl.RestartPostpones` | components/m5stack/src/utility/M5Timer.cpp:194-200 | After a restart at `now` no run before now + d calls the timer, however due it was, and the first run in [now + d, now + 2d) calls it if it is enabled and has runs left. |
| `TimerControl.RestartOnPace` | components/m5stack/src/utility/M5Timer.cpp:194-200 | A restarted timer keeps the pace of one set at that time. |
| `TimerControl.DisableSilences` | components/m5stack/src/utility/M5Timer.cpp:221-227 | After `disable` no run calls the timer or uses up a run of it, until something enables it. |
| `TimerControl.EnableResumes` | components/m5stack/src/utility/M5Timer.cpp:212-218 | After `enable` the next run that finds it due calls it, if it has runs left. |
| `TimerControl.ToggleTwice` | components/m5stack/src/utility/M5Timer.cpp:230-236 | `toggle` disables an enabled timer and enables a disabled one, and twice is not at all. |
| `TimerCount.NewTimerLostIff` | components/m5stack/src/utility/M5Timer.cpp:103-106 | A timer that the callback of a last run leaves in slot j is lost in the deletion after the run if and only if j is the slot of that callback, which for that has to have freed it; otherwise it stays as it was set. |
| `TimerCount.NeedsFreeing` | components/m5stack/src/utility/M5Timer.cpp:114-155 | A slot gets another callback only after it has been free. |
| `TimerCount.LastRunDeletesNewTimer` | components/m5stack/src/utility/M5Timer.cpp:103-106 | It does happen: a callback that deletes its own timer and sets another, with no free slot below, loses the new one. |
| `Text.SplitJoin` | main/mqttHelpers.cpp:13-14 | Splitting with `strsep` undoes joining, for parts without delimiters. |
| `Text.TrimTrims` | main/flatmap.c:8-31 | Trimming text that is not all spaces leaves a first and a last character that are no spaces. |
| `Text.TrimOfPadded` | main/flatmap.c:8-31 | It removes spaces around the text and none within. |
| `Text.Spaces` | main/flatmap.c:17 | The six spaces of the C locale, and no other character. |
| `Text.TrimWhitespace` | main/flatmap.c:8-31 | The two loops trim the string in its own array and keep it terminated. |
| `TopicMatch.MatchTopic` | main/mqttHelpers.cpp:3-33 | The loop over two `strsep` cursors answers as the recursive match over the two lists of levels. |
| `TopicMatch.SlashSeparates` | main/mqttHelpers.cpp:13-14 | For levels without separators, joined by `/` into filter and topic, the texts match exactly when the levels do. |
| `TopicMatch.NewlineSeparates` | main/mqttHelpers.cpp:13-14 | The same holds for levels joined by the end of a line. |
| `TopicMatch.PlusIsOneLevel` | main/mqttHelpers.cpp:27 | A level `+` between plain levels stands for exactly one level, whatever it is (section 4.7.1.3 of MQTT 3.1.1). |
| `TopicMatch.HashIsTheRest` | main/mqttHelpers.cpp:24-26 | A level `#` after plain levels stands for all levels from there on, of which there has to be one. |
| `TopicMatch.MatchLevelsIff` | main/mqttHelpers.cpp:12-30 | Filter and topic match if and only if levels match one for one, `+` taking any (section 4.7.1.3 of MQTT 3.1.1), up to the first `#`, which takes one or more levels, or to the end of both. |
| `TopicMatch.HashExcludesParent` | main/mqttHelpers.cpp:24-26 | Unlike section 4.7.1.2 of MQTT 3.1.1, a filter followed by a level `#` never matches a topic that the filter matches. |
| `TopicMatch.PlainMatchesItself` | main/mqttHelpers.cpp:24-29 | A filter without wildcard levels matches exactly the topic with the same levels. |
| `FlatMap.Find` | main/flatmap.c:67-79 | The lookup finds the first entry whose key is the trimmed key, or none. |
| `FlatMap.LookupPut` | main/flatmap.c:81-108 | A put changes what is found under its trimmed key and nothing else. |
| `FlatMap.LastWriteWins` | main/flatmap.c:81-108 | After any list of puts each key has the last value put under it, or what it had before. |
| `FlatMap.PutAllWellKeyed` | main/flatmap.c:81-108 | Puts keep keys trimmed and distinct. |
| `FlatMap.CopyStep` | main/buffer.cpp:145-151 | Putting the entries of a map in order into an empty one copies it, entry by entry. |
| `FlatMap.Fields.Put` | main/flatmap.c:81-108 | A put overwrites the value under the trimmed key or adds an entry at the end. |
| `Payload.AssignContent` | main/buffer.cpp:25-81 | The parser loop puts the pairs of the payload, in order, bare tokens under `no_key`, then the time stamp; its third branch is never reached. |
| `Payload.AssignedField` | main/buffer.cpp:25-81 | After a payload each key has the last value the payload gives it, else what it had, and `timestamp` always the new stamp. |
| `Payload.BareToken` | main/buffer.cpp:52-57 | A token without a colon, alone or followed by one, is stored under `no_key`. |
| `Payload.BareTokenThen` | main/buffer.cpp:42-57 | So is one with an empty value, and parsing goes on after the comma. |
| `Payload.PrintedThenBare` | main/buffer.cpp:42-73 | Printed pairs can be followed by a bare last token. |
| `Payload.ParsePrint` | main/buffer.cpp:42-73 | Pairs with non-empty keys without `:` and non-empty values without `,`, printed as `k:v,k:v`, are parsed back. |
| `Payload.ParsePrintIff` | main/buffer.cpp:42-73 | And only those: any other list of pairs is parsed as something else. |
| `MqttCache.CacheIsFold` | main/buffer.cpp:186-203 | After any messages the cache has one entry per trimmed topic, in first-seen order, whose fields are the fold of all payloads of that topic in order. |
| `MqttCache.PrintedIsFound` | main/buffer.cpp:25-81 | Pairs printed as `k:v,k:v` and put on a topic, after any messages, are found there key by key: the last value of each, earlier values for other keys, the new stamp under `timestamp`. |
| `MqttCache.BareIsFound` | main/buffer.cpp:52-57 | A bare token at the end of a payload is found in the field `no_key` of its topic. |
| `MqttCache.TopicsGrow` | main/buffer.cpp:186-203 | The topics of the first messages come first, in their order. |
| `MqttCache.PutWellFormed` | main/buffer.cpp:186-203 | A put keeps topics and keys trimmed and distinct. |
| `MqttCache.FilteredWellFormed` | main/buffer.cpp:162-184 | So does taking the entries that match a filter. |
| `MqttCache.Cache.Put` | main/buffer.cpp:186-203 | A put changes the fields of its topic, or adds them at the end, and keeps every inner map owned by one entry. |
| `MqttCache.Cache.PutCopy` | main/buffer.cpp:131-152 | The snapshot entry is new, so the assertion in the copy callback holds, and its inner map is fresh storage with the same fields. |
| `MqttCache.Cache.GetMatching` | main/buffer.cpp:162-184 | A snapshot is the cache filtered by `matchTopic`, in cache order, field for field, in storage of its own. |
| `MqttCache.InSnapshotIff` | main/buffer.cpp:162-184 | An entry is in the snapshot if and only if the levels of its topic match those of the filter. |
| `MqttCache.FilteredStep` | main/buffer.cpp:177-182 | Each entry is added behind those before it, if it matches, and its topic is not there yet. |
| `MqttCache.Cache.Free` | main/flatmap.c:43-54 | Freeing a map empties it and the inner maps it owned. |
| `MqttCache.SnapshotThenPuts` | main/buffer.cpp:162-203 | No sequence of puts after a snapshot changes the snapshot. |
| `MqttCache.PutEach` | main/buffer.cpp:186-203 | A sequence of puts leaves the cache as the messages one after the other say. |
| `MqttCache.FreeSnapshot` | main/buffer.cpp:154-160 | Freeing a snapshot does not change the cache. |
| `MqttCache.FeedThenRead` | main/buffer.cpp:162-203 | A cache fed any messages holds their fold, and a snapshot of it the matching part. |
| `Ring.WriteAhead` | components/arduino/cores/esp32/cbuf.cpp:158-173 | Bytes copied to `_end` without going around follow what was stored. |
| `Ring.WriteAround` | components/arduino/cores/esp32/cbuf.cpp:158-173 | So do bytes copied in two parts, to the end of the storage and from its start. |
| `Ring.ReadAround` | components/arduino/cores/esp32/cbuf.cpp:130-145 | Bytes copied out in two parts are the oldest ones, and what is left is the rest. |
| `Cbuf.CircularBuffer.Room` | components/arduino/cores/esp32/cbuf.cpp:85-91 | `available()` and `room()` always add up to the capacity. |
| `Cbuf.CircularBuffer.Full` | components/arduino/cores/esp32/cbuf.h:46-49 | Full means exactly that the capacity is stored. |
| `Cbuf.CircularBuffer.Peek` | components/arduino/cores/esp32/cbuf.cpp:93-100 | The oldest byte, or -1. |
| `Cbuf.CircularBuffer.CopyOldest` | components/arduino/cores/esp32/cbuf.cpp:102-117 | The oldest bytes are copied out, in one part or two, and the next one to read is where the last copy ended. |
| `Cbuf.CircularBuffer.PeekMany` | components/arduino/cores/esp32/cbuf.cpp:102-117 | The oldest bytes are copied out, as many as asked or stored; the destination is otherwise untouched, the buffer entirely. |
| `Cbuf.CircularBuffer.Read` | components/arduino/cores/esp32/cbuf.cpp:119-128 | The oldest byte is taken, or -1 returned. |
| `Cbuf.CircularBuffer.ReadMany` | components/arduino/cores/esp32/cbuf.cpp:130-145 | The oldest bytes are copied out and taken. |
| `Cbuf.CircularBuffer.Write` | components/arduino/cores/esp32/cbuf.cpp:147-156 | A byte is added at the end unless the buffer is full. |
| `Cbuf.CircularBuffer.WriteMany` | components/arduino/cores/esp32/cbuf.cpp:158-173 | As many bytes as there is room for are added at the end, in order. |
| `Cbuf.CircularBuffer.Remove` | components/arduino/cores/esp32/cbuf.cpp:181-196 | The oldest bytes are dropped, and the number left returned. |
| `Cbuf.CircularBuffer.Resize` | components/arduino/cores/esp32/cbuf.cpp:38-70 | Nothing stored is ever lost; the capacity becomes the one asked for unless less than all but one byte would fit; the indices stay in range if and only if it is not one less than is stored. |
| `Cbuf.CircularBuffer.ResizeAdd` | components/arduino/cores/esp32/cbuf.cpp:33-36 | The capacity grows by one more than is asked for, and nothing is lost. |
| `CbufHistory.Perform` | components/arduino/cores/esp32/cbuf.cpp:33-196 | Each call answers as a bounded queue of bytes would and leaves the buffer holding what the queue holds. |
| `CbufHistory.PerformAll` | components/arduino/cores/esp32/cbuf.cpp:33-196 | So does every interleaving of calls, except a resize to one byte less than is stored. |
| `CbufHistory.ShrinkingBelowContents` | components/arduino/cores/esp32/cbuf.cpp:38-70 | That resize does break the buffer: one byte stored, resized to 0, leaves `_end` outside the storage. |
| `CbufHistory.Conserved` | components/arduino/cores/esp32/cbuf.cpp:93-173 | First in, first out: without removals, what was stored followed by all bytes accepted is all bytes read followed by what is still stored. |
| `CbufHistory.NeverOverfull` | components/arduino/cores/esp32/cbuf.cpp:33-196 | No run of calls stores more than the capacity. |
| `CbufHistory.WritesAreOneWrite` | components/arduino/cores/esp32/cbuf.cpp:147-173 | Any cut of some bytes into single and bulk writes stores what one bulk write would. |
| `Partition.RowsFixedUp` | components/arduino/tools/gen_esp32part.py:79-89 | Over any rows, each entry keeps the fields of its row: a given offset as it is, a blank one the first offset from the end of the entry before that suits its type (64 KB for type 0, otherwise 4), a negative size as the end address. |
| `Partition.FirstPlace` | components/arduino/tools/gen_esp32part.py:80 | A blank first row goes to 0x5000, or to 0x10000 for an application. |
| `Partition.FixRow` | components/arduino/tools/gen_esp32part.py:81-89 | The steps of the loop give that entry. |
| `Partition.FixUp` | components/arduino/tools/gen_esp32part.py:79-91 | The fix-up loop places each row after the one before, from 0x5000 on. |
| `Partition.Verify` | components/arduino/tools/gen_esp32part.py:104-115 | The verdict says whether an entry is misaligned, or else one lies below 0x5000, or else neighbours overlap. |
| `Partition.AlignedIs` | components/arduino/tools/gen_esp32part.py:179-182 | The alignment checked is 64 KB for applications, type 0, and 4 bytes for anything else. |
| `Partition.AcceptsIffDisjoint` | components/arduino/tools/gen_esp32part.py:104-115 | A table is accepted if and only if all entries are aligned and past the table and, in offset order, each starts after every earlier one ends, although only neighbours are compared. |
| `Partition.LayoutShape` | components/arduino/tools/gen_esp32part.py:79-91 | With blank offsets every row gets an aligned place not before the last end, with its own type and size. |
| `Partition.LayoutOrdered` | components/arduino/tools/gen_esp32part.py:79-91 | And each entry starts after every earlier one ends. |
| `Partition.LayoutAccepted` | components/arduino/tools/gen_esp32part.py:79-91 | An automatic layout whose sizes come out non-negative is accepted by `verify`. |
| `Partition.GenerateTable` | components/arduino/tools/gen_esp32part.py:79-115 | With blank offsets and sizes given, fix-up and verification succeed. |
| `PartitionCodec.EntryFields` | components/arduino/tools/gen_esp32part.py:271-303 | Magic, type, subtype, offset, size, name and the encrypted flag stand at the offsets that the format string gives, numbers least significant byte first. |
| `PartitionCodec.EntryRoundTrip` | components/arduino/tools/gen_esp32part.py:271-303 | Every entry that `struct.pack` takes is read back, flags included, except that its name is cut at 16 bytes or a NUL. |
| `PartitionCodec.NormalIff` | components/arduino/tools/gen_esp32part.py:271-303 | Its name is unchanged if and only if it has at most 16 bytes and no NUL. |
| `PartitionCodec.EntryIsNoMarker` | components/arduino/tools/gen_esp32part.py:117-135 | No entry can be taken for the end marker or the MD5 marker. |
| `PartitionCodec.FromBinary` | components/arduino/tools/gen_esp32part.py:117-135 | The loop over 32-byte blocks returns the entries up to the end marker, having checked each digest, or the first error. |
| `PartitionCodec.TableRoundTrip` | components/arduino/tools/gen_esp32part.py:117-144 | Every table that `to_binary` accepts is read back entry by entry, with or without the digest: an end marker is always there and the digest agrees. |
| `PartitionCodec.WrittenIff` | components/arduino/tools/gen_esp32part.py:137-144 | A table is written if and only if types and subtypes fit a byte, offsets and sizes 32 bits, and the entries, with the digest if there is one, leave room for an end marker. |
| `PartitionCodec.BinaryBytes` | components/arduino/tools/gen_esp32part.py:137-144 | The file is 0xC00 bytes: the entries, the digest of the entries behind 0xEB 0xEB and fourteen 0xFF, if there is one, and 0xFF for the rest, at least 32 of them. |
| `PartitionCodec.EntryMagic` | components/arduino/tools/gen_esp32part.py:296-303 | Each entry begins with 0xAA 0x50. |
| `PartitionCodec.MarkerAcceptedIff` | components/arduino/tools/gen_esp32part.py:127-131 | A digest marker is accepted if and only if it holds the digest of the blocks before it. |
| `PartitionCodec.BadBlockRefused` | components/arduino/tools/gen_esp32part.py:121-135 | A block that is neither a marker nor an entry, a file that ends within a block and one without an end marker are refused, each with its own error. |
| `PartitionCodec.RecoveredIff` | components/arduino/tools/gen_esp32part.py:117-144 | It is recovered exactly if and only if all names have at most 16 bytes and no NUL. |
| `Button.Button.Read` | components/m5stack/src/utility/Button.cpp:51-79 | A read within the debounce time of the last change keeps the state; a later one follows the pin and stamps a change. |
| `Button.ChangesWhen` | components/m5stack/src/utility/Button.cpp:57-78 | Over any run a poll changes the state if and only if the pin differs from it and the true time since the last change of the run, modulo 2^32, is at least the debounce time. |
| `Button.Menu.Update` | main/menu.cpp:186-199 | The flag and the event are those of the specification. |
| `Button.Menu.Loop` | main/main.cpp:54-62 | Reading and updating in turn dispatches, poll after poll, the specified events. |
| `Button.PressedIs` | components/m5stack/src/utility/Button.cpp:57-58 | When the button listens, a low pin is a press if it is inverted, and a high one if it is not. |
| `Button.OnePress` | main/menu.cpp:186-199 | A press of a low pin, debounced for 5 ms, is a long push when polled 1000 ms after its first poll or later, and a short one if released before. |
| `Button.LastTwoPolls` | components/m5stack/src/utility/Button.cpp:60-76 | The time fields are those of the last two polls, and `_lastState` is the state before a change. |
| `Button.Debounced` | components/m5stack/src/utility/Button.cpp:57-73 | On every run any two accepted changes are at least the debounce time apart in true time, however often the clock wraps. |
| `Button.Settles` | components/m5stack/src/utility/Button.cpp:51-79 | A pin that keeps one level is followed once a poll comes late enough, and from then on. |
| `Button.EdgesAlternate` | components/m5stack/src/utility/Button.cpp:102-110 | Presses and releases alternate, beginning from the first state and ending in the last. |
| `Button.HoldMeasured` | components/m5stack/src/utility/Button.cpp:117-120 | While nothing changes, a button counts as held for the true time since its change, modulo 2^32. |
| `Button.OneEventPerPress` | main/menu.cpp:186-199 | On every run each completed press dispatches exactly one event: long if some poll found it held for 1000 ms, and short otherwise; a press not over yet dispatches only a long push. |
| `Button.EventsAreReleases` | main/menu.cpp:186-199 | So the events of a run are as many as its releases, and one more if a long push is still held. |

## Left out

- ImageFile.Save: requires that the packing loop ends, as the method could not return otherwise (`ImageTermination.EndsIff` says when it does).
- ImageTheorems.LoadedConserves: for segments padded to 4, flash addresses that are multiples of 4, and RAM segments that do not start at 0 or reach into a flash range, since the file does not tell such bytes apart.
- ImageFile.PackSegments: runs the two loops of the source as one, which takes RAM segments alone once no flash is left; copies of segments are values, so the aliasing that `deepcopy` prevents is not modelled.
- ImageLoad.Load: the warning for non-zero reserved header bytes is not modelled, and `start` is always 0.
- WString.String.Replace: `find` and the replacement are values, so a string replaced with itself as argument is not modelled. A write past the buffer is reported in place of being done, and nothing is said of the string after it. Sizes past 32 bits are not modelled.
- WString.ShiftDown: the overlapping `memcpy` of the shrinking branch, and its `strcpy`, copy as a forward copy does, as if by `memmove`; the C standard leaves them undefined.
- SpiClock.FrequencyToClockDiv: the source clock is the constant 80 MHz.
- Timer.M5Timer.Run: callbacks that call `run` again are not modelled; nor are negative timer ids, which the source does not check, nor changes by an interrupt during a run.
- TimerHistory.CalledOnTime: for periods below 2^31 ms, so that two periods fit the clock, as runs at most a period apart need; `TimerCount.CalledExactly` counts calls without any of that.
- FlatMap.Find: keys have a character that is not a space, because `trimWhitespace` reads before the string otherwise.
- FlatMap.Fields.Put: at most 16 entries a map, because `realloc` is given a count of entries where it needs bytes; allocation within a map is not modelled, and contents are values.
- MqttCache.Cache.Put: copying topic and data out of the message, display on the console and mutexes are not modelled.
- MqttCache.Cache.Free: emptying stands for freeing; that the inner map itself leaks in the cache's own callback (main/buffer.cpp:83-88) is not modelled.
- Cbuf.CircularBuffer.Resize: sizes near the largest `size_t`, where adding 1 wraps, are not modelled; nor is the linking field `next`.
- Cbuf.CircularBuffer.CopyOldest: one method for the copies that the source writes out both in bulk `peek` and in bulk `read`.
- Cbuf.CircularBuffer.Peek: a byte is a number from 0 to 255, so the sign of `char` is not modelled.
- PartitionCodec.FromBinary: names are bytes, so UTF-8 decoding errors are not modelled; an unknown flag is only a warning in the source and is ignored.
- Partition.FixUp: starts from parsed rows; CSV text, variables and size suffixes are not modelled.
- Button.Menu.Update: buttons A and C, which dispatch on a press, and the rest of `updateMenu` are not modelled.
- Version 1 and OTA images for the ESP8266, ELF parsing, flashing commands, chip detection and stubs of esptool.py.
- Python 2 paths of the tools.
- Wi-Fi, MQTT client, HTTP, widgets, display, sensors, float formatting and register-level drivers.
