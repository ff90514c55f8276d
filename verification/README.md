# Proofs about the 1-Wire host daemon

A model of the parts of the daemon whose correctness is not plain from reading one function, and proofs of
what they promise. The code's own steps are kept: what the daemon updates in place are fields and arrays
here, its loops are loops. Everything around it - bus, slaves, bootloader, disk, other threads - is an
environment that may do whatever the code cannot rule out.

| files | what they model |
|---|---|
| `RomSearch`, `RomSearchRuns` | the ROM search by discrepancies (Maxim Application Note 187) with the triplet command of a DS2482, and any run of its calls |
| `Polynomials`, `Crc16`, `Crc16Errors` | the CRC-16 by parity table (Maxim Application Note 27), polynomial division, the errors it is bound to notice |
| `FwFlash` | a firmware update over a link that may fail, lie or break off at any moment |
| `FwHex`, `FwHexMeaning`, `FwHexCoding`, `FwHexErrors` | the loader for Intel HEX files (Intel Hexadecimal Object File Format Specification, Rev. A), their meaning as a memory map, printing, wrong characters |
| `Watchdog`, `WatchdogOrigins`, `Ds2408`, `Roles`, `PioText` | the host's copy of a DS2408's outputs, silent resets and their recovery, where a restored byte comes from, switching by pin, mask and role, PIO.ALL as text |
| `SwitchState`, `SwitchHandler`, `SwitchRuns` | presses, timers, all lights off, the dark flags, any run of them |
| `SwitchLine`, `SwitchLineRoundTrip` | the lines of the switch table, printed and read |
| `Disk`, `ConfigSave` | saving the configuration on a disk that loses what was not synced |
| `DeviceIndex` | the sorted device array and the bus lists |
| `DevLock`, `DevLockCode` | the device lock with its deferred change events: any interleaving of any number of threads, and one thread's code among them |
| `PluginFiles`, `PluginTree` | the files of plugins as a tree |
| `RingBuffer`, `LogDump` | the circular buffer, and the time stamps of the 1-Wire trace |
| `Wrappers`, `Bits`, `Bytes`, `Octets`, `Ctype`, `Getline` | shared small things |

`dafny verify dfyconfig.toml` checks all of it.

## How to read it

- A method that changes state is specified by a function on values (`Step`, `Divide`, `ParseResult`, `Apply`,
  `Press`, `Parse`, `TakeAll`, ...); the theorems are lemmas about those functions and about runs of them.
- `*` in a method of the environment stands for anything it may answer or do.
- A `Slave` is `quiet` when every write to it is acknowledged, every register read passes its CRC or fails it,
  and it does not dim down by itself; it still resets silently. The record of a `Device` (`log`) is kept on a
  quiet bus, and `Valid()` says that host and slave are what the runs in `Watchdog` make of that record.
  The other contracts of `Device` hold on any bus.
- `FwLink`: a `faultless` one does as it is told. On any other a page write may leave its page in any state; it
  touches no other, and a read-back equal to the expected data is truthful. `moments` are the states of the flash at
  which a break-off may come, `answers` how each try to write a page went, `sent` what was sent.
- `Disk`: a crash leaves any version of the directory since it was last synced, and of a file what was synced
  or anything. Signals may interrupt any number of writes, but not for ever. `failures` counts the calls that failed
  otherwise, `minor` those to unlink and to sync the directory.
- Unbounded integers stand for the source's where it cannot overflow; widths that matter are written out
  (bit fields and bytes of a switch line, 16-bit words of the CRC, the page address).

## What the proofs show about the code

- `target_search()` sets the last discrepancy to 64, which is also the number of the last bit: of two ROMs
  alike in their first 63 bits the smaller one is never found (`TargetFindsLeast`, `TargetSkipsTwin`). The CRC
  in the last byte rules that out for real devices.
- `fw_flash()` checks the image, not the padded image, against the application size; both fit for every image
  exactly when that size is a whole number of pages (`PagesStayInside`).
- What is written between the read that sees a reset and its restore is undone by the restore
  (`WriteWhilePendingUndone`). Where that restore has nothing to restore, a further reset then goes unnoticed, and
  in that case only: `CopyTrueAfterRestore` and `RunKeepsCopy` give the two flags of the host to check.
- A restore that finds the outputs unknown clears the status and leaves what the reset left; the next clean read
  takes that for known, and the next restore writes it (`ResetAdopted`; so it is for a device first met after its
  power-up). `RestoredFromReset` and `HostCannotTell` say exactly when a restored byte is such a one. A write
  before such a restore hides the origin of the byte, and nothing but its origin (`BlindWriteHidesOrigin`).
- A plain press may leave its target on with a timer, when the table has a timed line of the same source and target
  behind the plain one (`PlainPressLeavesTimer`, `PlainAlwaysStops`). /switches/add refuses such a pair
  (`TypedInStops`), the configuration file's "switches" are loaded unchecked.
- The second check of `wdt_pending` in `watchdog_restore()` (src/ds2408.cpp:1535) cannot be true: nothing between
  it and the first one reads the registers. Its branch is `assert false` here.
- `pin_switch()` reports success for a plain pin whether or not the write was acknowledged; the pin is as asked for
  exactly if it was, or was so before. A level given to a plain pin clears every latch bit, which
  once acknowledged switches all plain outputs on (`PinSwitch`).
- `parse_all()` takes a comma behind the eighth item, against its comment, and nothing else that is not eight items
  (`TakenIfEight`).
- A switch with a type, a latch or an on-press value that does not fit its line does not survive being listed
  and added again; `Writable` says exactly which do.
- `save()` returning 0 does not mean durable when the directory could not be synced: the old text may then come
  back after a crash (`Save`).
- With more than 30 ROM codes some device kept is not found by its code, and is so in exactly that case
  (`AllFoundIfFits`).
- The stamps of a trace increase strictly exactly when the logged times never go back (`StampsIncrease`).

## Model

| member | source | states |
|---|---|---|
| RomSearch.Ds2482.ResetSearch | src/ds2482.cpp:688-696 | the state a sweep starts from: nothing stored, not exhausted, all eight address bytes 0 |
| RomSearch.Ds2482.TargetSearch | src/ds2482.cpp:674-686 | the family in the first byte, its lowest bit first on the wire, discrepancy 64, all else as after a reset |
| RomSearch.OneWireBus.Triplet | src/ds2482.cpp:739-748 | both bits are the wired AND of those taking part; in a conflict the way asked for, else the one there is; the others drop out |
| RomSearch.Ds2482.SetAddressBit | src/ds2482.cpp:764-768 | exactly one of the 64 stored bits changes |
| Bits.BitIsDigit | src/ds2482.cpp:723-723 | the mask 1 << k picks the binary digit that counts 2^k |
| RomSearch.Ds2482.SearchBit | src/ds2482.cpp:721-774 | one triplet of the descent: those still taking part are the devices alike so far, the last 0 taken against a 1 is remembered |
| RomSearch.Ds2482.Search | src/ds2482.cpp:698-788 | a call is one step of the search: a bus error at any triplet returns false and loses nothing; a result is the one device still taking part, of all or of those with an alarm as asked for, bit k of byte i being wire bit 8 i + k; the new discrepancy is the last position where it has a 0 and a device alike up to there a 1 |
| RomSearch.DescendStep | src/ds2482.cpp:745-768 | the meaning of the descent is kept by every triplet, whichever way it went |
| RomSearch.PartingBit | src/ds2482.cpp:721-774 | two different ROMs part at one bit: the order of ROMs is total |
| RomSearchRuns.FindsLeast | src/ds2482.cpp:698-788 | a result is the least ROM of those not listed yet |
| RomSearchRuns.AheadIsGreater | src/ds2482.cpp:776-780 | what is left to be listed afterwards is exactly the devices greater than the result |
| RomSearchRuns.ListedOrKept | src/ds2482.cpp:698-788 | no device is skipped: it is returned now or stays to be listed, also when the call breaks off |
| RomSearchRuns.AheadShrinks | src/ds2482.cpp:698-788 | nothing that was passed comes back; a call without a result changes nothing about what is left |
| RomSearchRuns.ResultsIncrease | src/ds2482.cpp:698-788 | over any run with devices coming, returned ones leaving and calls breaking off, results strictly increase: none comes twice |
| RomSearchRuns.ListedOrAhead | src/ds2482.cpp:698-788 | over such a run a device to be listed is among the results or still to be listed |
| RomSearchRuns.SweepIsComplete | src/ds2482.cpp:688-788 | an alarm sweep from reset_search() that ended has returned every device of its first call, also when devices left after they were returned |
| RomSearchRuns.ExhaustedWhenNoneLeft | src/ds2482.cpp:776-780 | the search is exhausted exactly when no device is left |
| RomSearchRuns.ListsExactly | src/ds2482.cpp:698-788 | on a fixed bus the calls list exactly what was left, each once, in order, then return false for good |
| RomSearchRuns.ResetSearchListsAll | src/ds2482.cpp:688-788 | from reset_search(): exactly all devices in the first |bus| calls in lexicographic order, no result in any later call |
| RomSearchRuns.TargetKeepsFamily | src/ds2482.cpp:674-686 | after target_search() a result is of the family while a device of it is there, and below all others of it but for one in the last bit |
| RomSearchRuns.TargetFindsLeast | src/ds2482.cpp:674-788 | the first result is the least ROM of the family if and only if no device differs from that ROM in the last bit alone |
| RomSearchRuns.TargetThenGreater | src/ds2482.cpp:674-788 | the calls after it list exactly the greater ROMs, in order |
| RomSearchRuns.TargetSkipsTwin | src/ds2482.cpp:726-733 | concrete pair of ROMs alike in 63 bits: the smaller one is passed by for good, since bit 64 equals the marker 64 |
| Crc16.ComputeCrc16 | src/ds2482.cpp:226-247 | the loop with the parity table computes the bitwise division, for every length and seed |
| Crc16.CheckCrc16 | src/ds2482.cpp:220-224 | true exactly if the two bytes are the inverted CRC, low byte first |
| Crc16.AcceptedBits | src/ds2482.cpp:220-224 | bit by bit: the first byte is the low half of the remainder, the second the high half, every bit inverted |
| Crc16.ParityTrick | src/ds2482.cpp:234-244 | two table look-ups and two shifts put eight bits through the division |
| Crc16.TableIsParity | src/ds2482.cpp:228-229 | the table is the parity of its index |
| Polynomials.DivideIsRemainder | src/ds2482.cpp:226-247 | the shift register is the remainder of polynomial long division by x^16 + x^15 + x^2 + 1 |
| Polynomials.DivideSum | src/ds2482.cpp:226-247 | the division is linear: remainders of sums are sums of remainders |
| Polynomials.DivideParity | src/ds2482.cpp:226-247 | the remainder keeps the parity of the message |
| Polynomials.BurstLeavesRemainder | src/ds2482.cpp:226-247 | a nonzero burst of 16 bits never divides evenly, wherever it is |
| Crc16Errors.CrcChains | src/ds2482.cpp:226-247 | the CRC of a concatenation is the CRC of its second part seeded with that of the first |
| Crc16Errors.AcceptedIfErrorDivides | src/ds2482.cpp:220-224 | a transmission is accepted if and only if the wrong bits are a multiple of the generator |
| Crc16Errors.OddErrorRejected | src/ds2482.cpp:220-224 | every error of an odd number of bits in message and CRC is rejected |
| Crc16Errors.BurstRejected | src/ds2482.cpp:220-224 | every error within 16 bits in a row is rejected, in the message, in the CRC or across |
| Crc16Errors.TwoByteErrorRejected | src/ds2482.cpp:220-224 | every change of a message within two adjacent bytes is rejected |
| FwFlash.BlInfoParse | src/fw_update.cpp:14-27 | an accepted answer has a page size of 1..256, told as its remainder by 256, and an application size told low byte first; version, last result and whether there is an application |
| FwFlash.SingleBitTest | src/fw_update.cpp:25-26 | n & (n - 1) is 0 exactly for the powers of two |
| FwFlash.InfoAccepted | src/fw_update.cpp:14-27 | an answer is accepted if and only if it has the signature and its page size, 0 standing for 256, is a power of two |
| FwFlash.PageWrite | src/fw_update.cpp:154-182 | every write sends the data to the page asked for; 0 if and only if the last try read back as written, and then the page is there; refused if and only if the last was; -EIO exactly after three failed tries; only that page was touched, at every moment; on a faultless link 0 if and only if the page is within the flash |
| FwFlash.PageWritten | src/fw_update.cpp:219-227 | one page more keeps every moment safe to break off at |
| FwFlash.FlashPages | src/fw_update.cpp:207-228 | page 0 erased first and written last: at every moment the rest is as before, or page 0 is erased, or the rest is the image; nothing is sent but the erased page and pages of the image to where they belong, each at most three times; it succeeds if and only if no try is refused and no three in a row fail, and then all of it is there and nothing behind it changed; on a faultless link it succeeds if and only if the padded image fits |
| FwFlash.FwFlash | src/fw_update.cpp:184-229 | the same for the whole update, success on a faultless link included, with its refusals, which touch nothing: no answer, an image that is empty or too large, one without a reset vector; the progress reports |
| FwFlash.PaddedLength | src/fw_update.cpp:199-202 | the image rounded up to whole pages with 0xff |
| FwFlash.NoHalfImageStarts | src/fw_update.cpp:203-228 | wherever it broke off: a device that finds something to start has all of the old application past page 0 or all of the new |
| FwFlash.SecondTryCompletes | src/fw_update.cpp:184-229 | an update done again after a break-off leaves what an undisturbed one leaves |
| FwFlash.PagesStayInside | src/fw_update.cpp:199-202 | no padded image goes past the application flash if and only if that is a whole number of pages |
| FwHex.DecodeLine | src/fw_update.cpp:52-75 | a line passes exactly if it is a record: colon, hex digits, length, checksum |
| FwHex.ApplyRecord | src/fw_update.cpp:76-117 | one record of any type on base, end and image, or the error |
| FwHex.FwParseHex | src/fw_update.cpp:37-128 | the loop over the lines computes the meaning of the text line by line, with the same error |
| FwHexMeaning.StoreMeans | src/fw_update.cpp:79-92 | storing data is one more write of the memory map: last writer wins, gaps 0xff, the end is the greatest |
| FwHexMeaning.LoadMeans | src/fw_update.cpp:46-118 | from any loader state the lines load exactly if they are well formed and in range, and leave the memory map of their writes |
| FwHexMeaning.ParseMeans | src/fw_update.cpp:37-128 | a file is accepted if and only if all lines are blank or records of known types, the last one and no other is the end, and the data is some and ends within 256 KiB; the image is the memory map of its records |
| FwHexMeaning.MeaningIsUnique | src/fw_update.cpp:37-128 | there is one image of a memory map |
| FwHexCoding.ReadRendered | src/fw_update.cpp:46-75 | a record printed in either case, with or without a carriage return, reads as that record |
| FwHexCoding.TrailingBlanks | src/fw_update.cpp:48-49 | carriage returns and spaces at the end of a line do not count |
| FwHexCoding.TrailingOther | src/fw_update.cpp:48-53 | anything else behind a record makes it an error |
| FwHexCoding.EncodingLoads | src/fw_update.cpp:37-128 | every file of records that describes an image loads as that image |
| FwHexCoding.EncodingTiles | src/fw_update.cpp:79-109 | data records behind extended linear addresses write the image byte by byte and nothing else |
| FwHexCoding.RoundTrip | src/fw_update.cpp:37-128 | every image of 1 byte to 256 KiB can be written as a file that loads as it |
| FwHexErrors.ChangedByteRejected | src/fw_update.cpp:67-75 | a record with any one byte changed is no record |
| FwHexErrors.ChangedCharacter | src/fw_update.cpp:46-75 | a line with one character replaced is read as the same record if that is the same hex digit in the other case, else as an error |
| FwHexErrors.WrongCharacter | src/fw_update.cpp:37-128 | one character of a record replaced, by a newline as well: the file is rejected unless it is the same hex digit, and then loads the same |
| Watchdog.StepIsSound | src/ds2408.cpp:1138-1271 | any write while no restore is due, silent reset, read or restore keeps: a known cache is what the slave was told, a pending restore holds it |
| Watchdog.RunIsSound | src/ds2408.cpp:1495-1547 | so over every run without a write between the read that saw a reset and its restore |
| Watchdog.RestoreRecovers | src/ds2408.cpp:1495-1547 | a restore brings back the byte last commanded before the reset with the PWM bits set, however many resets and reads there were, even with one more reset in between; an unknown byte is not written |
| Watchdog.SavedBeforeFirstSight | src/ds2408.cpp:1255-1268 | over every run what is restored is what was cached before the first read that saw the reset |
| Watchdog.KnownIsEstablished | src/ds2408.cpp:1255-1268 | over every run a byte taken for known is that of a write, a restore or a read while no reset showed, and no read saw a reset since; such a read may bring what a reset left, see WatchdogOrigins |
| Watchdog.WriteWhilePendingUndone | src/ds2408.cpp:1508-1512 | a write between the read and the restore is undone by it unless it wrote the same byte |
| Watchdog.CopyTrueAfterRestore | src/ds2408.cpp:1495-1547 | for every state with a restore due: whatever further reset comes right before it or within it, a cache then taken for known is what the slave drives, if and only if there is something to restore or no write since has made the outputs known |
| Watchdog.RunKeepsCopy | src/ds2408.cpp:1138-1547 | over every run without a restore of that kind, whatever is written when: a known cache is what the slave was told, and drives unless it shows a reset |
| Watchdog.RiskyRunLosesReset | src/ds2408.cpp:1502-1515 | and every run that gets to such a restore has one alike but for one reset more that ends with a wrong copy and no reset to show for it |
| Watchdog.ResetLost | src/ds2408.cpp:1502-1515 | a short run that gets to such a restore and ends with a known but wrong cache and no flag left: reset seen with outputs unknown, write, reset, restore |
| WatchdogOrigins.OriginsAreTrue | src/ds2408.cpp:1138-1547 | over every run the tags of the slave's byte, the cache and the byte to restore are true: each is a byte a reset left, or one the host wrote or the slave drove before any reset, but for bits that a restore of the run set for the PWM pins |
| WatchdogOrigins.RestoredFromReset | src/ds2408.cpp:1508-1515 | over every run without a write while a restore with unknown outputs is due: the byte to restore is one a reset left if and only if, since the last write that no restore undoes, a restore found the outputs unknown |
| WatchdogOrigins.KnownFromReset | src/ds2408.cpp:1255-1268 | over the same runs, the same of the byte the host goes by |
| WatchdogOrigins.NeverWithoutBlindRestore | src/ds2408.cpp:1138-1547 | over every run, whatever is written when: as long as no restore found the outputs unknown, no byte a reset left is known or restored |
| WatchdogOrigins.HostCannotTell | src/ds2408.cpp:1138-1547 | for every run: among the runs in which the host sees the same, every byte written and read included, one has a byte to restore that a reset left, if and only if an account kept from what the host sees says so; then one even ends with host and slave in the very same state |
| WatchdogOrigins.BlindWriteHidesOrigin | src/ds2408.cpp:1508-1515 | why RestoredFromReset and KnownFromReset need their condition: after any run and a write while a restore with unknown outputs is due, a further reset changes the origin of the byte to restore next, and goes unseen if and only if it leaves just the byte written; then only the origin is hidden, all bytes are the same. Any other byte it leaves is seen at the next clean read |
| WatchdogOrigins.AdoptsExactly | src/ds2408.cpp:1505-1515 | for every state with a restore due: reset, restore, read, reset, read leaves to be restored just what the first reset left, whatever that was, if and only if the restore finds the outputs unknown |
| WatchdogOrigins.ResetAdopted | src/ds2408.cpp:1255-1266 | concrete run: a device first met after a reset and never written has what that reset left restored after the next one |
| Ds2408.Device.PwmMask | src/ds2408.cpp:971-980 | exactly the bits of the PWM pins |
| Ds2408.OutputCfgs | src/ds2408.cpp:709-726 | of the configurations there are exactly low, high and PWM outputs count as outputs |
| Ds2408.Device.LatchReset | src/ds2408.cpp:863-912 | the latches of slave and cache cleared when acknowledged, else after 19 tries nothing changed |
| Ds2408.Device.PioWrite | src/ds2408.cpp:982-1039 | acknowledged: slave and cache hold the byte with the PWM bits set, outputs known, the latches reset behind it unless 19 tries of that failed; else, after exactly 19 tries, nothing about the cache changed |
| Ds2408.Device.PioSet | src/ds2408.cpp:982-1066 | the same, and on a quiet bus one Write more in the record |
| Ds2408.Device.LevelSet | src/ds2408.cpp:1420-1437 | the level capped at 100, kept only when acknowledged; the pin told to run at its duty, to stop at once or to dim down; no other pin |
| Ds2408.LevelsAreApart | src/ds2408.cpp:1423-1429 | a pin is told to run exactly if its level is not 0, each of the 101 levels at a duty of its own, in order, from 0 to 254 |
| Ds2408.Device.PinSwitch | src/ds2408.cpp:923-963 | a plain pin is as asked for if and only if the write was acknowledged or it was so already, while 0 is returned in any case; a PWM pin is so when 0 is returned; all others stay but for a level given to a plain pin, which once acknowledged switches all plain ones on |
| Ds2408.Device.PioMask | src/ds2408.cpp:227-236 | the pins that are on |
| Ds2408.Device.PioMaskSet | src/ds2408.cpp:238-257 | each pin as asked for or as before, all plain ones alike, with all writes acknowledged all as asked for; a pin that is right already keeps its level |
| Ds2408.Device.RoleSwitch | src/ds2408.cpp:469-496 | the number of outputs of the role still not as asked for, whichever writes failed; no other pin goes on or off |
| Ds2408.Device.ReadTries | src/ds2408.cpp:1159-1228 | up to 19 tries, gone on with only after a bad CRC or no answer; the registers of the last one with no bad CRC are kept, and which are those on a quiet bus; an error exactly if one of the tries without a status had one; the bad CRCs counted |
| Ds2408.Device.NoteStatus | src/ds2408.cpp:1251-1268 | what the first read that shows a reset keeps, and what later ones leave alone |
| Ds2408.Device.RegRead | src/ds2408.cpp:1138-1271 | 0 exactly if the last try failed its CRC, 0xff without a latch reset exactly if no try got a status, the last one not for a bad CRC, and one had a bus error; which try gave the outputs and the status; the latches handed on are those read, not what the latch reset leaves; the slave's latches change only by a latch reset; what is remembered for the restore is as that status says, from what was cached before; on a quiet bus one Read or BadRead more in the record |
| Ds2408.Device.AlarmRead | src/ds2408.cpp:1109-1120 | the latches read are handed over and added to those kept; on a quiet bus no latch is lost: it is handed over or still set on the slave |
| Ds2408.Device.StatusClear | src/ds2408.cpp:1072-1100 | 0: the flags of the slave are cleared |
| Ds2408.Device.Recover | src/ds2408.cpp:1502-1522 | on a quiet bus the whole state afterwards is that of one Restore |
| Ds2408.Device.RestoreLevels | src/ds2408.cpp:1516-1522 | levels unchanged; without a failure every PWM pin with a level has it again, no other pin gets a command |
| Ds2408.Device.WatchdogRestore | src/ds2408.cpp:1495-1547 | nothing pending: nothing done; outputs unknown: no PIO write; else the kept byte with the PWM bits in slave and cache, all levels; on a quiet bus one Restore more in the record |
| Ds2408.Device.ReadAll | src/ds2408.cpp:261-273 | the pins that are on as text, after an optional read, which leaves the latches alone |
| Ds2408.Device.WriteAll | src/ds2408.cpp:276-287 | unreadable text: -EINVAL and nothing changed; what reads back as the pins that are on changes no pin and no level, whichever writes fail |
| Roles.RoleSwitch | src/ow_devices.cpp:607-622 | over all devices the number of outputs still not as asked for, each device keeping its other pins |
| PioText.FmtAll | src/ds2408.cpp:159-165 | eight bits with commas between them |
| PioText.ParseAll | src/ds2408.cpp:180-199 | taken exactly if it has eight items that are 0 or 1 but for white space |
| PioText.ItemIs | src/ds2408.cpp:188-191 | white space before and behind an item does not count |
| PioText.ParseInvertsFmt | src/ds2408.cpp:159-199 | what fmt_all() writes parse_all() reads as the same byte |
| PioText.WrittenBack | src/ds2408.cpp:167-199 | also with white space behind it, or a NUL and anything |
| PioText.TakenIfEight | src/ds2408.cpp:179-199 | for every text: eight items are taken as what they say; what is taken is eight items if and only if it does not end in a comma, else it is so without that comma |
| PioText.TrailingCommaTaken | src/ds2408.cpp:187-198 | what is printed with a comma behind it is taken, though it is not eight items |
| Getline.GetLine | src/fw_update.cpp:46-46 | one line of a text in memory; false at its end |
| Getline.FieldsOfSplit | src/fw_update.cpp:46-46 | of all the pieces between delimiters the one never given is an empty last one |
| Getline.FieldsJoin | src/fw_update.cpp:46-46 | a text that ends in the delimiter does not run into what follows |
| SwitchState.SourcesAreLatches | src/switch_handler.cpp:196-209 | the presses of an alarm: one for every set latch bit, ascending |
| SwitchState.SourcesTell | src/switch_handler.cpp:224-259 | each tells a set latch, bus and address in their bit fields and the kind of press: held, longer than 350 ms in steps of 32, or short; and every set latch is told |
| SwitchHandler.Handler.BitNumber | src/switch_handler.cpp:196-209 | the lowest set bit, taken off; 0xff only without any |
| SwitchHandler.Handler.SrcData | src/switch_handler.cpp:224-259 | the source of the lowest latch with its kind of press, bus and address cut to their bit fields |
| SwitchHandler.Handler.ActorHandle | src/switch_handler.cpp:266-279 | switches an existing target, leaves all else alone |
| SwitchHandler.Handler.TimerPoll | src/switch_handler.cpp:524-548 | all expired timers taken off and their targets off, no others; how many |
| SwitchHandler.Handler.AllLightsOff | src/switch_handler.cpp:431-452 | every light that is an output off and every light without its timer; no other pin and no other timer changes |
| SwitchHandler.Handler.SwitchTimed | src/switch_handler.cpp:468-490 | the press of a timed switch as the four cases of its state |
| SwitchHandler.Handler.SwitchHandle | src/switch_handler.cpp:284-346 | the lowest latch taken off, also when disabled; then every line of the table in order |
| SwitchHandler.Handler.DevAlarm | src/switch_handler.cpp:606-662 | an alarm is the presses of all its set latches, lowest first, done before the bound of 8; none after a reset or with 0xff; when it counts as handled |
| SwitchHandler.Handler.HandleOne | src/switch_handler.cpp:306-343 | one line of the table: not its source or disabled, held back by day, all off, timed, or plain |
| SwitchRuns.HandleAt | src/switch_handler.cpp:306-344 | what any line of the table does to any target |
| SwitchRuns.PressAt | src/switch_handler.cpp:284-346 | what any press does to any target, whatever the table: its lines applied one after the other to that target alone |
| SwitchRuns.LightsGoOff | src/switch_handler.cpp:336-338 | a press that gets to an enabled line for 0.0.0 leaves every light that is an output off and without a timer, unless a line behind it switches that light |
| SwitchRuns.OthersUntouched | src/switch_handler.cpp:304-343 | a target no line of the source is for keeps pin and timer |
| SwitchRuns.PressIsLine | src/switch_handler.cpp:284-346 | where one line aims at a target, a press does to it what that line says, whatever the other lines do |
| SwitchRuns.TimedPress | src/switch_handler.cpp:468-490 | a timed line of any press, whatever lines are before and behind it, by the state it is come to in: on and its timer set, kept off by day, off, restarted, or left on without a timer; then the lines behind it |
| SwitchRuns.TimedPressAlone | src/switch_handler.cpp:468-490 | the whole press where no other line of the same source reaches the target |
| SwitchRuns.RunIsSound | src/switch_handler.cpp:284-548 | over any run of alarms, polls and changed settings a target whose timer runs is on |
| SwitchRuns.PlainPressStops | src/switch_handler.cpp:336-342 | after a press of a plain switch its target has no timer, also when the press was held back, where no timed line of the same source and target stands behind it |
| SwitchRuns.PlainAlwaysStops | src/switch_handler.cpp:304-343 | for every table: a plain press leaves its target without a timer in every state and whichever lines are disabled, if and only if no timed line of the same source and target stands behind a plain one |
| SwitchRuns.PlainPressLeavesTimer | src/ow_devices.cpp:107-108 | concrete table, as the configuration file may hold it: a plain and a timed line of one source and target, the press leaves the light on with a timer |
| SwitchRuns.TypedInStops | src/switch_handler.cpp:782-937 | tables made through /switches/add, del, disable and enable alone never hold a pair of source and target twice, so there a plain press always decides |
| SwitchRuns.TimerHolds | src/switch_handler.cpp:492-548 | a run that does not reach a target keeps its timer and leaves it on |
| SwitchRuns.GoesOffInTime | src/switch_handler.cpp:492-548 | a timed target goes off, its timer gone, at the first poll at or after its time and at none before |
| SwitchRuns.TimerStarted | src/switch_handler.cpp:468-498 | every running timer was set by a press of an enabled timed switch of its target, to that press plus its seconds, and not changed since |
| SwitchRuns.FlagDecides | src/switch_handler.cpp:400-409 | whether a dark line may switch on: the flag of the target's room if that has one, else the astro flag, both ways |
| SwitchRuns.NeverOnByDay | src/switch_handler.cpp:322-331 | over a whole alarm a target whose matching lines all wait for the dark stays off by day, by the flag of its room if there is one, else by the astro flag |
| SwitchLine.ReadNumbers | src/switch_handler.cpp:118-128 | the six numbers with their delimiters skipped, and where they end |
| SwitchLine.ReadOptions | src/switch_handler.cpp:155-163 | up to two more numbers, and where they end |
| SwitchLine.ParseBuf | src/switch_handler.cpp:91-182 | the parser computes, step by step through the buffer, what a line means, and takes and refuses the same lines |
| Ctype.SpaceCodes | src/switch_handler.cpp:119-119 | white space is tab to carriage return and space, digits are 0 to 9 |
| SwitchLineRoundTrip.FromCharsDec | src/switch_handler.cpp:122-127 | a printed number reads as itself and leaves the rest |
| SwitchLineRoundTrip.LineReadBack | src/switch_handler.cpp:726-741 | what a printed line is read as, for every value of every field and any text after its colon |
| SwitchLineRoundTrip.NumbersRead | src/switch_handler.cpp:118-128 | numbers behind any delimiters are read, unless one is past the range of an int |
| SwitchLineRoundTrip.StrangerRefused | src/switch_handler.cpp:118-128 | anything but a digit, a delimiter or white space where a number is due makes the line an error |
| SwitchLineRoundTrip.TypedLine | src/switch_handler.cpp:91-182 | any line as it may be typed: taken exactly if each number fits an int, the seconds 16 bits and the on-press value is 0 or 1; then the fields those numbers stand for, options missing or not, and the condition if the rest starts with "dark"; for 0.0.0 neither timing nor condition |
| SwitchLineRoundTrip.LatchReadBack | src/switch_handler.cpp:684-691 | the latch code keeps latch and press exactly for 0..10 short, 1..10 long, 1.. long started |
| SwitchLineRoundTrip.RoundTrip | src/switch_handler.cpp:726-741 | a printed line reads as the same switch if and only if the switch is one a line can say |
| Disk.OtherFileChanged | src/ow_devices.cpp:311-330 | a file no version of the directory has at the path does not matter to what a crash leaves there |
| Disk.VersionAdded | src/ow_devices.cpp:336-337 | a new version of the directory adds exactly its own outcome |
| Disk.CrashOutcome | src/ow_devices.cpp:291-353 | what is left of a crash is one of the outcomes |
| ConfigSave.WriteAll | src/ow_devices.cpp:317-330 | short writes and interrupted ones: 0 if and only if no call failed but by a signal, and then all of the text is in the file |
| ConfigSave.WriteSynced | src/ow_devices.cpp:317-335 | 0 if and only if no call failed but by a signal, and then all of the text is in the file and synced |
| ConfigSave.Save | src/ow_devices.cpp:291-353 | every state on the way is one of five moments of a save: nothing done, temporary file open, given up, renamed, directory synced; which one it ends at, 0 exactly from the rename on; a crash at any moment leaves a complete old text or the complete new one; a negative return leaves the file and every crash outcome as they were; 0 means it reads as the new text, and a crash leaves that alone if the directory was synced, else also what it left before; it succeeds if and only if no call it depends on failed but by a signal, and with no other failure the directory is synced or the temporary file gone |
| ConfigSave.MomentKeeps | src/ow_devices.cpp:310-349 | what each of those moments means for a reader and for a crash |
| ConfigSave.StepKeeps | src/ow_devices.cpp:291-353 | a save that returned, or one cut off by a crash, lets in only its own text, and only from its rename on |
| ConfigSave.CrashIsReady | src/ow_devices.cpp:291-353 | after a crash the next save can start, and what a further crash leaves the first one could have left |
| ConfigSave.RunHolds | src/ow_devices.cpp:291-353 | over every run of saves that returned and saves a crash cut off anywhere: what a crash leaves is what one could have left at any earlier step or all of the text of a save since that got to its rename |
| ConfigSave.SettledStays | src/ow_devices.cpp:343-349 | a save whose directory was synced is never gone back on, whatever is saved or cut off after it |
| ConfigSave.Life | src/ow_devices.cpp:291-353 | any number of calls of the save, each maybe cut off before it changed anything or at any state of the disk on the way, is such a run |
| DeviceIndex.OwDevices.LowerBound | src/ow_devices.cpp:382-387 | where a code belongs |
| DeviceIndex.OwDevices.Find | src/ow_devices.cpp:411-424 | the device the map has for a code, null without one |
| DeviceIndex.OwDevices.AddDevice | src/ow_devices.cpp:382-409 | the map with one device more, or unchanged when the code is there or the array is full; still strictly sorted |
| DeviceIndex.OwDevices.Insert | src/ow_devices.cpp:397-408 | the slots behind it moved up by one |
| DeviceIndex.InsertedMap | src/ow_devices.cpp:397-408 | an inserted slot is one more entry of the map |
| DeviceIndex.OwDevices.UpdateData | src/ow_devices.cpp:470-500 | the devices kept, the index and the bus lists are those of taking over the devices one after the other |
| DeviceIndex.KeepsFirsts | src/ow_devices.cpp:479-491 | up to 30 codes: exactly the first device of each code is kept, and exactly all codes are indexed |
| DeviceIndex.FirstIsFirst | src/ow_devices.cpp:484-488 | a device kept is before all others of its code |
| DeviceIndex.AllFoundIfFits | src/ow_devices.cpp:396-396 | every device kept is found by its code if and only if there are no more than 30 codes |
| DeviceIndex.OwnBusOnly | src/ow_devices.cpp:489-489 | a device is in the list of its own bus and in no other |
| DevLock.StepIsSound | src/ow_dev.cpp:24-62 | every step of every thread keeps: depth counts the locks of the holder, no lock lies below events being handed out, nothing is queued at depth 0, no event is lost or made |
| DevLock.RunIsSound | src/ow_dev.cpp:24-62 | so over every interleaving of any number of threads |
| DevLock.FreeMeansNothingPending | src/ow_dev.cpp:34-36 | while nobody holds the lock no event is queued |
| DevLock.HandsOutsideTheLock | src/ow_dev.cpp:41-52 | no thread hands out an event while it holds the lock, however deep the call |
| DevLock.HandedOnce | src/ow_dev.cpp:30-62 | raised events are queued, being carried or handed out, counted with multiplicity: none twice, each exactly once when all threads are done |
| DevLock.WaitsForAnother | src/ow_dev.cpp:24-28 | a thread waits for the lock exactly while another one has it, and that one can go on |
| DevLock.AllCanFinish | src/ow_dev.cpp:24-62 | from every state a run gets to all threads can come to their end with every event raised handed out: no deadlock |
| DevLockCode.OwDev.Others | src/ow_dev.cpp:24-62 | whatever the other threads do, a thread that holds the lock finds holder, depth and queue as it left them |
| DevLockCode.OwDev.Construct | src/ow_dev.cpp:24-28 | the lock is held one deeper; the outermost one starts with an empty queue; a thread that has it always gets it, and waits for ever only with another one in it |
| DevLockCode.OwDev.CountDown | src/ow_dev.cpp:34-35 | the queue is taken exactly when the depth gets to 0 |
| DevLockCode.OwDev.HandNext | src/ow_dev.cpp:41-43 | one event handed to the plugins, and the lock is not held by the thread then |
| DevLockCode.OwDev.HandOut | src/ow_dev.cpp:41-52 | all of the events, whatever plugins and other threads do with the device meanwhile |
| DevLockCode.OwDev.Destruct | src/ow_dev.cpp:30-53 | when the outermost lock is gone all that was queued is handed out; an inner one leaves lock and queue alone |
| DevLockCode.OwDev.NotifyChange | src/ow_dev.cpp:55-62 | without an outer lock the event is handed out on return, else it waits at the end of the queue; it waits for ever only with another thread in the lock, never for itself |
| PluginFiles.Plugins.FileAdd | src/plugins.cpp:447-482 | added or resized exactly when allowed; the files stay valid paths outside the daemon's names, none below another |
| PluginFiles.Plugins.FileRemove | src/plugins.cpp:484-493 | removed exactly when it is there and the owner's |
| PluginFiles.Plugins.FilesDrop | src/plugins.cpp:495-500 | exactly the files of the others are left |
| PluginFiles.Plugins.FileAttr | src/plugins.cpp:502-513 | the size of a file, 0 for what is above one, else -ENOENT |
| PluginFiles.Plugins.FileDir | src/plugins.cpp:515-531 | exactly the first names below the directory, each once, in lexicographic order |
| PluginFiles.BeforeDecides | src/plugins.cpp:518-530 | the order of names: a part of a name first, else by the first character that differs |
| PluginFiles.ValidPath | src/plugins.cpp:423-437 | no part is empty, "." or ".." |
| PluginTree.ListedIsThere | src/plugins.cpp:502-531 | a name is listed in a directory if and only if there is a file or directory of that path |
| PluginTree.ReachesAll | src/plugins.cpp:502-531 | from the root a walk along its parts leads to every registered file |
| PluginTree.ReachesOnly | src/plugins.cpp:502-531 | every walk ends at something that exists, at a file only if it is a registered one |
| RingBuffer.RingBuffer.Push | lib/ring_buffer/ring_buffer.h:88-104 | one element more at the end; on a full buffer the oldest goes, and that is reported |
| RingBuffer.RingBuffer.Pop | lib/ring_buffer/ring_buffer.h:111-119 | the newest element, taken off; an empty buffer stays empty |
| RingBuffer.RingBuffer.At | lib/ring_buffer/ring_buffer.h:128-131 | the element of an index, the oldest first; past the end the newest |
| RingBuffer.RingBuffer.Clear | lib/ring_buffer/ring_buffer.h:146-146 | empty |
| RingBuffer.KeepsLast | lib/ring_buffer/ring_buffer.h:88-104 | nothing but pushes leaves the last S of them |
| LogDump.LogTimes | src/ds2482.cpp:175-206 | the loop computes the stamps one by one from the buffer's contents |
| LogDump.StampsIncrease | src/ds2482.cpp:175-206 | each stamp is later than the one before if and only if no event was logged with an earlier time than the one before it |

## Left out

- I2C and GPIO access, sleeps, error codes and timing of the DS2482: an answer or a failure of the bus instead.
- FUSE entry points, the role and room files and the matching of their tables: finite checks of tables.
- JSON, plugin loading and the JavaScript engine, astro times: foreign code or floating point.
- ds1820, ds2450, ard_i2c, command line, logger, number parsing: only easy claims.
- Log texts, the header of a trace, status strings of an update, loading of binary images.
- The cap of 10 devices in one pass of the alarm handler: completeness is stated for `search()`.
- Recovery of a list of switch lines after a bad one: the round trip is stated line by line.
- A firmware update in progress (`fw_busy`), which makes reads and writes of the device fail at once.
- Ds2408.Device.LevelSet: how the device dims is not modelled.
- Ds2408.Device.RegRead: off a quiet bus a try without any answer or after a bus error is taken unchecked, so its registers are tied to that try and not to the slave.
- Ds2408.Device.LatchReset: the slave keeps its reset flag over a latch reset, as its newer firmware does; with older firmware a reset right before one is missed (comment above status_clear()).
- Watchdog.RunIsSound: takes register tries answered with all 0xff and dimming down to be absent, and no write between the read that saw a reset and its restore; `WriteWhilePendingUndone`, `RunKeepsCopy` and `RiskyRunLosesReset` say what such a write does and does not do.
- WatchdogOrigins.RestoredFromReset: after a write while a restore with unknown outputs was due it depends on whether a reset came that left just the byte written, which nothing the host sees shows (`BlindWriteHidesOrigin`); `HostCannotTell` and `NeverWithoutBlindRestore` hold for those runs, too.
- Watchdog.RestoreRecovers: one silent reset may fall between clearing the status and the PIO write; the status and write steps themselves are atomic.
- Roles.RoleSwitch: the devices and their slaves are different objects, as OwDevices keeps them.
- SwitchHandler.Handler.DevAlarm: what the register read brought is an input, see `AlarmRead`; the recovery after a reset, the plugins told of it and other families are left out; one clock reading stands for all timers an alarm starts.
- SwitchHandler.Handler.AllLightsOff: role_switch() with every write acknowledged; what it does otherwise is stated for Ds2408 and Roles.
- SwitchLineRoundTrip.TypedLine: an option past the range of an int is not stated; it is left where it is, as text behind the options.
- SwitchRuns.TypedInStops: an edit is one line read as in `SwitchLine`.
- SwitchRuns.RunIsSound: writes are acknowledged, targets are of type 0 and nothing but the handler switches them; a target of an unknown device may have a timer.
- SwitchRuns.GoesOffInTime: time is an integer, poll and press read it once.
- SwitchLine.ParseBuf: characters are those of the C locale; the values of a line that is refused are not stated.
- ConfigSave.Save: the text is given, building it from the configuration is not modelled.
- Disk.FileSystem.Write: a write of some bytes never reports 0.
- DeviceIndex.OwDevices.UpdateData: bus numbers are below 4; for another one the source indexes past its list.
- DevLock.HandedOnce: an event whose plugin throws counts as handed out.
- DevLockCode.OwDev.Destruct: plugins call back to any finite depth, given as fuel; a thread that waits for the lock for ever goes no further.
- PluginFiles.Plugins.FileAdd: the daemon's own names are any fixed predicate.
- RingBuffer.RingBuffer.Pop: of an empty buffer the value is not stated, the source calls it unpredictable.
- LogDump.LogTimes: only the time stamps; they do not wrap at 64 bits, and the text is not cut off at the buffer's end.
- Lock order and memory ordering of the mutexes other than the device lock.
