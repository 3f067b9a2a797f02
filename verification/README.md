# KessOS2 and gnu-efi: models and proofs

KessOS2 is a small x86_64 kernel that is started through a copy of the gnu-efi library. This project
models the parts of both that hold state or do arithmetic that is easy to get wrong, and proves what
they are for. Check it with `dafny verify dfyconfig.toml`.

| files | model | main results |
|---|---|---|
| `Paging`, `Vmm` | the four-level page tables (section 4.5 of the Intel SDM, volume 3A), the frame allocator and `map_page`, which calls itself for every table frame it takes | the walk of the finished tables is the identity below 6 GiB and on the frames taken, and fails everywhere else; a frame budget is kept by every nested call, and the frames are exactly as many as the tables needed |
| `Glob`, `GlobLaws` | `MetaMatch` | equal to the language of the pattern, for all strings and all patterns with closed sets; laws that determine this language character by character |
| `Digits`, `DigitLaws`, `Format`, `FormatLaws`, `Printing` | the printing engine with its 200-cell buffer and its three kinds of target | everything that is flushed is a buffer-free rendering of format and arguments; the bounded string holds a prefix, the growing string everything; numbers read back; laws that determine every rendering |
| `DevicePath`, `DevicePathEdit`, `DevicePathUnpack`, `DevicePathMatch` | device paths (section 9.3.1 of the UEFI 2.4 specification) as bytes, nodes and instances | splitting and joining are inverse; what appending, unpacking and matching mean for the nodes and instances |
| `Crc32`, `CrcResidue`, `TableHeader` | the reflected CRC (section 8 of RFC 1952) and the table header checks | table-driven equals bit-serial; any change within 32 consecutive bits is detected; the residue and the check value |
| `Division` | the shift-subtract loop | correct for all dividends if and only if the divisor is at most 2^31 |
| `Lists` | the circular list macros and `RtConvertList` | the macros act on the represented sequence; conversion happens once per link |
| `Handles`, `Reinstall` | installing, uninstalling and reinstalling several protocols (section 6.3 of the UEFI 2.4 specification) | all or nothing, with conditions a caller can check; exactly when a rollback restores the handle database, and when reinstalling reaches the caller's handle |
| `GrowBuffers` | `GrowBuffer` and the loops around it | the loop ends whatever the firmware does, and no block is lost |
| `Relocation` | the two ELF self-relocators | each listed word is written once, and the two write rules agree if and only if the words hold their addends |

`Options` and `Words` hold an optional value and the machine's words. The objects that the code updates
in place are classes (`AddressSpace`, `Printer`, `Target`, `ListEntry`, `Firmware`) or arrays; loops are
loops. What the code takes from outside is a parameter: the memory map and the RAM (`Vmm`), the handle
database and what it refuses (`Handles`), the pool and the service with its answers (`GrowBuffers`), the
virtual address map (`Lists`).

## Where the code and its comments differ

* `SwapListEntries` says it puts the second entry before the first. When it is there already, the
  macro links it to itself and the first entry is on no ring any more (`SwapListEntries`, `SwapTwo`).
* `DivU64x32` says it works for 31-bit divisors. It also works for 2^31, and for no larger one
  (`CorrectDivisors`, `LostCarry`).
* `AppendDevicePath` says that the second path is appended to each instance of the first. This is true
  only for a single instance (`AppendedToEachIffSingle`, `NotAppendedToEach`), because the end node of the
  second path is copied along. With several instances the writes exceed the block when the second path
  is longer (`WritesFit`, `WritesPastTheBlock`).
* `DevicePathInstance` splits instances of more than 513 nodes (`PiecesAreInstances`).
* `UnpackDevicePath` stores sixteen bits of the rounded length, so that its result is a path only if
  no node is longer than 65532 bytes; and with an alignment of eight, as on aarch64, its end node has
  eight bytes and the result is never a path (`UnpackedPathGood`, `LongNodeUnpacked`, `EndNodeUnpacked`).
* The `-` flag of `_Print` is said to justify on the left. It does nothing to an item without a field
  width (`MinusNeedsField`), and moves only the spaces (`MinusMovesSpaces`). The comment above `_Print`
  also calls the number before the dot the width, and that one always pads on the left.
* `%lu` goes through a signed number, so that exactly the values below 2^63 are shown; larger ones are
  printed as negative, and 2^63 itself depends on an overflow (`UnsignedShown`, `UnsignedNotShown`).
* `VSPrint` does not terminate a string whose size leaves room for the terminator only (`VSPrint`).
* `LibReinstallProtocolInterfaces` hands the firmware the address where the caller keeps its handle,
  and not the handle. A list of changes that both could take reaches the caller's handle exactly when
  the two are the same or the changes come to nothing anyway; for an address that is no handle, only the empty list succeeds
  (`LibReinstallProtocolInterfaces`, `AddressNotServed`, `HandleNotServed`).
* The same function undoes its changes in the order in which they were made. This restores every
  interface exactly when it does so for the changes of each protocol by itself, as it does for distinct
  protocols but not for every repeated one (`RollbackIffRestores`, `RepeatedProtocolNotRestored`,
  `RepeatedProtocolRestored`).

## Model

| member | source | states |
|---|---|---|
| `Paging.WalkIsIdentity` | kernel/src/arch/memory/impl/vmm.c:38-74 | on tables that satisfy the invariant, the processor's walk, large pages included, translates exactly the mapped pages, each to itself, with writable and user set and execution allowed |
| `Paging.DescendFollowsTree` | kernel/src/arch/memory/impl/vmm.c:54-70 | following present entries from the PML4 reaches the table recorded for an address if there is one, and an absent entry otherwise |
| `Paging.LinkRead` | kernel/src/arch/memory/impl/vmm.c:54-70 | an upper-level entry is a present, writable, user link to the next table, and no large page, exactly when that table exists, and else zero |
| `Paging.TableEntry` | kernel/src/arch/memory/vmm.h:10-15 | a present entry is the address of its page or table plus 7, and no other bit is set |
| `Paging.IndexFields` | kernel/src/arch/memory/impl/vmm.c:41-44 | the four indices are the nine-bit fields of the address at 39, 30, 21 and 12 |
| `Paging.AncestorsPresent` | kernel/src/arch/memory/impl/vmm.c:47-68 | a table exists only if every table above it does |
| `Paging.WithTableTree` | kernel/src/arch/memory/impl/vmm.c:47-51 | linking in the zeroed next frame keeps the invariant: distinct frames within the segment, one link to each table, entries absent or identity leaves or links |
| `Paging.WithTableExtends` | kernel/src/arch/memory/impl/vmm.c:47-51 | doing so changes no present entry, moves no table and maps no page |
| `Paging.WithLeafTree` | kernel/src/arch/memory/impl/vmm.c:71-73 | writing an absent leaf keeps the invariant |
| `Paging.WithLeafExtends` | kernel/src/arch/memory/impl/vmm.c:71-73 | writing an absent leaf maps that page, no other, and changes no present entry |
| `Paging.ExtendsTrans` | kernel/src/arch/memory/impl/vmm.c:38-74 | what stays unchanged over one step stays unchanged over any number |
| `Vmm.AddressSpace.AllocPage` | kernel/src/arch/memory/impl/vmm.c:28-35 | the next frame, with one page fewer left and 64-bit wrap-around, or NULL and no change |
| `Vmm.AddressSpace.EnsureTable` | kernel/src/arch/memory/impl/vmm.c:47-70 | afterwards the next table for the address exists; a frame taken for it is mapped, every frame taken is paid for by one page of the segment, and nothing present changes |
| `Vmm.AddressSpace.MapPage` | kernel/src/arch/memory/impl/vmm.c:38-74 | maps this page and the frames taken on the way and nothing else, keeps invariant and frame budget through every nested call, and ends because each nested call follows a drop in `nPages`; the page is below the limit or a frame that was taken |
| `Vmm.AddressSpace.SetPlacement` | kernel/src/arch/memory/impl/vmm.c:12-25 | chooses the first of the largest segments of type 7; without one, the old segment stays with no pages |
| `Vmm.DescriptorsFill` | kernel/src/arch/memory/impl/memory.c:35-42 | the descriptors lie one behind the other and are all that the map's size holds |
| `Vmm.AddressSpace.MapBelowLimit` | kernel/src/arch/memory/impl/vmm.c:80-82 | afterwards exactly the pages below 6 GiB and those of the frames taken are mapped |
| `Vmm.AddressSpace.InitVmm` | kernel/src/arch/memory/impl/vmm.c:77-85 | every address below 6 GiB and in the frames taken translates to itself with full access, and no other translates; the frames are as many as the tables needed, which is 3079 if they lie below 6 GiB and at most 12 more if not; no other RAM changes |
| `Vmm.FundedStep` | kernel/src/arch/memory/impl/vmm.c:28-35 | taking a frame for a missing table keeps "free frames cover the tables still absent" |
| `Vmm.FundedRoom` | kernel/src/arch/memory/impl/vmm.c:28-35 | under that budget the allocator does not run dry while a table is missing |
| `Vmm.SelfMappedKept` | kernel/src/arch/memory/impl/vmm.c:47-68 | an outermost call keeps every table frame identity-mapped |
| `Vmm.LinksApart` | kernel/src/arch/memory/impl/vmm.c:47-68 | no two present upper-level entries lead to the same frame, and none to the PML4 |
| `Vmm.FramesAreLinks` | kernel/src/arch/memory/impl/vmm.c:28-35 | the frames handed out are as many as the present upper-level entries |
| `Vmm.TablesNeeded` | kernel/src/arch/memory/impl/vmm.c:80-82 | 6 GiB need 1 + 6 + 3072 tables below the PML4 |
| `Vmm.PlanSize` | kernel/src/arch/memory/impl/vmm.c:80-82 | frames below 6 GiB need no table more to be mapped themselves, and 3091 frames anywhere need at most 12 more |
| `Vmm.AllTablesBuilt` | kernel/src/arch/memory/impl/vmm.c:77-83 | once all pages are mapped, the tables are exactly those that translate a mapped page, and the frames are as many |
| `Vmm.IdentityThere` | kernel/src/arch/memory/impl/vmm.c:77-83 | when exactly the pages below the limit and of the frames taken are mapped, the walk is the identity there and fails beyond |
| `Glob.MetaMatch` | gnu-efi/lib/str.c:325-409 | true exactly when the string is accepted by the parsed pattern, from any two cells; all reads are inside the buffers, and the measure is pattern left, then string left |
| `Glob.MatchSet` | gnu-efi/lib/str.c:360-397 | decides membership in a set with its quirks (range bounds, leading dash) and finds the closing bracket |
| `Glob.LibStubMetaiMatch` | gnu-efi/lib/str.c:412-420 | true exactly when the string is in the language of the pattern, for closed sets |
| `Glob.AcceptsIsLanguage` | gnu-efi/lib/str.c:325-409 | step-by-step acceptance is the same as cutting the string into matching pieces |
| `Glob.ParsesIffClosed` | gnu-efi/lib/str.c:360-397 | a pattern has a meaning exactly when every `[` has a later `]` |
| `GlobLaws.MatchesEmpty` | gnu-efi/lib/str.c:338-340 | the empty pattern stands for the empty string |
| `GlobLaws.MatchesStar` | gnu-efi/lib/str.c:342-350 | `*` stands for any string |
| `GlobLaws.MatchesQuestion` | gnu-efi/lib/str.c:352-358 | `?` stands for any one character |
| `GlobLaws.MatchesLiteral` | gnu-efi/lib/str.c:399-406 | any other character, except `[`, stands for itself |
| `GlobLaws.MatchesSet` | gnu-efi/lib/str.c:360-397 | `[`, characters and `]` stand for one character in the set |
| `GlobLaws.MatchesRange` | gnu-efi/lib/str.c:373-382 | `[lo-hi]` stands for one character of the range or one of its ends |
| `GlobLaws.SetMore` | gnu-efi/lib/str.c:367-388 | what one more character adds to a set, from which every set follows: itself unless it is a dash, and after a dash the range up to it |
| `GlobLaws.SetOfMembers` | gnu-efi/lib/str.c:384-387 | a set without a dash holds its characters |
| `GlobLaws.SetOfRange` | gnu-efi/lib/str.c:373-382 | `lo-hi` holds the range and both ends, also when it is empty |
| `GlobLaws.SetUpTo` | gnu-efi/lib/str.c:367-382 | a leading dash ranges from zero |
| `GlobLaws.SetOfBoth` | gnu-efi/lib/str.c:367-388 | without a dash at the seam, a set holds what either of its parts holds |
| `Digits.ValueToHex` | gnu-efi/lib/print.c:1260-1288 | leaves the hexadecimal numeral, without leading zeros and terminated, in any buffer with room for it |
| `Digits.ValueToString` | gnu-efi/lib/print.c:1291-1334 | leaves sign and decimal numeral, grouped on request and terminated, in any buffer with room for it |
| `Digits.GroupedPlain` | gnu-efi/lib/print.c:1322-1332 | deleting the commas gives the plain numeral |
| `Digits.GroupedCommas` | gnu-efi/lib/print.c:1322-1332 | commas stand exactly every three digits from the right, and never first |
| `Digits.ReadNumber` | gnu-efi/lib/str.c:267-323 | the value of the leading digits after the spaces, modulo 2^64 |
| `Digits.NumberReadBack` | gnu-efi/lib/str.c:267-323 | the numeral of any 64-bit number reads back as that number, in both bases |
| `Digits.HexRoundTrip` | gnu-efi/lib/str.c:267-296 | `xtoi` after `ValueToHex` is the identity on 64-bit numbers |
| `Digits.DecimalRoundTrip` | gnu-efi/lib/str.c:298-323 | `Atoi` after `ValueToString` is the identity below 2^63 |
| `DigitLaws.DecimalText` | gnu-efi/lib/print.c:1317-1333 | a decimal numeral, digit by digit |
| `DigitLaws.HexText` | gnu-efi/lib/print.c:1257-1287 | a hexadecimal numeral, digit by digit, with capital letters |
| `DigitLaws.SignedTextIs` | gnu-efi/lib/print.c:1312-1315 | a minus sign before a negative number |
| `DigitLaws.GroupedIs` | gnu-efi/lib/print.c:1322-1332 | a comma before each group of three digits |
| `DigitLaws.NumberRead` | gnu-efi/lib/str.c:267-323 | what the readers make of spaces, digits and anything after them; the letters count in both cases for `xtoi` |
| `DigitLaws.LowerCaseReadBack` | gnu-efi/lib/str.c:282-293 | a hexadecimal numeral in lower case reads back |
| `Printing.Printer.Flush` | gnu-efi/lib/print.c:845-857 | delivers exactly the buffered characters, terminated, and empties the buffer |
| `Printing.Printer.PutChar` | gnu-efi/lib/print.c:876-896 | adds the character, with a CR before an LF, and leaves the position below the end |
| `Printing.Printer.PutItem` | gnu-efi/lib/print.c:914-971 | adds the laid-out item: truncation, width, padding side |
| `Printing.Printer.ReadFlags` | gnu-efi/lib/print.c:1057-1136 | the flag cases end at the conversion of the parsed directive, with its settings and arguments |
| `Printing.Printer.PrintDirective` | gnu-efi/lib/print.c:1044-1250 | adds the rendering of one directive and goes on behind it with the arguments that are left |
| `Printing.Print` | gnu-efi/lib/print.c:974-1255 | all that was delivered, joined, is the rendering, however it was cut into flushes; the result is its length |
| `Printing.Target.Append` | gnu-efi/lib/print.c:313-352 | appends what the bound allows, terminates, and changes nothing else; it writes behind the string exactly when the bound is too large for it and the text is too long |
| `Printing.Target.AppendGrowing` | gnu-efi/lib/print.c:355-397 | appends everything, or after a failed allocation starts over with nothing |
| `Printing.VSPrint` | gnu-efi/lib/print.c:423-463 | in a string with room for what is printed: the longest prefix of the rendering that the bound allows, its length, and an unchanged remainder; terminated unless the bound leaves room for the terminator only; a size of 0 is no limit |
| `Printing.CatPrint` | gnu-efi/lib/print.c:566-600 | while no allocation has failed, the string holds all renderings, untruncated and terminated |
| `Printing.CatPrintAll` | gnu-efi/lib/print.c:401-419 | any sequence of calls leaves the concatenation of all renderings |
| `Printing.IPrint` | gnu-efi/lib/print.c:768-809 | the console gets the rendering, and the result is its length |
| `Format.MinusNeedsField` | gnu-efi/lib/print.c:946-970 | the minus flag changes nothing without a field width |
| `Format.MinusMovesSpaces` | gnu-efi/lib/print.c:946-970 | the minus flag changes the layout exactly when there are field spaces and the item is not blank |
| `Format.LayoutWidth` | gnu-efi/lib/print.c:924-970 | an item is as wide as the widest of shown text, width and field |
| `Format.RenderingOfPlainText` | gnu-efi/lib/print.c:1036-1042 | a format without a percent sign stands for itself |
| `Format.RenderWith` | gnu-efi/lib/print.c:1057-1136 | a flag acts before the rest of its directive |
| `Format.UnsignedShown` | gnu-efi/lib/print.c:1153-1160 | an unsigned decimal shows its number exactly when it is not a long one of 2^63 or more |
| `Format.UnsignedNotShown` | gnu-efi/lib/print.c:1153-1160 | 2^63 + 1 is shown as its negative counterpart, and 2^63 has no rendering |
| `FormatLaws.RenderedPlain` | gnu-efi/lib/print.c:1037-1042 | a character that is no percent sign stands for itself |
| `FormatLaws.RenderedFrom` | gnu-efi/lib/print.c:1044-1059 | a percent sign begins a directive, with these settings, and the format goes on behind it |
| `FormatLaws.WholeFormat` | gnu-efi/lib/print.c:1036-1254 | the rendering is that from the first character on, with line feeds expanded |
| `FormatLaws.LineFeeds` | gnu-efi/lib/print.c:883-890 | a line feed is sent with a carriage return before it, and nothing else is changed |
| `FormatLaws.Flags` | gnu-efi/lib/print.c:1070-1084 | what `0`, `-`, `,`, `.` and `l` change |
| `FormatLaws.WidthArgument` | gnu-efi/lib/print.c:1086-1088 | `*` takes the width from the arguments |
| `FormatLaws.WidthDigits` | gnu-efi/lib/print.c:1090-1105 | digits are the width |
| `FormatLaws.Decimal` | gnu-efi/lib/print.c:1162-1169 | `%d` shows the signed 32-bit number, `%ld` the signed 64-bit number |
| `FormatLaws.Unsigned10` | gnu-efi/lib/print.c:1153-1160 | `%u` shows the unsigned 32-bit number, `%lu` the 64-bit number below 2^63 |
| `FormatLaws.Hexadecimal` | gnu-efi/lib/print.c:1132-1145 | `%x` shows the numeral, `%X` fills it with zeros to 8 or 16 digits |
| `FormatLaws.Character` | gnu-efi/lib/print.c:1122-1126 | `%c` shows the character, and nothing for NUL |
| `FormatLaws.Strings` | gnu-efi/lib/print.c:1107-1120 | `%s` and `%a` show the string, and (null) for NULL |
| `FormatLaws.Others` | gnu-efi/lib/print.c:1226-1230 | `%%` shows a percent sign, an unknown conversion a question mark |
| `FormatLaws.LayoutCells` | gnu-efi/lib/print.c:924-970 | every cell of a laid-out item: field spaces, padding, and text cut off at the field |
| `FormatLaws.PrintDecimal` | gnu-efi/lib/print.c:1162-1169 | `%d` alone, for every 32-bit number |
| `FormatLaws.PrintWidth` | gnu-efi/lib/print.c:1070-1105 | `%5d` and `%05d`, for every width of one digit and every number |
| `FormatLaws.PrintField` | gnu-efi/lib/print.c:1074-1120 | `%.5s` and `%-.5s`, for every field of one digit and every string |
| `DevicePath.HeldPathUnique` | gnu-efi/inc/efidevp.h:50-57 | memory determines the path it holds |
| `DevicePath.NodeIs` | gnu-efi/inc/efidevp.h:35-71 | nodes and end nodes, byte by byte |
| `DevicePath.DevicePathSize` | gnu-efi/lib/dpath.c:286-307 | the number of bytes of the path, up to and with its end node |
| `DevicePath.DevicePathInstance` | gnu-efi/lib/dpath.c:48-104 | the bytes up to the first end node, or up to node 513 if none came before, and where the walk goes on |
| `DevicePath.DevicePathInstanceCount` | gnu-efi/lib/dpath.c:106-121 | counts the pieces that repeated calls find, each with its bytes |
| `DevicePath.TakeInstance` | gnu-efi/lib/dpath.c:48-104 | a call takes the first piece off and leaves a pointer to a path with the others |
| `DevicePath.PiecesAreInstances` | gnu-efi/lib/dpath.c:75-83 | the pieces are the instances exactly when none of these has more than 513 nodes |
| `DevicePath.RejoinOfInstances` | gnu-efi/lib/dpath.c:48-121 | splitting a path and joining the instances gives the path back, exactly when its end nodes are the ones that the library writes |
| `DevicePath.InstancesOfRejoin` | gnu-efi/lib/dpath.c:48-121 | joining instances and splitting the path gives the instances back |
| `DevicePath.SizeOfInstances` | gnu-efi/lib/dpath.c:286-307 | the sizes of the instances and four bytes for each come to the size of the path |
| `DevicePathEdit.DuplicateDevicePath` | gnu-efi/lib/dpath.c:309-334 | a new block with exactly the path, or NULL when the pool refuses |
| `DevicePathEdit.AppendDevicePathInstance` | gnu-efi/lib/dpath.c:397-433 | the new block holds the first path, with 1 as the subtype of its end node and no other change, and then the second |
| `DevicePathEdit.WithInstanceInstances` | gnu-efi/lib/dpath.c:397-433 | the instances of the result are those of the first path followed by those of the second |
| `DevicePathEdit.AppendDevicePath` | gnu-efi/lib/dpath.c:124-194 | the bytes written (each piece, the second path, an instance end; the last one an end) and the size asked for; a missing path gives a copy of the other; NULL when the pool refuses |
| `DevicePathEdit.WrittenSize` | gnu-efi/lib/dpath.c:176-190 | for n instances, the first size and n times the second is written |
| `DevicePathEdit.WritesFit` | gnu-efi/lib/dpath.c:163-190 | when that fits the block, for every path; with instances of at most 513 nodes, exactly when there is one or the second path is not longer than the first |
| `DevicePathEdit.WritesPastTheBlock` | gnu-efi/lib/dpath.c:163-190 | two empty instances and a node of 12 bytes: 40 bytes are written to a block of 32 |
| `DevicePathEdit.AppendedPath` | gnu-efi/lib/dpath.c:176-190 | a reader sees the first instance followed by all of the second path |
| `DevicePathEdit.EachPieceExtended` | gnu-efi/lib/dpath.c:176-186 | at its offset in the block, every piece followed by all of the second path is a path |
| `DevicePathEdit.WrittenBytes` | gnu-efi/lib/dpath.c:176-190 | every byte that is written, from piece to piece: the last end node ends the path, and the others an instance |
| `DevicePathEdit.AppendedToEachIffSingle` | gnu-efi/lib/dpath.c:129-132 | this is "appended to each instance" exactly when there is a single instance, of at most 513 nodes |
| `DevicePathEdit.NotAppendedToEach` | gnu-efi/lib/dpath.c:129-132 | two empty instances: a reader sees one of the two that are promised |
| `DevicePathUnpack.UnpackDevicePath` | gnu-efi/lib/dpath.c:336-394 | fills a block of exactly the computed size with the unpacked nodes, for both alignments; NULL when the pool refuses |
| `DevicePathUnpack.UnpackedSize` | gnu-efi/lib/dpath.c:348-359 | rounding the running total comes to the same as rounding every node |
| `DevicePathUnpack.UnpackedFields` | gnu-efi/lib/dpath.c:378-382 | an unpacked node byte by byte: size, marked type, subtype, new length, payload, and zeros |
| `DevicePathUnpack.UnpackedPathGood` | gnu-efi/lib/dpath.c:380-381 | the result is a path exactly when the alignment is four and no node is longer than 65532 bytes |
| `DevicePathUnpack.LongNodeUnpacked` | gnu-efi/lib/dpath.c:380-381 | a node of 65533 bytes gets a length of zero |
| `DevicePathUnpack.EndNodeUnpacked` | gnu-efi/lib/dpath.c:380-381 | with an alignment of eight, a path of one end node is none afterwards |
| `DevicePathUnpack.UnpackedPathTwice` | gnu-efi/lib/dpath.c:336-394 | unpacking again changes nothing |
| `DevicePathMatch.LibMatchDevicePaths` | gnu-efi/lib/dpath.c:1209-1229 | true exactly when the nodes of some piece are the first nodes of the single path |
| `DevicePathMatch.PrefixOrDiffer` | gnu-efi/lib/dpath.c:1224 | the bytes of an instance are a prefix of a path's bytes exactly when its nodes are, and else differ within both |
| `Crc32.CalculateCrc` | gnu-efi/lib/crc.c:201-218 | the table-driven loop with its wide accumulator gives the bit-serial checksum |
| `Crc32.TableIsShift8` | gnu-efi/lib/crc.c:22-66 | each of the 256 entries is what eight bit steps with 0xEDB88320 make of its index |
| `Crc32.TableStep` | gnu-efi/lib/crc.c:212 | one table step is eight bit-serial steps |
| `Crc32.WideStep` | gnu-efi/lib/crc.c:207-212 | the 64-bit accumulator never holds more than 32 bits |
| `Crc32.RunInjective` | gnu-efi/lib/crc.c:201-218 | different registers stay different over any bytes |
| `Crc32.BurstDetected` | gnu-efi/lib/crc.c:201-218 | any change within 32 consecutive bits, which may touch five bytes, changes the checksum |
| `Crc32.RunIsRunBits` | gnu-efi/lib/crc.c:201-218 | the checksum of bytes is that of their bits |
| `CrcResidue.Residue` | gnu-efi/lib/crc.c:209-217 | with four bytes more, lowest first, the checksum of a message is 0x2144DF1C exactly when they are its own checksum |
| `CrcResidue.NoBytes` | gnu-efi/lib/crc.c:209-217 | the checksum of no bytes is zero |
| `CrcResidue.CheckValue` | gnu-efi/lib/crc.c:201-218 | the code computes 0xCBF43926 for the digits from 1 to 9 |
| `TableHeader.SetCrcAltSize` | gnu-efi/lib/crc.c:93-116 | changes the CRC32 field only, and leaves the table sealed |
| `TableHeader.CheckCrcAltSize` | gnu-efi/lib/crc.c:146-198 | leaves the table as it was; true exactly for a sealed table of a size that is not zero and not above the maximum |
| `TableHeader.ChangeDetected` | gnu-efi/lib/crc.c:146-198 | a sealed table with a change within 32 consecutive covered bits outside the field is not sealed |
| `TableHeader.FieldChangeDetected` | gnu-efi/lib/crc.c:146-198 | nor is one with another value in the field |
| `TableHeader.WithCrcTwice` | gnu-efi/lib/crc.c:183-189 | clearing and restoring the field gives the table back |
| `TableHeader.HeaderFields` | gnu-efi/inc/efiapi.h:740-746 | on a header made of its five fields: the field that is read, written and cleared is CRC32 |
| `Division.Pass` | gnu-efi/lib/ia32/math.c:160-175 | the ten instructions on three words are one step on the 64-bit dividend and the 32-bit remainder |
| `Division.DivU64x32` | gnu-efi/lib/ia32/math.c:134-199 | 64 steps; quotient and remainder for divisors up to 2^31 |
| `Division.StepDivides` | gnu-efi/lib/ia32/math.c:155-191 | a step that loses no carry is a step of long division |
| `Division.StepsDivide` | gnu-efi/lib/ia32/math.c:155-191 | for divisors up to 2^31 no carry is lost, and the result is quotient and remainder |
| `Division.LostCarry` | gnu-efi/lib/ia32/math.c:155-191 | for every larger divisor, a dividend whose division goes wrong |
| `Division.CorrectDivisors` | gnu-efi/lib/ia32/math.c:140-141 | all dividends are divided correctly exactly when the divisor is at most 2^31 |
| `Lists.InitializeListHead` | gnu-efi/inc/efilink.h:43-45 | a ring of its own |
| `Lists.IsListEmpty` | gnu-efi/inc/efilink.h:54-55 | true exactly when the head is alone on its ring |
| `Lists.RemoveEntryList` | gnu-efi/inc/efilink.h:64-80 | deletes the entry from the sequence; a sole entry stays |
| `Lists.InsertTailList` | gnu-efi/inc/efilink.h:90-98 | appends to the sequence |
| `Lists.InsertHeadList` | gnu-efi/inc/efilink.h:108-116 | inserts right after the head |
| `Lists.SwapListEntries` | gnu-efi/inc/efilink.h:126-139 | moves the second entry to directly before the first if it is not there; if it is, the first is on no ring afterwards |
| `Lists.SwapTwo` | gnu-efi/inc/efilink.h:126-139 | on a ring of two entries, the first is on no ring afterwards |
| `Lists.Closed` | gnu-efi/inc/efilink.h:64-70 | the two links that skip an entry close the ring without it |
| `Lists.OpenedAfter` | gnu-efi/inc/efilink.h:108-116 | the four links around a new entry open the ring for it |
| `Lists.OffRing` | gnu-efi/inc/efilink.h:126-139 | an entry whose predecessor points to itself is on no ring |
| `Lists.RtConvertList` | gnu-efi/lib/runtime/vm.c:72-105 | every link of the ring, in both directions, is converted once, in one lap, and nothing else changes |
| `Handles.LibInstallProtocolInterfaces` | gnu-efi/lib/hand.c:437-517 | installs all pairs exactly when the handle can take them and there is room; else database and handle are as before; all is done at TPL_NOTIFY, and the task priority is restored |
| `Handles.InstalledIs` | gnu-efi/lib/hand.c:464-490 | afterwards the handle has its own protocols and those of the pairs, each with its interface, and nothing else has changed |
| `Handles.Rollback` | gnu-efi/lib/hand.c:495-509 | taking the installed pairs off again restores the database |
| `Handles.InstalledLess` | gnu-efi/lib/hand.c:497-505 | taking the first of the installed pairs off leaves the database with the others |
| `Handles.LibUninstallProtocolInterfaces` | gnu-efi/lib/hand.c:520-555 | takes off the pairs that are there and skips the others |
| `Handles.UninstallUndoesInstall` | gnu-efi/lib/hand.c:520-555 | uninstalling what was installed gives the database back |
| `Reinstall.LibReinstallProtocolInterfaces` | gnu-efi/lib/hand.c:558-636 | for the address that is handed over as a handle: makes all changes exactly when every one finds its interface and none is in use; else undoes those before the first failure, which leaves the database as before exactly when that list restores; an address that is no handle changes nothing; and exactly when the caller's own handle gets the changes; all is done at TPL_NOTIFY, and the task priority is restored |
| `Reinstall.ReinstalledIs` | gnu-efi/lib/hand.c:582-609 | afterwards each changed protocol has the interface of its last change, and nothing else has changed |
| `Reinstall.ServedExactly` | gnu-efi/lib/hand.c:603 | the changes reach the caller's handle exactly when they can be made to it and to what is handed over, and these are the same or the changes come to nothing |
| `Reinstall.AddressNotServed` | gnu-efi/lib/hand.c:603 | for an address that is no handle this is the empty list only |
| `Reinstall.HandleNotServed` | gnu-efi/lib/hand.c:603 | one change that a handle could take, and that it does not get |
| `Reinstall.ChangedIffUnchanging` | gnu-efi/lib/hand.c:595-609 | a list of changes comes to nothing exactly when the changes of each protocol return to its first interface |
| `Reinstall.UndoneDistinct` | gnu-efi/lib/hand.c:614-629 | undoing changes of distinct protocols restores every interface |
| `Reinstall.RollbackIffRestores` | gnu-efi/lib/hand.c:614-629 | undoing the changes in their order restores the protocols exactly when it does so for the changes of each protocol |
| `Reinstall.RollbackIffDistinct` | gnu-efi/lib/hand.c:614-629 | when no change goes back to an interface replaced before, this means that the protocols are distinct |
| `Reinstall.RepeatedProtocolNotRestored` | gnu-efi/lib/hand.c:614-629 | two changes of one protocol that are not undone |
| `Reinstall.RepeatedProtocolRestored` | gnu-efi/lib/hand.c:614-629 | three changes of one protocol that are undone |
| `GrowBuffers.GrowBuffer` | gnu-efi/lib/misc.c:131-200 | frees before it allocates; on true, one new block of the size; on an error, no block |
| `GrowBuffers.Fetch` | gnu-efi/lib/hand.c:74-94 | the loop ends at the first attempt that is refused or large enough; on success one more block with the data, else none |
| `GrowBuffers.LibLocateHandle` | gnu-efi/lib/hand.c:57-102 | the handles and their number, that of the list when the data are one, or zero and no block |
| `GrowBuffers.LibGetVariableAndSize` | gnu-efi/lib/misc.c:242-281 | the variable and its size, or NULL and zero |
| `GrowBuffers.OfferedGrows` | gnu-efi/lib/misc.c:171-188 | each attempt offers more than the one before |
| `GrowBuffers.EndsOnce` | gnu-efi/lib/hand.c:82-94 | whatever the firmware answers, there is exactly one attempt at which the loop ends |
| `GrowBuffers.SteadyData` | gnu-efi/lib/hand.c:74-94 | with steady data and memory for it, the second attempt is the last and succeeds |
| `Relocation.ScanDynamic` | gnu-efi/gnuefi/reloc_x86_64.c:52-71 | the last entry of each kind before the terminator decides |
| `Relocation.RelocateX86_64` | gnu-efi/gnuefi/reloc_x86_64.c:43-98 | for each entry of type 8, the load address is added modulo 2^64 to the word at load address plus offset, and no other byte changes; an error exactly for half a table |
| `Relocation.RelocateAArch64` | gnu-efi/gnuefi/reloc_aarch64.c:42-97 | for each entry of type 1027, load address plus addend is stored in the word at load address plus offset, and no other byte changes; an error exactly for half a table |
| `Relocation.InPlainTerms` | gnu-efi/gnuefi/reloc_x86_64.c:79-96 | what applying a table means for each entry and for every byte |
| `Relocation.LoadIs` | gnu-efi/gnuefi/reloc_x86_64.c:80-88 | the words of entries and targets, byte by byte |
| `Relocation.EntriesAt` | gnu-efi/gnuefi/reloc_x86_64.c:94-95 | the entries lie one behind the other |
| `Relocation.EndIs` | gnu-efi/gnuefi/reloc_x86_64.c:52 | the section ends at its first entry with tag 0 |
| `Relocation.TableOfSection` | gnu-efi/gnuefi/reloc_x86_64.c:52-71 | where the table is and how many entries it has, from the last entries with tags 7, 8 and 9 |
| `Relocation.TableWithoutEntries` | gnu-efi/gnuefi/reloc_x86_64.c:60-62 | without a positive size, the table has no entries |
| `Relocation.SectionWithoutTable` | gnu-efi/gnuefi/reloc_x86_64.c:73-77 | when there is no table, and when half of one |
| `Relocation.RelocatedNext` | gnu-efi/gnuefi/reloc_x86_64.c:79-96 | one more entry applied, the words before it kept |
| `Relocation.RelocatedUnique` | gnu-efi/gnuefi/reloc_x86_64.c:79-97 | there is only one memory in which the table has been applied |
| `Relocation.RulesAgree` | gnu-efi/gnuefi/reloc_aarch64.c:84-88 | from the same image, the two rules give the same image exactly when every listed word holds its addend |
| `Relocation.EntriesCover` | gnu-efi/gnuefi/reloc_x86_64.c:79-96 | the number of passes of the loop is the size of the table divided by that of an entry, rounded up |

## Left out

- Vmm.AddressSpace.MapPage: `map_page` does not check for NULL from the allocator; the budget `Funded` is required instead, and `Suitable` says which segment provides it (page aligned, RAM apart from the PML4, at least 3079 pages, or 3091 if they do not lie below 6 GiB).
- Vmm.AddressSpace.InitVmm: ends before `load_pml4`; the processor's cached translations are not modelled.
- `getMemSize` does not compute what its name says and is not modelled.
- Glob.MetaMatch: a pattern with an unclosed set is excluded, because the code would move past its terminator.
- Printing.Print: renderings cover `%d %u %x %X %s %a %c %%`, unknown conversions and all widths and flags; the conversions `g D f t r` and the text attributes are not modelled, nor is a format that ends within a directive. An ASCII format is read by the same code as a wide one.
- Digits.ValueToString: the smallest 64-bit number is excluded, because its negation overflows.
- Printing.VSPrint: a string without room for what is printed is excluded; `Append` says when the code writes behind it.
- Printing.Target.AppendGrowing: the size computations of the growing string are unbounded; pool sizes above 2^64 do not occur.
- DevicePathEdit.AppendDevicePath: the writes are modelled as a sequence of bytes, since they may run past the block.
- DevicePathEdit.AppendDevicePathInstance: the code only asserts that it gets its block, so that a refusal is excluded unless it makes a copy.
- `AppendDevicePathNode`, `FileDevicePath` and the text forms of device paths would add no new difficulty.
- Crc32.CalculateCrc: the accumulator is modelled with 64 bits, as on x86_64.
- Lists.RemoveEntryList: the debug build also overwrites the links of the removed entry.
- Lists.RtConvertList: the debug disposition that is passed along has no effect on links that are not NULL and is not modelled.
- Reinstall.LibReinstallProtocolInterfaces: notifications that the firmware runs in between are not modelled, as for installing.
- GrowBuffers.Fetch: stands for the loop that each caller repeats; `LibMemoryMap` and the file information functions have the same loop with other services.
- Relocation.RelocateX86_64: tables outside memory, entry sizes that are not positive, and targets that overlap each other or the table are excluded; the dynamic section is read before anything is written and is a separate argument. The same holds for the other relocator.
