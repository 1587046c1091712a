# Verified model of the firmware uploader

The ESP32 tool flashes other microcontrollers. It decodes firmware images (Intel HEX, Motorola S-records, COFF, ELF, raw),
keeps them in block-encrypted storage, and programs targets over a serial boot loader, CAN, a GDB-style probe link and BLE
packets. This project models those algorithms in Dafny and proves what they compute, over all inputs and all runs.

`dafny verify dfyconfig.toml` checks everything. Code that updates state in place is modelled by classes and loops with the
source's fields; each is proved equal to a function, and the properties are proved about those functions.

| file | part of the program |
|---|---|
| `Bytes`, `Overlay`, `Records`, `ChunkSource` | bytes and bit operators; the meaning of a list of writes; reader callbacks; reading in pieces |
| `Hex`, `IhexReader`, `IhexParser`, `IhexFile`, `IhexDamage` | the Intel HEX reader: digits, specification machine, the packed state struct, whole files, records cut off |
| `SrecReader`, `SrecParser`, `SrecCounts`, `SrecFile`, `SrecDamage` | the same for Motorola S-records, and what records of byte count 0 or with a wrong count do |
| `ImageContext`, `HexFiles` | the growable image buffer and the streaming sink; the formats and the two ways of converting compared |
| `IhexLines`, `IhexAgreement`, `IhexPackaging` | the second, line-based Intel HEX decoder, its agreement with the first, and its use with the flat-file sink |
| `BinSink`, `Loader` | the flat-file sink with gap filling; raw, COFF and ELF packaging |
| `Uuencode`, `IspTarget`, `IspLink`, `IspHost`, `IspFlash`, `IspErase`, `IspUpdate` | serial in-system programming: line code, target, wire, RAM push, flash writing, erasing, the whole update |
| `Packet`, `PacketDamage`, `ProbeLink`, `CanTransfer` | BLE packets, whole and hit on the way, probe packets, segmented CAN transfer |
| `Storage` | the block-buffered encrypted file |
| `HhtKeys` | the key transmitter of the handheld terminal |

## What the proofs show about the code

All image decoders are tied to one meaning: a list of writes painted over a background, the last write winning
(`Overlay.Cell`). Where the code does less than its documentation or its callers suggest, the project proves exactly when it
does what is wanted:

- A line of exactly 255 characters makes the line-based Intel HEX decoder stop there and report success
  (`IhexAgreement.FullLineEndsFile`): the unread line end counts as a blank line. Longer lines are rejected.
- The character reader keeps the bases of record types 2 and 4 side by side and adds them in 24 bits; the line decoder keeps
  the last one, in 32 bits. `IhexAgreement.DecodersAgreeIff` says exactly on which files of good records the line decoder
  hands a willing sink the writes the character reader accepts, `IhexAgreement.StreamingAgreesIff` compares it with the
  streaming path, and `IhexPackaging.MixedBasesDiffer` exhibits a file the two decoders read differently.
- A record of byte count 0 with a byte behind it leaves the index of the S-record reader one too high. `length <= byte_count`
  holds throughout exactly on texts without one (`SrecCounts.InStepThroughoutIff`), and the 38-byte record buffer is
  overrun exactly when enough of them follow each other (`SrecCounts.OverrunIff`); 37 in a whole text are never enough.
- A wrong byte count in an S-record is noticed, unless the shortened record happens to add up; a count of 0 makes the record
  vanish, and only the record behind it can give that away (`SrecDamage.CountAlteredIff`). A record that is cut off is
  noticed as soon as its count was read (`SrecDamage.CutOffIff`); an Intel HEX data record cut off before its first data
  byte is not (`IhexDamage.CutOffIff`).
- A byte altered after the count of an Intel HEX record goes unnoticed exactly if the record's type becomes 8 or more or the
  record is an empty data record (`IhexFile.AlteredNoticedIff`). For the count byte itself see `IhexFile.CountAlteredIff`.
- A RAM push reports success after five RESENDs for one block (`IspHost.FiveResendsReportSuccess`). For one block
  `IspLink.GivenUpIff` says in terms of the line alone when that happens; for a push, `IspHost.PushGivesUpIff` reduces it to
  the blocks that are reached. It does not happen on a line that never damages a block five times
  (`IspFlash.ImageNeverGivesUp`). While flash is written, a block given up is copied from RAM all the same
  (`IspFlash.GivenUpIsCopied`).
- A command whose reply is lost can have been carried out although failure is reported (`IspErase.LostReply`);
  `IspErase.CarriedOut` says exactly when.
- Flash writing always adds one block of 0xff, so an image that ends where the sectors end is refused
  (`IspFlash.FullFlashRefused`); success on a quiet line is characterised exactly (`IspUpdate.ImageSucceedsIff`).
- Erasing numbers sectors by a counter that restarts when the bank changes; no two sectors are sent the same commands exactly
  when the map is grouped by the banks that are sent (`IspErase.ErasedOnceIff`).
- The 32-bit range test of the COFF and ELF loaders is wrong exactly for sums of offset and size from 2^32 to 2^32 plus the
  length of the file (`Loader.RangeTestIff`, with an input in `Loader.WildInput`).
- The packet parser overruns its buffer exactly if a packet announces more than 200 bytes and more than 200 follow
  (`Packet.OverrunIff`).
- The CAN sender counts its first frame one byte short and sends one consecutive frame too many exactly when `size - 5` is a
  multiple of 7 (`CanTransfer.SurplusFrameIff`).
- The text packet encoder of the probe link does not escape; a payload comes back exactly when it holds neither `#` nor `}`
  and is read in time (`ProbeLink.TextRoundTripIff`).
- The response reader of the probe link takes a text cut off by its deadline for complete exactly if the deadline passes
  while an escaped `#` is read (`ProbeLink.BinaryDeadlineIff`, with an input in `ProbeLink.CutTextAccepted`).

## Model

| member | source | states |
|---|---|---|
| IhexParser.Parser.ReadByte | main/utils/ihex_read.c:85-148 | one character of any kind moves the packed struct as one token (or none) moves the specification machine, and keeps length <= line_length <= 255 in every reachable state |
| IhexParser.Parser.EndRead | main/utils/ihex_read.c:55-83 | closing a record calls back once with the checksum verdict, applies address records only when accepted, and resets the record; empty data records are dropped |
| IhexParser.Packed | main/utils/ihex_read.c:85-148 | state and record type packed into one byte come back unchanged |
| IhexParser.ChecksumTest | main/utils/ihex_read.c:61-68 | the negated sum equals the stored byte exactly when all bytes of the record add up to 0 modulo 256 |
| IhexParser.Parser.DataRead | main/utils/ihex2bin.c:64-113 | a fault or a short record sets the sticky error, only accepted data records reach the image |
| IhexParser.ToImage | main/utils/ihex2bin.c:115-160 | for every cutting of the text into reads the result is the conversion of the text's callbacks |
| IhexParser.ToSink | main/utils/ihex2bin.c:162-194 | the sink receives the shifted writes, and failure is reported exactly on a fault, a record below the first address or a refusing sink |
| Hex.NoiseIsInvisible | main/utils/ihex_read.c:92-103 | characters that are neither digits nor the mark may stand anywhere without effect |
| Hex.WrittenTokens | main/utils/ihex_read.c:92-109 | bytes written with the characters 0 to 9, A to F or a to f are read back, high digit first |
| Hex.JoinDigits | main/utils/ihex_read.c:105-109 | or-ing the low digit into the cell gives 16 * high + low |
| IhexFile.ReadFile | main/utils/ihex_read.c:55-157 | the reader calls back exactly the file's records, in order, with type, extended address, data and verdict |
| IhexFile.TextReports | main/utils/ihex_read.c:85-157 | any text spelling a list of records, in either letter case and with noise, yields exactly those callbacks |
| IhexFile.ConversionMeans | main/utils/ihex2bin.c:64-160 | a conversion fails exactly on a corrupt record; else base, size and bytes are those of the overlay of the file's writes |
| IhexFile.ReportsMean | main/utils/ihex2bin.c:64-113 | the callbacks carry a fault exactly for a corrupt record, and otherwise the denoted writes |
| IhexFile.CorruptSkipped | main/utils/ihex2bin.c:67-113 | a corrupt record is as good as absent: it writes nothing and moves no base |
| IhexFile.AlteredIsBad | main/utils/ihex_read.c:61-68 | changing one byte after the count of a good record, unless its type becomes 8 or more, breaks its checksum |
| IhexFile.AlteredNoticedIff | main/utils/ihex_read.c:58-70 | with any one byte after a record's count altered, in a file of any length without a fault, the conversion fails exactly if the type is then below 8 and the record is not an empty data record |
| IhexFile.UnknownTypeUnnoticed | main/utils/ihex_read.c:129-132 | a data record whose type byte becomes 8 disappears without a fault |
| IhexFile.CountAlteredIff | main/utils/ihex_read.c:55-147 | exactly when an altered count byte is noticed: too large by more than one always, too large by one by the stale byte behind the record, too small by the sum of the shortened record |
| IhexDamage.CutOffIff | main/utils/ihex_read.c:55-147 | exactly when a record cut off after any of its digits is noticed: not while its type is unknown, nor in a data record without a byte; always before its last data byte; behind it by the sum with the byte taken for the checksum |
| ImageContext.Context.Put | main/utils/ihex2bin.c:81-110 | one data record takes the context from the image of the writes so far to the image of one write more, for buffer and sink alike |
| ImageContext.Context.ExpandFront | main/utils/ihex2bin.c:29-48 | the buffer grows at the front with zeros and keeps every byte at its address |
| ImageContext.Context.EnsureCapacity | main/utils/ihex2bin.c:50-62 | the buffer grows at the back with zeros, never shrinks |
| ImageContext.Context.Result | main/utils/ihex2bin.c:147-160 | base is the lowest address, the size reaches to the highest end, each byte is the last write covering it or 0 |
| ImageContext.SinkFailsIff | main/utils/ihex2bin.c:83-104 | streaming fails exactly on a record below the base or one the sink rejects |
| Overlay.Bounds | main/utils/ihex2bin.c:81-110 | base and end of an image are attained by records and bound all of them |
| Overlay.CellLast | main/utils/ihex2bin.c:81-110 | a byte of the image is the byte of the last record covering its address |
| Records.AnyFaultIff | main/utils/ihex2bin.c:67-75 | the error flag is never cleared: it is set exactly when some record was faulty |
| SrecParser.Parser.ReadByte | main/utils/kk_srec.c:32-84 | one character moves the packed struct as the specification machine moves, zero counts included, as long as the digit is stored inside the buffer |
| SrecParser.Parser.EndRead | main/utils/kk_srec.c:95-125 | address, payload, checksum verdict and whether bytes are missing are called back for every closed record, complete or not, and the record is reset |
| SrecParser.Packed | main/utils/kk_srec.c:32-84 | state and type digit packed into one byte come back unchanged |
| SrecParser.ToImage | main/utils/srec2bin.c:112-157 | for every text that stays inside the record buffer and every cutting into reads the result is the conversion of the text's callbacks |
| SrecParser.ToSink | main/utils/srec2bin.c:159-192 | sink calls and verdict of a streamed S-record file that stays inside the record buffer |
| SrecCounts.InStepThroughoutIff | main/utils/kk_srec.c:63-80 | length <= byte_count holds in every reachable state exactly if no zero count is followed by a byte before the next mark |
| SrecCounts.OverrunIff | main/utils/kk_srec.c:50-76 | no digit is stored beyond the 38-byte buffer exactly if, mark by mark, the index left by earlier zero counts leaves room |
| SrecCounts.FewAreContained | main/utils/kk_srec.c:72-80 | fewer than 38 such records cannot leave the buffer |
| SrecFile.AddressRoundTrip | main/utils/kk_srec.h:62 | two, three and four address bytes, most significant first, give the address back |
| SrecFile.ReadFile | main/utils/kk_srec.c:32-125 | the reader calls back exactly the file's records, in order |
| SrecFile.ConversionMeans | main/utils/srec2bin.c:61-157 | a conversion fails exactly on a corrupt record; else the image is the overlay of the S1, S2 and S3 records |
| SrecFile.TextIsContained | main/utils/kk_srec.c:95-125 | a text that spells well-formed records stays inside the record buffer |
| SrecFile.AlteredFileFails | main/utils/srec2bin.c:69-78 | one altered address, data or checksum byte anywhere makes the conversion fail |
| SrecFile.CorruptSkipped | main/utils/srec2bin.c:69-110 | a corrupt record is as good as absent: it writes nothing |
| SrecDamage.CountAlteredIff | main/utils/kk_srec.c:63-125 | with one count byte altered, in a file of any length without a fault, the conversion fails exactly if the count is too large, or too small but not 0 and the shortened record does not add up, or 0 and the next record's checksum byte differs from the damaged record's first byte |
| SrecDamage.CutOffIff | main/utils/kk_srec.c:63-125 | with one record cut off after any of its digits the conversion fails exactly if its count was still read |
| SrecDamage.IncompleteFails | main/utils/kk_srec.c:66-70 | a count above 37, or from 1 to 37 with fewer bytes up to the next mark or the end of the file, fails whatever stands around it |
| HexFiles.IhexOfDenotes | main/utils/ihex2bin.c:64-113 | every write list below 2^24 rendered as Intel HEX denotes that list |
| HexFiles.SrecOfDenotes | main/utils/srec2bin.c:61-110 | the same for S1, S2 and S3 records |
| HexFiles.OtherRecordsNoEffect | main/utils/srec2bin.c:69-82 | good header, count and termination records change nothing, wherever they stand |
| HexFiles.FormatsAgree | main/utils/srec2bin.c:112-157 | the same writes in either format convert to the identical base, size and data |
| HexFiles.StreamingAgrees | main/utils/ihex2bin.c:162-194 | streaming succeeds exactly if no record lies below the first one; its calls laid over zeros are then the buffered image |
| HexFiles.PatientSinkFails | main/utils/ihex2bin.c:83-96 | with an accepting sink the only streaming failure is a record below the base |
| HexFiles.CorruptStream | main/utils/ihex2bin.c:162-194 | a streamed file with corrupt records hands on exactly its other records, and fails |
| HexFiles.CorruptSrecStream | main/utils/srec2bin.c:159-192 | the same for S-records |
| HexFiles.SampleSrec | main/utils/srec2bin.c:112-157 | the text S104000007F4 is the byte 7 at address 0 |
| IhexLines.LineReader.ReadLine | main/core/firmware_upload/fw_upload_packaging.c:46-68 | a line is cut at a line feed or after 255 characters, carriage returns are dropped, an empty line ends reading |
| IhexLines.CarriageReturnInvisible | main/core/firmware_upload/fw_upload_packaging.c:56-58 | a carriage return anywhere in a line changes nothing |
| IhexLines.FinalLineFeedOptional | main/core/firmware_upload/fw_upload_packaging.c:46-68 | a file may or may not end with a line feed, for any text |
| IhexLines.DecodeLine | main/core/firmware_upload/fw_upload_packaging.c:117-181 | the action a line asks for, with every rejection of the source |
| IhexLines.DecodeIff | main/core/firmware_upload/fw_upload_packaging.c:117-181 | any line at all is accepted exactly if it begins with a colon, has 11 characters, spells bytes that add up to 0, as many as its count asks for and an address in an address record; its bytes then say what is done |
| IhexLines.SumPairs | main/core/firmware_upload/fw_upload_packaging.c:141-148 | the checksum over all digit pairs, refused on a non-digit |
| IhexLines.ProcessIhex | main/core/firmware_upload/fw_upload_packaging.c:110-184 | sink calls and verdict for any input and any sink, with state or without, given as a function of its calls so far |
| IhexAgreement.DecodeSpelled | main/core/firmware_upload/fw_upload_packaging.c:117-181 | a line spelling a good record is decoded to that record's meaning, one with a wrong checksum is rejected |
| IhexAgreement.ProcessTidy | main/core/firmware_upload/fw_upload_packaging.c:110-184 | a file of good records is offered to the sink write by write, up to the first refusal, a line that is too long, or the line where the decoder stops |
| IhexAgreement.BaseFitsIff | main/core/firmware_upload/fw_upload_packaging.c:163-178 | the two decoders compute the same address, whatever the offset, exactly if either the last address record was linear, below 2^24, and no segment base is left over, or it was none or a segment and any linear base left over is a multiple of 2^24 |
| IhexAgreement.OneKindFits | main/core/firmware_upload/fw_upload_packaging.c:163-178 | with address records of one kind only, linear ones below 2^24, the bases fit throughout |
| IhexAgreement.DecodersAgreeIff | main/core/firmware_upload/fw_upload_packaging.c:110-184 | on files of good records, one a line, the line decoder hands a willing sink exactly the writes the character reader accepts, and succeeds, exactly if no line before the stop exceeds 255 characters or is an empty data record, no data follows the stop, and the bases fit wherever data is carried |
| IhexAgreement.StreamingAgreesIff | main/utils/ihex2bin.c:83-104 | on files where lines and bases fit, the streaming conversion hands an accepting sink the line decoder's calls shifted by the first address, and succeeds, exactly if no record lies below the first |
| IhexAgreement.FullLineEndsFile | main/core/firmware_upload/fw_upload_packaging.c:51-67 | after a line of exactly 255 characters, with either line ending, the rest of the file is silently dropped |
| IhexAgreement.LongLineFails | main/core/firmware_upload/fw_upload_packaging.c:51-67 | a longer line is rejected |
| IhexPackaging.MixedBasesDiffer | main/core/firmware_upload/fw_upload_packaging.c:167-178 | a file with both kinds of address record, short lines and all checksums good puts one byte at two different addresses |
| IhexPackaging.PackedIff | main/core/firmware_upload/can_fw_update.c:94-119 | an Intel HEX file is packed into the flat file exactly if no line is too long and its data records ascend; the file is their overlay on 0xff |
| BinSink.Sink.Accept | main/core/firmware_upload/can_fw_update.c:94-119 | a call below the end is refused without effect; else the gap is filled with 0xff in 64-byte pieces and the data appended |
| BinSink.Sink.Send | main/core/firmware_upload/fw_upload_packaging.c:266-279 | a section sent in pieces of 1024 bytes acts as that list of calls |
| BinSink.ChunksAreWhole | main/core/firmware_upload/fw_upload_packaging.c:266-279 | cutting does not matter: a section is taken or refused as a whole |
| BinSink.RunIff | main/core/firmware_upload/can_fw_update.c:94-119 | a run of calls succeeds exactly if each starts at or after the end of all earlier ones; the file is then their overlay on 0xff, as long as the last end |
| Loader.ProcessBin | main/core/firmware_upload/fw_upload_packaging.c:93-108 | a raw image of any length becomes the file unchanged |
| Loader.ProcessCoff | main/core/firmware_upload/fw_upload_packaging.c:186-284 | status and sink state for any input whose header can be read and for which no range test goes wrong by wrapping around |
| Loader.LoadSection | main/core/firmware_upload/fw_upload_packaging.c:243-280 | one section is skipped, refused as out of range, or sent |
| Loader.NotLoadedBits | main/core/firmware_upload/fw_upload_packaging.c:258-260 | the mask skips exactly dummy, no-load, padding, copy and bss sections |
| Loader.RangeTestIff | main/core/firmware_upload/fw_upload_packaging.c:261-265 | the 32-bit range test disagrees with the bytes being inside the file exactly for sums of offset and size from 2^32 to 2^32 plus the length of the file |
| Loader.WildInput | main/core/firmware_upload/fw_upload_packaging.c:261-265 | two bytes at offset 0xFFFFFFFF pass the test in any file that is not empty |
| Loader.CoffHeaderRead | main/core/firmware_upload/fw_upload_packaging.c:209-234 | the header fields of all three COFF versions are read from where the format puts them |
| Loader.CoffSectionRead | main/core/firmware_upload/fw_upload_packaging.c:244-254 | physical address, size in bytes, file pointer and flags of both section header layouts |
| Loader.CoffLoads | main/core/firmware_upload/fw_upload_packaging.c:186-284 | how a COFF file ends, in terms of its headers: refused by the sink exactly if its loadable sections do not ascend, else loaded exactly if they are within the file; the file written is their overlay on 0xff |
| Loader.CoffRefused | main/core/firmware_upload/fw_upload_packaging.c:186-241 | which inputs end with invalid size, not supported or failure before any section is looked at, by the bytes of the file; nothing is then written |
| Loader.ProcessElf | main/core/firmware_upload/fw_upload_packaging.c:286-368 | status and sink state for any input whose program headers can be read when the table's test passes and for which no range test goes wrong |
| Loader.LoadSegment | main/core/firmware_upload/fw_upload_packaging.c:333-364 | one segment is skipped, refused as out of range, or sent |
| Loader.ElfHeaderRead | main/core/firmware_upload/fw_upload_packaging.c:308-323 | identification and program header table are read from where the format puts them |
| Loader.ElfSegmentRead | main/core/firmware_upload/fw_upload_packaging.c:334-341 | type, offset, physical address and file size of a program header |
| Loader.ElfLoads | main/core/firmware_upload/fw_upload_packaging.c:286-368 | how an ELF file ends, in terms of its headers: refused by the sink exactly if its segments of type 1 do not ascend, else loaded exactly if they are within the file; the file written is their overlay on 0xff |
| Loader.ElfRefused | main/core/firmware_upload/fw_upload_packaging.c:286-331 | which inputs end with invalid size, invalid argument, not supported or failure before any segment is looked at, by the bytes of the file; nothing is then written |
| Loader.FieldRead | main/core/firmware_upload/fw_upload_packaging.c:33-38 | a 32-bit field rendered least significant byte first reads back as itself |
| Uuencode.EncodeLine | main/core/firmware_upload/uart_isp/nxp_isp/uuencode.c:3-31 | the line and its terminator, for whatever bytes follow the block in memory; nothing beyond the terminator changes |
| Uuencode.DecodeLine | main/core/firmware_upload/uart_isp/nxp_isp/uuencode.c:33-75 | the payload of any readable line |
| Uuencode.RoundTrip | main/core/firmware_upload/uart_isp/nxp_isp/uuencode.c:3-75 | decoding the encoded line gives the block back, for up to 95 bytes; the line has 1 + 4 * ceil(n / 3) characters |
| Uuencode.LineSpells | main/core/firmware_upload/uart_isp/nxp_isp/uuencode.c:3-31 | every three bytes are one number, written in base 64 with the characters from '!' to the back quote |
| Uuencode.PayloadReads | main/core/firmware_upload/uart_isp/nxp_isp/uuencode.c:33-75 | for any characters, three payload bytes are the number their four characters write; the blank and all from the back quote on are zero |
| IspLink.Wire.SendCommand | main/core/firmware_upload/uart_isp/nxp_isp/isp.c:336-375 | a command matches exactly when the target accepts it and its answer arrives; if the answer is lost it may still have been carried out |
| IspLink.GivenUpIff | main/core/firmware_upload/uart_isp/nxp_isp/isp.c:594-655 | a block is given up exactly if the line damages it five times before it gets through or a reply stays away |
| IspLink.ReplyWords | main/core/firmware_upload/uart_isp/nxp_isp/isp.c:628-655 | the reply words are 0, OK and RESEND at the front of a line |
| IspHost.GetCheckSum | main/core/firmware_upload/uart_isp/nxp_isp/isp.c:27-37 | the plain sum of the bytes |
| IspHost.SendLines | main/core/firmware_upload/uart_isp/nxp_isp/isp.c:598-632 | a block arrives whole, with its checksum, in uuencoded lines of 45 bytes, fewer in the last |
| IspHost.AwaitVerdict | main/core/firmware_upload/uart_isp/nxp_isp/isp.c:628-655 | stray replies and echoes are skipped until OK, RESEND or the timeout; terminates on every finite reply stream, damage unnoticed by the checksum included |
| IspHost.WriteToRam | main/core/firmware_upload/uart_isp/nxp_isp/isp.c:569-668 | the nested loops carry out the push, terminate by (bytes left, attempts left), and report success on misaligned arguments without writing |
| IspHost.FirstBlockOutcome | main/core/firmware_upload/uart_isp/nxp_isp/isp.c:594-655 | a block of up to 512 bytes is stored exactly if a good answer comes after at most four damaged attempts, given up exactly on the fifth, and else the push fails |
| IspHost.PushHolds | main/core/firmware_upload/uart_isp/nxp_isp/isp.c:591-667 | when all damage is noticed, reported success with no block given up puts exactly the data in RAM, whatever RESENDs, echoes and stray lines came; flash is untouched |
| IspHost.PushGivenUp | main/core/firmware_upload/uart_isp/nxp_isp/isp.c:642-667 | a given-up block leaves only the data before it in RAM, though success is reported |
| IspHost.PushGivesUpIff | main/core/firmware_upload/uart_isp/nxp_isp/isp.c:594-667 | a push gives up exactly if some block of 512 bytes, after all before it got through, draws five damaged answers |
| IspHost.FiveResendsReportSuccess | main/core/firmware_upload/uart_isp/nxp_isp/isp.c:594-595 | on a line with five noticed damages and no misleading reply nothing arrives, all replies are used up, and success is reported |
| IspFlash.GetSectorAddr | main/core/firmware_upload/uart_isp/nxp_isp/nxp_partdesc.c:730-746 | the first sector containing the address, or -1 if none does |
| IspFlash.WriteToFlash | main/core/firmware_upload/uart_isp/nxp_isp/isp.c:1159-1253 | the block loop with its refilled buffer writes all blocks, padded, and one block of 0xff, stopping at the first failure |
| IspFlash.ImageHolds | main/core/firmware_upload/uart_isp/nxp_isp/isp.c:1159-1253 | on success over erased flash the image, padded and followed by an empty block, is at its address and no other byte changed |
| IspFlash.ImageNeverGivesUp | main/core/firmware_upload/uart_isp/nxp_isp/isp.c:1159-1253 | on a line that never damages a block five times no block of an image is given up |
| IspFlash.GivenUpIsCopied | main/core/firmware_upload/uart_isp/nxp_isp/isp.c:1197-1236 | a block that was given up is copied to flash from whatever RAM holds, and success is reported |
| IspFlash.FlashImageContents | main/core/firmware_upload/uart_isp/nxp_isp/isp.c:1184-1195 | what is written is the image followed by 0xff only |
| IspFlash.FlashImageLength | main/core/firmware_upload/uart_isp/nxp_isp/isp.c:1176-1195 | it is whole blocks, one block longer than the rounded-up image |
| IspFlash.WrittenIsMapped | main/core/firmware_upload/uart_isp/nxp_isp/isp.c:1200-1206 | everything written lies in sectors of the target |
| IspFlash.ExtraBlockMapped | main/core/firmware_upload/uart_isp/nxp_isp/isp.c:1189-1201 | success needs a sector where the extra block goes |
| IspFlash.FullFlashRefused | main/core/firmware_upload/uart_isp/nxp_isp/isp.c:1189-1201 | an image ending where the sectors end is refused, whatever the target answers |
| IspErase.EraseSectors | main/core/firmware_upload/uart_isp/nxp_isp/isp.c:853-886 | prepare, then erase, with the bank itself for parts of two banks or more, and bank 0, that is none, for others |
| IspErase.EraseAll | main/core/firmware_upload/uart_isp/uart_isp_lowlevel.c:87-124 | asks for every sector in map order and stops at the first failure |
| IspErase.EraseCommands | main/core/firmware_upload/uart_isp/uart_isp_lowlevel.c:98-123 | for every sector, in map order, prepare and erase carry its running number and, for parts of two banks or more, its own bank |
| IspErase.CarriedOut | main/core/firmware_upload/uart_isp/uart_isp_lowlevel.c:98-123 | success has carried out the whole command list in order; failure exactly the answered commands, a proper prefix, and the next one exactly if the target accepted it and its reply did not come |
| IspErase.LostReply | main/core/firmware_upload/uart_isp/nxp_isp/isp.c:361-374 | the last command can have been carried out although failure is reported |
| IspErase.RunningIsNumber | main/core/firmware_upload/uart_isp/uart_isp_lowlevel.c:94-115 | in a map grouped by bank the running counter is the sector's number in its bank |
| IspErase.ErasedOnceIff | main/core/firmware_upload/uart_isp/uart_isp_lowlevel.c:94-115 | no two sectors are sent the same commands exactly if the map is grouped by the banks that are sent; a part with one bank is sent none |
| IspErase.CalcFlashSize | main/core/firmware_upload/uart_isp/uart_isp_lowlevel.c:31-39 | the sum of the sector sizes in 32 bits |
| IspErase.SizeCovers | main/core/firmware_upload/uart_isp/uart_isp_lowlevel.c:72-74 | in a contiguous map, start and size describe exactly the addresses in sectors |
| IspUpdate.EraseHolds | main/core/firmware_upload/uart_isp/uart_isp_lowlevel.c:87-124 | success has set every mapped byte to 0xff and changed no other |
| IspUpdate.UpdateHolds | main/core/firmware_upload/uart_isp/uart_isp_update.c:161-212 | when erase and write report success, no block was given up and all damage was noticed: the image, padding and an empty block at the start address, 0xff in the other sectors, all else as it was |
| IspUpdate.Update | main/core/firmware_upload/uart_isp/uart_isp_update.c:161-212 | the same of the update as it runs over the wire, from any state of the target; on a line that never damages a block five times, reported success is enough |
| IspUpdate.BlockSucceedsIff | main/core/firmware_upload/uart_isp/nxp_isp/isp.c:1197-1236 | on a quiet line a block is written exactly if it fits RAM, lies in one sector of bank 0, starts at a multiple of 256 and has a size the copy command takes |
| IspUpdate.ImageSucceedsIff | main/core/firmware_upload/uart_isp/nxp_isp/isp.c:1159-1253 | an image is written exactly if every block, the extra one included, fits |
| Packet.Send | main/packet.c:66-91 | the packet built for a command and payload: start bytes, length, body, exclusive-or, end byte |
| Packet.Parser.ParseByte | main/packet.c:19-64 | one byte moves the parser as the specification machine, as long as a data byte finds room in the buffer |
| Packet.Parser.ParseBytes | main/packet.c:19-64 | any chunk of bytes is a run of the machine |
| Packet.OverrunIff | main/packet.c:33-46 | the buffer is overrun exactly if a packet announces more than 200 bytes and more than 200 bytes follow |
| Packet.FrameDelivered | main/packet.c:19-91 | a packet read between packets is delivered and leaves the parser between packets |
| Packet.StreamDelivered | main/packet.c:19-91 | any list of packets with quiet noise around them is delivered in order, and nothing else |
| PacketDamage.DeliveredIff | main/packet.c:33-62 | after a start sequence, a length up to 200 and a whole body, the packet is delivered exactly if the next byte is the exclusive-or of the body and the one after it 0x03 |
| PacketDamage.HitIsDropped | main/packet.c:39-62 | a packet with any one byte of body, checksum or end altered is not delivered and leaves the parser between packets |
| PacketDamage.IntactDelivered | main/packet.c:19-91 | of a stream of intact and altered packets exactly the intact ones are delivered, in order |
| PacketDamage.SampleFrame | main/packet.c:66-91 | a packet byte by byte |
| Packet.QuietKeepsIdle | main/packet.c:19-33 | noise without a start sequence is ignored |
| Packet.OnlyQuietKeepsIdle | main/packet.c:19-33 | any other noise takes the parser out of its idle state |
| Packet.InterpretBody | main/base/ble/ble_gatt_server.c:119-126 | the receiver gets the command and payload back |
| ProbeLink.MakePacket | main/core/firmware_upload/probe_link/probe_link_protocol.c:10-32 | the text packet, or the exact size error |
| ProbeLink.MakePacketBinary | main/core/firmware_upload/probe_link/probe_link_protocol.c:34-82 | succeeds exactly if the buffer holds at least 8 bytes and more than the packet; then the packet, with its checksum, is in place |
| ProbeLink.SampleText | main/core/firmware_upload/probe_link/probe_link_protocol.c:10-32 | the packet of the text OK, byte by byte |
| ProbeLink.SampleBinary | main/core/firmware_upload/probe_link/probe_link_protocol.c:34-82 | the packet of X and an escaped '#', byte by byte |
| ProbeLink.CheckDigitsSpell | main/core/firmware_upload/probe_link/probe_link_protocol.c:76-79 | the two characters after '#' spell the sum of the body modulo 256 in hexadecimal |
| ProbeLink.NoBareMarks | main/core/firmware_upload/probe_link/probe_link_protocol.c:53-71 | the escaped data holds neither '$' nor '#' |
| ProbeLink.Transport.Read | main/core/firmware_upload/probe_link_update.c:89-144 | status and text for any stream of bytes and empty receive calls, any buffer size, and any number of receive calls before the deadline |
| ProbeLink.GapsOnlyDelay | main/core/firmware_upload/probe_link_update.c:96-127 | in time, empty receive calls change nothing, unless one follows a brace or stands in the checksum |
| ProbeLink.BinaryRoundTrip | main/core/firmware_upload/probe_link_update.c:89-144 | in time, and with gaps wherever the reader waits, a binary packet is read back as prefix and data, after noise without '$' and whatever follows |
| ProbeLink.BinaryDeadlineIff | main/core/firmware_upload/probe_link_update.c:108-131 | for every deadline: in time the packet is read back; too late it is taken for complete exactly if the deadline passes while an escaped '#' is read, and the text then ends there |
| ProbeLink.BufferDecides | main/core/firmware_upload/probe_link_update.c:89-131 | in time, a packet that does not fit the buffer with a terminator is a memory error, an empty buffer an argument error |
| ProbeLink.CutTextAccepted | main/core/firmware_upload/probe_link_update.c:108-144 | a packet of which half the text is returned with success |
| ProbeLink.TextRoundTripIff | main/core/firmware_upload/probe_link/probe_link_protocol.c:10-32 | a text payload comes back exactly if it holds neither '#' nor '}' and its '#' is received before the deadline |
| CanTransfer.Bus.SendUserSoftware | main/core/firmware_upload/can_fw_update.c:136-187 | which frames are sent and how the transfer ends, for every bus that may refuse frames and every finite inbox, by positions in the inbox |
| CanTransfer.ExchangeEnds | main/core/firmware_upload/can_fw_update.c:149-187 | done exactly if the bus takes all frames, a flow control frame comes from the board and its next message is a single frame with 0x61; refused, failed and waiting exactly in the other cases, and how many frames are sent in each |
| CanTransfer.SegmentsAt | main/core/firmware_upload/can_fw_update.c:136-173 | every byte of every frame, and how many frames there are |
| CanTransfer.NextIndexCounts | main/core/firmware_upload/can_fw_update.c:172 | the index byte counts 0x21 to 0x2F, then 0x20, then on |
| CanTransfer.IndexesCount | main/core/firmware_upload/can_fw_update.c:161-173 | the sequence nibbles of a whole transfer run without a gap |
| CanTransfer.RebuiltIff | main/core/firmware_upload/can_fw_update.c:136-173 | a receiver of the 12-bit length and consecutive frames rebuilds service id and data exactly for sizes up to 4094 |
| CanTransfer.SurplusFrameIff | main/core/firmware_upload/can_fw_update.c:146-173 | the last frame is superfluous exactly if size - 5 is a multiple of 7 |
| Storage.Writer.Write | main/core/firmware_upload/fw_upload_storage.c:197-227 | any write appends to the plaintext; whole blocks go to the file encrypted, the rest stays buffered; built without encryption, all goes to the file as it is |
| Storage.Writer.Close | main/core/firmware_upload/fw_upload_storage.c:229-249 | a partial block is filled up with zeros and flushed; built without encryption, the file is what was written |
| Storage.Reader.Read | main/core/firmware_upload/fw_upload_storage.c:299-335 | returns the next bytes of the plaintext, as many as are wanted and left; a plain file is handed through |
| Storage.StoredLength | main/core/firmware_upload/fw_upload_storage.c:206-244 | n bytes are stored in 16 * ceil(n / 16) bytes |
| Storage.FlattenBlocks | main/core/firmware_upload/fw_upload_storage.c:206-244 | the blocks joined are the plaintext and zeros up to a multiple of 16 |
| Storage.Store | main/core/firmware_upload/fw_upload_storage.c:197-249 | for every cutting into writes the file is the encryption of the whole, cut into blocks, or without encryption the whole itself |
| Storage.Load | main/core/firmware_upload/fw_upload_storage.c:299-335 | for every sequence of read sizes the pieces are the plaintext's |
| Storage.LoadPlain | main/core/firmware_upload/fw_upload_storage.c:303-305 | the same for a file that is not encrypted |
| Storage.PiecesAreThePlaintext | main/core/firmware_upload/fw_upload_storage.c:306-334 | the pieces are the original bytes in order, complete once enough was asked for, and then nothing |
| HhtKeys.Keys.PollOnce | main/core/hht/hht_keys.c:74-125 | a poll of the five static fields moves as the specification machine and sends its key |
| HhtKeys.Keys.CancelShort | main/core/hht/hht_keys.c:48-72 | a display change ends a burst with a release and leaves a long press alone |
| HhtKeys.Keys.Send | main/core/hht/hht_keys.c:127-141 | a short press replaces whatever was going on; releasing is deferred |
| HhtKeys.Keys.SendLong | main/core/hht/hht_keys.c:143-157 | a long press replaces whatever was going on |
| HhtKeys.ShortPressSends | main/core/hht/hht_keys.c:74-141 | from any state a short press sends its key on exactly the next four polls and releases from the fifth on, however early the app releases |
| HhtKeys.CancelledPressSends | main/core/hht/hht_keys.c:48-125 | a cancelled press has sent at most four keys and releases at once |
| HhtKeys.LongPressSends | main/core/hht/hht_keys.c:74-157 | a long press sends its key on every poll until it is released |
| HhtKeys.AtMostFourEach | main/core/hht/hht_keys.c:74-141 | over every run without long presses no more than four keys are sent for each short press |

## Left out

- Drivers and operating system (UART, CAN controller, SD card, Wi-Fi, BLE, HTTP, tasks): replaced by byte sequences, replies and refusals; a timeout is the end of the stream, or for the probe link a number of receive calls.
- Menus, command line, web handlers, display mirroring, logging and progress reports: user interface.
- Metadata as JSON, base64 and the AES primitive: library code; the block cipher is any function with an inverse on 16-byte blocks.
- Heap exhaustion: allocation is taken to succeed.
- ImageContext.Context.Put: the image buffer is a sequence in a field, so reallocation and moving bytes within one allocation are not modelled.
- IspLink.Wire.SendCommand: commands are values, so their decimal spelling and line endings are not modelled, and only data blocks can be damaged. The branch for a target that echoes every command is not modelled; the program switches echo off when it connects.
- IspHost.WriteToRam: a stray line that begins with a reply the host waits for is excluded, because nothing is known of the target once the host is misled; the target's echo of the checksum is not. Addresses are not reduced to 32 bits, and null pointers are not modelled.
- IspHost.PushHolds: assumes that all damage to a block is noticed; blocks whose damage leaves length and sum unchanged are outside the statement.
- IspFlash.WriteToFlash: the block buffer has two readable bytes beyond the block, because the encoder may read them; bank 0 is the only bank prepared, as in the source.
- SrecParser.ToImage: requires a text that stays inside the record buffer; what the source does after writing beyond it is not modelled.
- SrecParser.ToSink: the same.
- IhexAgreement.DecodersAgreeIff: covers files whose checksums are all good and that stand one record a line.
- Loader.ProcessCoff: requires a readable header and range tests that do not go wrong; beyond that the source reads outside its buffer.
- Loader.ProcessElf: the same.
- BinSink.RunIff: writes ending at or beyond 2^32 are excluded; the end would wrap around.
- Packet.Parser.ParseByte: what the parser does after overrunning its buffer is not modelled.
- CanTransfer.Bus.SendUserSoftware: needs one readable byte beyond the data, and five in all; waiting forever for a frame is an outcome of its own.
- Erase, page and finish commands of the CAN update, and its page loop: single frames without further structure.
- stm32_update.c: its caller narrows a full block length of 256 to 0, so writing does not do what is intended.
- The literal part and sector tables: the proofs quantify over sector maps.
- The other handheld protocols, role dispatching and the older copy of the serial flow, which is not built.
