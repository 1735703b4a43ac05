# Verified cores of the cabinet emulator

The emulator hosts an arcade game on a PC: a loader process, hooks inside the
game, and a hot-swappable `logic.dll` that plays the cabinet's devices. Most of it
is Windows plumbing, but a dozen small algorithms decide whether the game gets the
right bytes. This project models those algorithms as the C code has them and
proves, for all inputs or all runs, what each is for.

| files | component | what is established |
|---|---|---|
| `Huffman`, `Deflate`, `DeflateStream`, `DeflateTables` | the DEFLATE format | canonical Huffman codes, LZ77 tokens, run-length coded code lengths, blocks and streams, as an encoder may write them (RFC 1951) and as the decoder reads an arbitrary byte string; the decoder accepts exactly what can be written |
| `FixedCode`, `DeflateExamples` | the format in numbers | every code word of the fixed codes, and byte strings of each block type with the text they decode to |
| `BitReader`, `HuffmanTables`, `Inflate` | `allnet.c` decoder | the in-place bit reader, tables and loops compute exactly that decoding function |
| `Base64`, `Zlib` | `allnet.c` encoder side | base64, Adler-32, stored-block encoder, and the round trip through all of them |
| `Words`, `Crc32`, `CrcPolynomial`, `CrcDetection`, `Eeprom` | `mxdevices.c` | table-driven CRC-32 against the bitwise one and against polynomial division over GF(2), error detection, the STATIC record, SMBus window, SRAM |
| `HotReload`, `ReloadRuns`, `ReloadLoads` | `reload.c`, `hook.c` | module swap under a reader/writer lock, one step per shared access, over every interleaving; what a load must have checked before it publishes, and what it leaves behind |
| `JvsWire`, `JvsBoard`, `JvsFrame`, `JvsRuns`, `JvsCommands` | `mxjvs.c` | byte stuffing, command interpreter, frame handler, coin ledger over every run, and every command from wire to wire in bytes |
| `Touch`, `Card`, `CardCommands` | `touch.c`, `card.c` | byte-stream devices under any chunking of writes and reads, and what every frame and dump they deliver says |
| `StringSet`, `StringScan` | `nrs_strings.c` | linear-probing set and the two run scanners |
| `LogView` | `loader.c` | filtered view of a bounded log |
| `LineServer` | `keychip_server.c` | line reassembly from arbitrary receives |
| `SceneDelta` | `api.c` | multiset difference of scene lists and its replay |
| `Bits`, `Buffers`, `Wrappers` | shared | bytes and bits, filling and copying, `Option` |

How the pieces are tied together: code that changes state is a method or a class
over the same fields and arrays; its contract equates the new state with a
function of the old one (`Value()` is the object as a value), and the theorems
are about that function. For the codecs the function is in turn characterised by
an independent description of the format, in both directions. The constants such a
function shares with the code are pinned from outside: by the words and examples of the
published formats for the codecs, by polynomial division for the CRC, by the literal
sequence of checks for the reload, and by what goes over the wire, byte by byte, for the
devices.

Where the code and its notes disagree, the code is followed: `facts/amjvs.md:242-250`
describes an exclusive-or escape and a checksum plus one, while `mxjvs.c:42` and
`mxjvs.c:56` escape a byte as itself less one and the checksum is the plain sum.

Some properties one would expect hold only within a bound. Each bound is something the
caller can tell beforehand, is proved exact, and comes with an input that breaks it
where the program can receive one:

* a frame of known, non-silent JVS commands is answered with all their reports if and
  only if the reports of these commands take at most 253 bytes, which does not depend
  on the board (`JvsFrame.Exchange`, `JvsBoard.ReportsHaveSize`). Asking for 127 analog
  channels goes beyond it, and the reply that comes back is acceptable but empty
  (`JvsFrame.TooManyChannels`);
* the lines of a NUL-free stream are answered unchanged if and only if every receive fits
  behind the unfinished line before it and no line is longer than 599 bytes
  (`LineServer.ChunkingIff`); lines of at most 511 bytes always are
  (`LineServer.AnyChunking`), and `LineServer.LosesLine` is a chunking that cuts the
  front off a line of 592 bytes;
* the string set equals the set of strings offered if and only if at most 65536
  distinct ones were (`StringSet.StoredUntilFull`).

Two more bounds are exact but never reached in this program. A touch position comes
back if and only if both axes are at most 0xFFF (`Touch.CoordinateRoundTrip`); the mouse
and the control file only ever produce such positions, so that every reading comes back
(`Touch.ReadingRoundTrip`). The room check of `zlib_encode` is enough if and only if the
payload fits one stored block (`Zlib.RoomCheck`); its caller at `allnet.c:486` passes at
most 32768 bytes.

Check the project with `dafny verify dfyconfig.toml`.

## Model

| member | source | states |
|---|---|---|
| Huffman.MatchUnique | src/host/allnet.c:232-241 | whatever the code lengths, over-subscribed ones included, at most one canonical code word stands at any position of a bit stream |
| Huffman.CodeFits | src/host/allnet.c:225-231 | lengths obeying Kraft's inequality give every used symbol a code word that fits in its length |
| Huffman.KraftIff | src/host/allnet.c:225-231 | Kraft's inequality holds exactly when every canonical code word fits |
| Huffman.DecodeEncode | src/host/allnet.c:225-241 | for Kraft-valid lengths the code word of a symbol, followed by any bits, decodes to that symbol and takes exactly its length |
| Huffman.DecodeCoded | src/host/allnet.c:225-241 | the same for any lengths at all, for each symbol whose code word fits in its length |
| Huffman.EncodeDecode | src/host/allnet.c:225-241 | conversely, for any lengths, what decodes to a symbol begins with exactly that symbol's code word, and this code word fits in its length |
| Huffman.PrefixFree | src/host/allnet.c:225-241 | no code word of a Kraft-valid code is a prefix of another's |
| Huffman.Select | src/host/allnet.c:230-237 | every rank below the count of a length belongs to a symbol of that length, so the table has no gaps |
| Deflate.LexEncode | src/host/allnet.c:248-255 | a coded literal or match (length symbol, extra bits, distance symbol, extra bits) is read back as that token, up to its last bit |
| Deflate.EncodeLex | src/host/allnet.c:248-255 | conversely, a token that is read stands in the stream in exactly its coded form |
| Deflate.KraftEncodable | src/host/allnet.c:225-231 | under Kraft-valid lengths every token whose symbols are used can be written |
| Deflate.BlockEncode | src/host/allnet.c:246-259 | any coded token sequence with end-of-block, under any code lengths, decodes to what the tokens emit and ends on the bit after end-of-block |
| Deflate.BlockParse | src/host/allnet.c:246-259 | conversely, whatever the block decoder accepts is the code of a token sequence, and its output is what those tokens emit |
| Deflate.EmitIsExpand | src/host/allnet.c:250-256 | with room for it and distances within the output, what is emitted is the LZ77 expansion, overlapping matches repeating periodically |
| DeflateStream.LexItemEncode | src/host/allnet.c:286-290 | a coded element of the code length vector (length, or run 16, 17, 18 with its count) is read back as that element |
| DeflateStream.LensEncode | src/host/allnet.c:285-291 | any sequence of such elements spelling a vector of the announced size, the last run cut off there, is read back as exactly that vector, ending at its last bit |
| DeflateStream.LensParse | src/host/allnet.c:285-291 | conversely, whatever vector is read is spelled by a sequence of such elements in the stream |
| DeflateStream.ReadClIs | src/host/allnet.c:280-282 | the permuted, cut-off list of code length code lengths is read back whole |
| DeflateStream.HeaderEncode | src/host/allnet.c:279-292 | a dynamic header yields exactly the literal/length and distance code lengths it was made from, and the reader stops at its end |
| DeflateStream.HeaderParse | src/host/allnet.c:279-292 | conversely, whatever header is accepted stands in the stream in its coded form |
| DeflateStream.FixedKraft | src/host/allnet.c:271-276 | the fixed literal/length code is complete and the fixed distance code of 30 symbols obeys Kraft's inequality |
| FixedCode.FixedLiteral | src/host/allnet.c:271-275 | all 288 literal/length code words of the fixed code in numbers: 8 bits from 48 on, 9 bits from 400 on, 7 bits from 0 on and 8 bits from 192 on |
| FixedCode.FixedDistance | src/host/allnet.c:276 | the 30 fixed distance code words are the symbols themselves in five bits |
| FixedCode.WorkedExample | src/host/allnet.c:225-241 | the eight code words of the published example for lengths 3, 3, 3, 3, 3, 2, 4, 4 |
| DeflateStream.BlockIff | src/host/allnet.c:246-259 | for any code lengths the block decoder returns an end position and an output if and only if the stream holds a coded token sequence ending there that emits that output |
| DeflateStream.DynamicDecode | src/host/allnet.c:278-293 | a dynamic block decodes to what its tokens emit under the codes its header describes |
| DeflateStream.BlockDecode | src/host/allnet.c:264-294 | one block of any kind decodes to what it emits and leaves the reader at its end |
| DeflateStream.BodyParse | src/host/allnet.c:264-294 | conversely, whatever block body is accepted is that of a stored, fixed or dynamic block, with that output and end |
| DeflateStream.StreamIff | src/host/allnet.c:260-298 | for every byte string, output so far and output size: decoding gives an output if and only if the bytes are a sequence of stored, fixed and dynamic blocks, the final one flagged, that emits exactly this output |
| DeflateStream.StreamDecode | src/host/allnet.c:260-298 | any well-formed stream mixing stored, fixed and dynamic blocks, with room for its expansion, decodes to exactly that expansion, matches reaching across block boundaries |
| DeflateExamples.DynamicExample | src/host/allnet.c:278-293 | a dynamic block of 15 bytes, with every kind of run and a match, decodes to "aaaa" given room |
| DeflateExamples.FixedExample | src/host/allnet.c:271-277 | the fixed block 4B 04 00 decodes to "a" |
| DeflateExamples.CrossingExample | src/host/allnet.c:260-298 | a stored block "ab" and a fixed block whose match reaches back into it decode to "ababa" |
| DeflateExamples.OrdLiterally | src/host/allnet.c:280 | the nineteen places of the transmission order, one by one |
| DeflateTables.LBaseIs | src/host/allnet.c:242 | the literal table of length bases is the running sum of 3 and the powers given by the extra bits, with 258 last |
| DeflateTables.DBaseIs | src/host/allnet.c:244 | the same for the table of distance bases |
| DeflateTables.LExtIs | src/host/allnet.c:243 | the literal table of length extra bits is the arithmetic rule of the format |
| DeflateTables.DExtIs | src/host/allnet.c:245 | the same for distance extra bits |
| DeflateTables.OrdIs | src/host/allnet.c:280 | the literal table of transmission order is the permutation the header is specified with |
| DeflateTables.MatchRange | src/host/allnet.c:242-245 | the tables offer a token for a length and a distance exactly when 3 <= length <= 258 and 1 <= distance <= 32768 |
| BitReader.BitS.Gb1 | src/host/allnet.c:219-222 | the next bit, low bit of each byte first, or -1 exactly at the end of the input |
| BitReader.BitS.Gbn | src/host/allnet.c:223 | the next n bits as an integer, or -1 with the input used up if fewer are left |
| HuffmanTables.CountLens | src/host/allnet.c:226-228 | the number of symbols of each length, that of the unused ones cleared |
| HuffmanTables.Offsets | src/host/allnet.c:228-229 | the offset of each length is the number of used symbols with shorter codes |
| HuffmanTables.Place | src/host/allnet.c:230 | every used symbol lands in its own slot, within the table and overwriting none |
| HuffmanTables.HufBuild | src/host/allnet.c:225-231 | for any lengths of 0 to 15 the tables hold the counts per length and every used symbol at its canonical slot |
| HuffmanTables.HufDecode | src/host/allnet.c:232-241 | returns the symbol whose canonical code word is next, having consumed exactly that word, and -1 exactly if there is none; table reads stay in range for any lengths |
| Inflate.CopyMatch | src/host/allnet.c:256 | the byte-by-byte copy repeats the last bytes periodically, cut at the room left, and copies nothing if it reaches back too far |
| Inflate.MatchRepeats | src/host/allnet.c:256 | every byte a match adds is the byte its distance before, and nothing before the match changes |
| Inflate.ReadMatch | src/host/allnet.c:252-255 | the rest of a match is the one in the stream; an unchecked failed read of extra bits leaves the input used up |
| Inflate.InflateBlock | src/host/allnet.c:246-259 | for all input: 0 with the output and position of the decoding function, or -1 exactly when that function fails |
| Inflate.FillRun | src/host/allnet.c:288-290 | a run of one length, cut at the announced size |
| Inflate.ReadRun | src/host/allnet.c:287-290 | how long a run is and which length it repeats; a failed read leaves the input used up |
| Inflate.ReadSizes | src/host/allnet.c:279 | the three sizes of a dynamic header, each within its range |
| Inflate.ReadClLens | src/host/allnet.c:280-282 | the code length code lengths, each at the place the transmission order gives |
| Inflate.ReadLengths | src/host/allnet.c:284-291 | the vector of code lengths is the one in the stream, within bounds and with every length at most 15 |
| Inflate.ReadDynamic | src/host/allnet.c:278-292 | both tables represent exactly the code lengths of the header |
| Inflate.FixedTables.Ensure | src/host/allnet.c:271-276 | the lazily built static tables represent the fixed codes, whose words are those of `FixedCode.FixedLiteral` and `FixedCode.FixedDistance`, whether built now or earlier |
| Inflate.InflateStored | src/host/allnet.c:266-269 | a stored block is copied from the next byte boundary, cut at the room left, or fails where the input ends |
| Inflate.CopyStored | src/host/allnet.c:269 | takes bytes while there is room and fails exactly if the input is used up while a byte is still counted |
| Inflate.InflateBody | src/host/allnet.c:266-294 | a block of any kind, the invalid fourth one included, has the result of the decoding function |
| Inflate.InflateRaw | src/host/allnet.c:260-298 | for every input the source has a meaning for: the length and bytes of the decoded stream, or -1 exactly when decoding fails |
| Base64.QuadBits | src/host/allnet.c:174-182 | the four digits of a group spell the same 24 bits as its three octets |
| Base64.DigitVal | src/host/allnet.c:169-205 | the value of each alphabet character is its position |
| Base64.AlphabetIs | src/host/allnet.c:169 | the alphabet is A-Z, a-z, 0-9, + and /, in this order, and padding is = |
| Base64.KnownTexts | src/host/allnet.c:170-186 | the encodings of "f", "fo" and "foobar" |
| Base64.Shift6 | src/host/allnet.c:210 | the wrap at 32 bits never disturbs the bits still pending |
| Base64.DecodeEncode | src/host/allnet.c:170-214 | decoding an encoding gives the octets back, for all lengths |
| Base64.DecodeAnyLayout | src/host/allnet.c:206-214 | any text with the alphabet characters of an encoding in the same order decodes to the original |
| Base64.InsertIgnored | src/host/allnet.c:209 | inserting a character outside the alphabet anywhere changes nothing |
| Base64.B64Encode | src/host/allnet.c:170-186 | writes the encoding, cut to the whole groups that fit before the terminating zero |
| Base64.PutGroups | src/host/allnet.c:172-183 | the groups written are a beginning of the encoding, as many as fit |
| Base64.B64Decode | src/host/allnet.c:206-214 | outputs the octets the text spells, as many as fit, with an accumulator that wraps at 32 bits |
| Zlib.Adler32 | src/host/allnet.c:215-217 | the running sums give the closed form of Adler-32 |
| Zlib.AdlerStep | src/host/allnet.c:215-217 | the closed form starts at 1 and follows the two sums modulo 65521 from byte to byte |
| Zlib.AdlerExample | src/host/allnet.c:215-217 | the checksum of "abc" is 0x024D0127 |
| Zlib.HeaderValid | src/host/allnet.c:305 | the two header bytes name method 8 with a legal window, no dictionary, and are a multiple of 31 |
| Zlib.StoredLiterally | src/host/allnet.c:308-312 | the flag, size and complement of a stored block in bytes |
| Zlib.EncodedExample | src/host/allnet.c:303-317 | the twelve bytes that encode "a" |
| Zlib.LongLiterally | src/host/allnet.c:307-313 | beyond 65535 bytes the encoding begins with a block of so many bytes that is not the last, and goes on with the blocks of the rest |
| Zlib.StreamIs | src/host/allnet.c:307-313 | what the encoder writes is a well-formed DEFLATE stream of stored blocks |
| Zlib.ZlibRoundTrip | src/host/allnet.c:299-317 | decoding what the encoder writes gives the payload back, for every payload and output buffer with room for it |
| Zlib.PayloadRoundTrip | src/host/allnet.c:170-317 | payload to zlib to base64, with foreign characters inserted anywhere, and back is the payload |
| Zlib.RoomCheck | src/host/allnet.c:304 | a buffer of n + 11 bytes is big enough exactly for payloads of at most 65535 bytes |
| Zlib.PutBlock | src/host/allnet.c:308-312 | one stored block: flag, size, complemented size, bytes |
| Zlib.PutBlocks | src/host/allnet.c:307-313 | the blocks written are the stored stream of the payload |
| Zlib.PutWord | src/host/allnet.c:315 | the checksum high byte first |
| Zlib.ZlibEncode | src/host/allnet.c:303-317 | -1 and nothing written if the room check fails, else header, stored blocks and big-endian Adler-32 |
| Zlib.ZlibDecode | src/host/allnet.c:299-302 | -1 for fewer than two bytes, else the decoding of what follows the header, checksum unread |
| Crc32.TableStep | src/logic/driver/mxdevices.c:80-89 | eight bitwise steps are one shift by a byte and one table entry |
| Crc32.ByteSteps | src/logic/driver/mxdevices.c:80 | feeding eight bits one by one is xoring the byte in and stepping eight times |
| Crc32.StepXor | src/logic/driver/mxdevices.c:80 | a step is linear over exclusive-or |
| CrcDetection.StepInjective | src/logic/driver/mxdevices.c:80 | a step can be undone |
| CrcPolynomial.PolyIsGenerator | src/logic/driver/mxdevices.c:80 | the constant is the reflected generator with exponents 32, 26, 23, 22, 16, 12, 11, 10, 8, 7, 5, 4, 2, 1 and 0 |
| CrcPolynomial.Division | src/logic/driver/mxdevices.c:80 | long division by the generator leaves a remainder: quotient times generator plus remainder is the dividend |
| CrcPolynomial.CrcIsRemainder | src/logic/driver/mxdevices.c:85-91 | for all data and initial values the CRC, lowest bit as highest power, is the complement of the remainder, modulo this generator over GF(2), of the message times x^32 with the complemented initial value added to its front |
| CrcPolynomial.CheckValue | src/logic/driver/mxdevices.c:85-91 | the CRC of "123456789" is 0xCBF43926 |
| Crc32.CrcChain | src/logic/driver/mxdevices.c:85-91 | the CRC of a concatenation is the CRC of the second part continued from that of the first |
| CrcDetection.RegisterInjective | src/logic/driver/mxdevices.c:85-91 | the same bytes never bring two different registers together |
| CrcDetection.BurstDetected | src/logic/driver/mxdevices.c:85-91 | changing at most four consecutive bytes anywhere in a message changes its CRC |
| Crc32.CrcTable.CreateTable | src/logic/driver/mxdevices.c:77-84 | afterwards every table entry is eight bitwise steps of its index |
| Crc32.CrcTable.Calc | src/logic/driver/mxdevices.c:85-91 | the table-driven result is the bit-by-bit reflected CRC-32, which `CrcPolynomial.CrcIsRemainder` ties to the generator, for all data and initial values, building the table at first use |
| Eeprom.DamageDetected | src/logic/driver/mxdevices.c:94-96 | damage within four consecutive payload bytes, or within the stored CRC, of an intact record always fails the check |
| Eeprom.OneByteDetected | src/logic/driver/mxdevices.c:94-96 | so does a change of any single byte |
| Eeprom.SeededIntact | src/logic/driver/mxdevices.c:93-111 | after seeding the primary record is intact whatever was there before; nothing outside the two records changes; an intact record leaves everything unchanged; seeding again changes nothing |
| Eeprom.IntactIff | src/logic/driver/mxdevices.c:94-96 | the check passes exactly if the first four bytes, low byte first, are the CRC of the other 28 |
| Eeprom.SeededLiterally | src/logic/driver/mxdevices.c:93-108 | byte by byte: nothing changes while the check passes; otherwise the records at 0 and 0x1000 are the factory record, region 1 at offset 12, the serial number at offset 15, zeros elsewhere behind the CRC, and all other bytes stay |
| Eeprom.SeedIntact | src/logic/driver/mxdevices.c:98-103 | the factory record passes the check |
| Eeprom.SmallWriteDetected | src/logic/driver/mxdevices.c:93-111 | an SMBus write of at most four bytes that alters an intact record makes the check fail, so that the next seeding restores the factory record |
| Eeprom.EepromDevice.PutRecord | src/logic/driver/mxdevices.c:105-107 | the record at its place, everything else kept |
| Eeprom.EepromDevice.SeedStatic | src/logic/driver/mxdevices.c:93-111 | the memory becomes its seeded form: unchanged if the primary record is intact, else both copies replaced by the factory record |
| Eeprom.EepromDevice.SmbusWrite | src/logic/driver/mxdevices.c:224 | the bytes are stored from the address on, those past the end dropped, nothing else changed |
| Eeprom.WrittenAt | src/logic/driver/mxdevices.c:224 | every byte of the memory after a write |
| Eeprom.EepromDevice.SmbusRead | src/logic/driver/mxdevices.c:223 | the bytes from the address on, fewer at the end of the memory or of the reply |
| Eeprom.SramDevice.Seek | src/logic/driver/mxdevices.c:267-279 | the target if it lies in the memory, else the nearer end |
| Eeprom.SramDevice.Read | src/logic/driver/mxdevices.c:281-292 | the bytes from the pointer on, at most what is left, the pointer moved past them |
| Eeprom.SramDevice.Write | src/logic/driver/mxdevices.c:294-305 | the bytes that fit are stored at the pointer, all others kept, the pointer moved past them |
| Eeprom.SramDevice.WriteThenRead | src/logic/driver/mxdevices.c:267-305 | seeking, writing, seeking back and reading returns the record and changes nothing else |
| ReloadRuns.NoUnloadedCode | src/host/reload.c:15-35 | in every interleaving no thread executes, or holds a table of, a module that is unloaded, neither a hook between its reads nor the loader querying and binding |
| ReloadRuns.ReadsAgree | src/host/hook.c:39-41 | all reads of the table inside one locked hook see the same, current table |
| ReloadRuns.NeverNull | src/host/hook.c:39-41 | a hook that has seen a table never finds the pointer null at its later reads |
| ReloadRuns.FreedOnce | src/host/reload.c:19-33 | between loads every module ever loaded is either current and not freed or freed exactly once, and handle and table agree; no module is ever freed twice |
| ReloadRuns.Monotone | src/host/reload.c:28-32 | the published table is never replaced by an older one |
| ReloadRuns.StableInside | src/host/hook.c:33-41 | the table does not change while a hook stays between ENTER and LEAVE |
| ReloadLoads.LoadTrace | src/host/reload.c:15-35 | at every moment of every run the loader is where exactly one sequence of steps of do_load, with their outcomes, has brought it since that load began |
| ReloadLoads.PublishedPassed | src/host/reload.c:18-31 | over every run a module is published only after LoadLibrary, logic_get_api and the version check have all succeeded, in this order and for this very module |
| ReloadLoads.LoadOutcome | src/host/reload.c:15-35 | over every run, whatever hooks do meanwhile, an ended load whose three checks succeeded leaves its module as table and handle and the one before freed; one that failed at any of them leaves table and handle as before and its module, if loaded at all, freed once |
| ReloadLoads.FailedLoadChangesNothing | src/host/reload.c:19-24 | while no load passes all three checks, any number of loads, with any hook steps in between, leave table and handle as they were |
| ReloadLoads.PassedPublishes | src/host/reload.c:24-34 | a load that passed the last check has published once it has ended |
| ReloadLoads.ChangedIffPassed | src/host/reload.c:15-35 | over a stretch of a run between loads hooks see another table exactly if a load passed all three checks in it |
| ReloadLoads.HookTrace | src/host/hook.c:33-41 | over every run and thread, a hook goes on past its first test exactly if a table is published, and calls exactly if this table has the function |
| ReloadRuns.QuietStretch | src/host/reload.c:26-34 | while no store to the table happens, table and handle stay as they are between loads |
| ReloadRuns.ChangedIffPublished | src/host/reload.c:26-34 | over a stretch of a run hooks see another table exactly if a load succeeded in it |
| HotReload.StepInv | src/host/reload.c:15-35 | every enabled step of a hook or of the loader keeps the invariant |
| ReloadRuns.RunInv | src/host/reload.c:15-35 | the invariant holds in every state of every run from nothing loaded |
| ReloadRuns.ApiStep | src/host/reload.c:31 | only the one store publishes a table, and it is newer than the one before |
| JvsWire.UnmaskMask | src/logic/driver/mxjvs.c:36-63 | unmasking a masked frame gives the frame back, for every nonempty frame |
| JvsWire.NoSync | src/logic/driver/mxjvs.c:48-63 | the sync byte never appears after the first byte of a masked frame |
| JvsWire.Unmask | src/logic/driver/mxjvs.c:36-46 | the unmasked bytes, or -1 exactly if the input is empty, ends inside an escape or does not fit |
| JvsWire.Mask | src/logic/driver/mxjvs.c:48-63 | the masked bytes, or -1 exactly if they do not fit |
| JvsCommands.StuffLiterally | src/logic/driver/mxjvs.c:48-63 | E0 is sent as D0 DF, D0 as D0 CF, every other byte as itself |
| JvsCommands.RequestLiterally | src/logic/driver/mxjvs.c:72-75 | a request frame in bytes: E0, node, length, payload, and the sum of all but the first |
| JvsCommands.ReplyLiterally | src/logic/driver/mxjvs.c:178-184 | a reply frame in bytes, for reports of at most 253 bytes: E0, 00, length, status, reports and the sum |
| JvsCommands.AcceptedIs | src/logic/driver/mxjvs.c:72-75 | which frames are accepted: the requests, whatever follows them, and those of length and node 0; none shorter than five bytes |
| JvsCommands.ReactsIff | src/logic/driver/mxjvs.c:69-75 | a masked frame is run exactly if it is accepted and at most 512 bytes long |
| JvsCommands.OneByteRejected | src/logic/driver/mxjvs.c:72-75 | changing the sync byte, or any one byte up to the checksum but the length, of any accepted frame makes it be rejected |
| JvsCommands.FrameExample | src/logic/driver/mxjvs.c:69-187 | a request and its answer, byte by byte |
| JvsCommands.Identifies | src/logic/driver/mxjvs.c:100-115 | from the wire, for every board and node: the identification text, the versions 0x13, 0x20 and 0x10, and the feature list in bytes, the board unchanged |
| JvsCommands.Addresses | src/logic/driver/mxjvs.c:89-99 | from the wire: 0xF1 assigns the address and ends sensing, 0xF0 takes it back, 0xF0 and 0xF2 are not answered |
| JvsCommands.ReadsSwitches | src/logic/driver/mxjvs.c:121-131 | from the wire: the report of a switch read in bytes for every number of players and bytes asked for |
| JvsCommands.ReadsCoins | src/logic/driver/mxjvs.c:132-140 | from the wire: the report of a coin read in bytes for every number of slots |
| JvsCommands.ReadsAnalogs | src/logic/driver/mxjvs.c:141-149 | from the wire: every byte of the report of an analog read, up to the reply buffer |
| JvsCommands.DecreasesCoins | src/logic/driver/mxjvs.c:150-154 | from the wire, for every board, slot and amount n below 65536: the frame 30 slot n/256 n%256 leaves the counter less n exactly if the slot is one of two and n is at most the counter, and changes nothing else |
| JvsCommands.InsertedIs | src/logic/driver/mxjvs.c:32-33 | over any run the coins inserted are the times the coin switch closed |
| JvsCommands.CoinsCounted | src/logic/driver/mxjvs.c:10-34 | after k < 65536 closings from power-on the counter is k |
| JvsCommands.AllCoinsSpent | src/logic/driver/mxjvs.c:10-154 | and a frame decreasing it by k then leaves 0 |
| JvsCommands.AcknowledgesText | src/logic/driver/mxjvs.c:116-120 | a zero-terminated text is acknowledged and changes nothing |
| JvsCommands.AcknowledgesData | src/logic/driver/mxjvs.c:155-160 | so is counted output data |
| JvsCommands.AcknowledgesOutputs | src/logic/driver/mxjvs.c:161-166 | so are the two-byte outputs |
| JvsCommands.MissingArgument | src/logic/driver/mxjvs.c:83-155 | arguments missing at the end of a payload count as zero, from the wire: an address, the low byte of an amount |
| JvsCommands.MissingSize | src/logic/driver/mxjvs.c:83-131 | so does the size of a switch word, which is then invalid |
| JvsCommands.MissingCount | src/logic/driver/mxjvs.c:83-149 | so do the numbers of coin slots and analog channels |
| JvsCommands.Refuses | src/logic/driver/mxjvs.c:167-176 | any other first byte ends the payload with status 2, no report and no change |
| JvsCommands.PowerOnLiterally | src/logic/driver/mxjvs.c:10-15 | the board at power-on, field by field |
| JvsBoard.ParseEncode | src/logic/driver/mxjvs.c:83-171 | a complete command is read back whole, whatever follows it; an unknown one takes the rest of the payload |
| JvsBoard.RunCommands | src/logic/driver/mxjvs.c:86-172 | running a payload that starts with complete known commands applies them in order and goes on with the rest |
| JvsBoard.PayloadReports | src/logic/driver/mxjvs.c:86-176 | a payload of complete known commands reports, in order, what each reports on the evolving board, cut off at the 508 bytes of the reply buffer, with status OK |
| JvsBoard.UnknownStops | src/logic/driver/mxjvs.c:167-170 | an unknown command keeps the reports before it, drops everything after it and sets status 2 |
| JvsBoard.ReportsHaveSize | src/logic/driver/mxjvs.c:86-171 | how long the reports of known commands are depends on the commands alone |
| JvsBoard.InputReported | src/logic/driver/mxjvs.c:17-149 | the switch and analog reports after an input sample carry every sampled button word, the test switch and both axes |
| JvsBoard.ButtonBits | src/logic/driver/mxjvs.c:18-24 | each of the first four buttons is exactly one bit of the switch word, the rest its low nine bits |
| JvsBoard.LowBits | src/logic/driver/mxjvs.c:23-27 | each of the other five buttons is exactly one bit of those |
| JvsBoard.AnalogBack | src/logic/driver/mxjvs.c:141-149 | every channel asked for is read back, 0x8000 for those the board lacks |
| JvsBoard.SwitchBack | src/logic/driver/mxjvs.c:126-129 | every player asked for is read back left-justified in 16 bits |
| JvsBoard.CoinBack | src/logic/driver/mxjvs.c:132-140 | every slot asked for that exists is read back modulo 2^14, no others are reported |
| JvsFrame.ReplyLength | src/logic/driver/mxjvs.c:180 | the length byte is right exactly for reports of at most 253 bytes |
| JvsFrame.ReplyFaithful | src/logic/driver/mxjvs.c:178-184 | a reply passes the handler's own sync, length and checksum test and carries status and all reports exactly when the reports take at most 253 bytes |
| JvsFrame.RequestAccepted | src/logic/driver/mxjvs.c:72-75 | a request built around any payload of 1 to 254 bytes is accepted with that payload |
| JvsFrame.Exchange | src/logic/driver/mxjvs.c:69-187 | from wire to wire: a frame of complete known non-silent commands is answered by a frame that unmasks to status OK and all reports in order if and only if the reports of these commands take at most 253 bytes |
| JvsFrame.TooManyChannels | src/logic/driver/mxjvs.c:141-186 | a receivable request beyond that bound: 127 analog channels at power-on are answered by an acceptable frame with an empty payload |
| JvsFrame.JvsDevice.constructor | src/logic/driver/mxjvs.c:10-15 | the power-on board |
| JvsFrame.JvsDevice.SetInput | src/logic/driver/mxjvs.c:17-34 | the board takes the sampled state; a rising coin edge adds one coin modulo 2^16 |
| JvsFrame.Sum8 | src/logic/driver/mxjvs.c:65-67 | the sum of the bytes modulo 256 |
| JvsFrame.WriteAll | src/logic/driver/mxjvs.c:84 | bytes are appended to the reply and dropped where the buffer is full |
| JvsFrame.Rd | src/logic/driver/mxjvs.c:83 | the byte at the cursor, zero without advancing past the end |
| JvsFrame.SkipText | src/logic/driver/mxjvs.c:117-118 | the cursor behind the next zero, or at the end |
| JvsFrame.SkipData | src/logic/driver/mxjvs.c:157-158 | the cursor behind the counted bytes, or at the end |
| JvsFrame.JvsDevice.WriteSwitches | src/logic/driver/mxjvs.c:126-129 | the switch words of the players asked for |
| JvsFrame.JvsDevice.WriteCoins | src/logic/driver/mxjvs.c:135-138 | the counters of the existing slots asked for |
| JvsFrame.JvsDevice.WriteAnalogs | src/logic/driver/mxjvs.c:144-147 | the channels asked for |
| JvsFrame.JvsDevice.ExecInfo | src/logic/driver/mxjvs.c:100-115 | the identification commands write their fixed reports |
| JvsFrame.JvsDevice.ExecSwitches | src/logic/driver/mxjvs.c:121-131 | the test switch and switch words, or an invalid parameter |
| JvsFrame.JvsDevice.ExecRead | src/logic/driver/mxjvs.c:121-149 | a read command consumes its arguments and reports as specified, or reports an invalid parameter |
| JvsFrame.JvsDevice.ExecCoin | src/logic/driver/mxjvs.c:150-154 | the counter goes down by the amount exactly if the slot exists and holds it |
| JvsFrame.JvsDevice.ExecSet | src/logic/driver/mxjvs.c:96-166 | a set command consumes its arguments, changes the board as specified and acknowledges |
| JvsFrame.Finish | src/logic/driver/mxjvs.c:178-184 | header and checksum around the reports |
| JvsFrame.JvsDevice.Exec1 | src/logic/driver/mxjvs.c:86-171 | one turn of the loop consumes, reports and changes the board as the parsed command does |
| JvsFrame.JvsDevice.RunPayload | src/logic/driver/mxjvs.c:77-172 | the command loop terminates with the interpreter's board, reports, status and silence |
| JvsFrame.JvsDevice.HandleFrame | src/logic/driver/mxjvs.c:69-187 | rejected frames change nothing and return 0; accepted ones leave the interpreter's board and the masked reply, nothing if silenced, -1 if it does not fit |
| JvsRuns.CommandKeeps | src/logic/driver/mxjvs.c:86-171 | every command keeps the board invariant, and balance plus coins taken stays the same |
| JvsRuns.AdvanceKeeps | src/logic/driver/mxjvs.c:17-172 | every input sample and every frame, accepted or not, keeps the invariant and the coin ledger |
| JvsRuns.CoinsConserved | src/logic/driver/mxjvs.c:10-172 | over every run from power-on coins taken never exceed coins inserted, the counter is their difference modulo 2^16, slot 1 stays 0, sense 1 implies address 0xFF, switch words stay below 2^13 |
| Touch.CoordinateRoundTrip | src/logic/driver/touch.c:50-65 | the position and the pressed flag are recovered from a coordinate frame, the position if and only if both axes are at most 0xFFF |
| Touch.ChecksumLiterally | src/logic/driver/touch.c:11-15 | ten bytes from 0x55 on are a frame exactly if the last is the sum of the eight between them plus 255, modulo 256 |
| Touch.AckLiterally | src/logic/driver/touch.c:67-75 | the acknowledgement in bytes |
| Touch.PositionLiterally | src/logic/driver/touch.c:50-65 | every coordinate frame in bytes |
| Touch.PollLiterally | src/logic/driver/touch.c:77-100 | on any panel waiting for sync, ten bytes from 0x55 on queue the acknowledgement exactly if the second is p or P and ten more bytes fit the 64 of the buffer |
| Touch.PollsHeld | src/logic/driver/touch.c:77-100 | of any number of polls with nothing read in between the first six are answered |
| Touch.ReadLiterally | src/logic/driver/touch.c:102-109 | what a read returns and leaves: the front of the queue, the buffer free again only once it is empty, a position if ten more bytes are asked for |
| Touch.ForcedLiterally | src/logic/api.c:770-784 | a forced position in thousandths, each axis its own, clamped and scaled to 4095 |
| Touch.CornersLiterally | src/logic/driver/touch.c:23-48 | with gains of 1 the corners of the window, and everything beyond them, are those of the panel; pressed means held, focused and inside; without a window only the press ends |
| Touch.GainLiterally | src/logic/driver/touch.c:36-43 | the gain is about the centre: 2 takes the outer quarters to the ends, 0 leaves the middle |
| Touch.ReadingRoundTrip | src/logic/driver/touch.c:23-65 | whatever is read, from the mouse at any place in or outside any window or from the control file, the game gets exactly that position back |
| Touch.MouseEdges | src/logic/driver/touch.c:29-43 | with the gain of 1 the edges of the window are the ends of the axis, and moving the mouse one way never moves the position the other way |
| Touch.ChunkedWrite | src/logic/driver/touch.c:84-100 | cutting a write into pieces changes nothing |
| Touch.AlwaysFramed | src/logic/driver/touch.c:77-109 | over every interleaving of writes, reads and position readings, the bytes read followed by those queued are whole frames with sync byte and checksum |
| Touch.CommandsSnoc | src/logic/driver/touch.c:84-100 | what one more byte does to the command frames a byte stream spells |
| Touch.StreamMeans | src/logic/driver/touch.c:77-109 | over every run the bytes read and queued are exactly the frames of a log: each command p or P that the bytes written spell is in it once and in order, acknowledged or, for want of room, dropped; each coordinate frame is in it at a read, behind the whole queue, with the position of the last reading before |
| Touch.TouchPanel.constructor | src/logic/driver/touch.c:17-21 | a panel centred, released, with nothing queued |
| Touch.TouchPanel.Sample | src/logic/driver/touch.c:23-48 | the position and the pressed flag follow the reading, and always stay in range |
| Touch.TouchPanel.WriteByte | src/logic/driver/touch.c:86-98 | one byte: ignored while waiting for sync, accumulated, or completing a command |
| Touch.TouchPanel.TxPush | src/logic/driver/touch.c:77-82 | a frame is queued whole or, without room behind the queue, dropped whole |
| Touch.TouchPanel.Write | src/logic/driver/touch.c:84-100 | the panel after the bytes, taken one by one |
| Touch.TouchPanel.Read | src/logic/driver/touch.c:102-109 | as much of the queue as fits, then a coordinate frame if there is room for a whole one |
| Card.PollBack | src/logic/driver/card.c:47-61 | a poll tells presence, type and serial number; the capacity query the size for the type |
| Card.ChunkedWrite | src/logic/driver/card.c:116-127 | cutting a write into pieces changes nothing |
| Card.CommandRun | src/logic/driver/card.c:20-135 | during a command written in any pieces nothing is delivered; once it is complete, what was read and what is queued make up its reply, no byte lost |
| Card.CycleDelivers | src/logic/driver/card.c:20-135 | writing one command in any pieces and draining it by reads of any size delivers exactly its reply |
| Card.DumpFrom | src/logic/driver/card.c:63-76 | k reads deliver the 128k bytes of the card from the cursor on, zero past its end |
| Card.CardDump | src/logic/driver/card.c:9-82 | after nine bytes from 0x2D on, k reads of three bytes from 0x0D on deliver exactly the first 128k bytes of the card, zero-padded past 0x1008 |
| CardCommands.LastByteDecides | src/logic/driver/card.c:9-18 | with the lengths in numbers, nine bytes from 0x2D, five from 0xAD, three from 0x68 and 0x0D, two from 0xB8, one from any other: before the last byte nothing is queued or changed but the bytes received, and with it the reply is queued |
| CardCommands.Acknowledgements | src/logic/driver/card.c:25-114 | such a command, written and its reply read in any pieces, delivers these bytes |
| CardCommands.Poll | src/logic/driver/card.c:47-61 | the reply to a poll in bytes, with and without a card |
| CardCommands.CapacityOf | src/logic/driver/card.c:90-101 | the three capacities in bytes |
| CardCommands.ReadsCard | src/logic/driver/card.c:63-76 | every byte of a read, and where the cursor goes, with and without a card |
| CardCommands.NotAnswered | src/logic/driver/card.c:25-114 | every other byte is a command that is not answered |
| CardCommands.Registers | src/logic/driver/card.c:25-114 | what each command leaves in the registers; none changes the card |
| Card.CardReader.constructor | src/logic/driver/card.c:4-7 | a reader with nothing received, queued or present |
| Card.CardReader.EmitReply | src/logic/driver/card.c:31-113 | the bytes emitted are exactly the reply to the command |
| Card.CardReader.Emit | src/logic/driver/card.c:20-22 | with room required of every call, no reply byte is ever dropped |
| Card.CardReader.BuildResponse | src/logic/driver/card.c:25-114 | the transmit buffer holds exactly the reply and the registers change as the command says |
| Card.CardReader.WriteByte | src/logic/driver/card.c:119-125 | one byte: accumulated, or completing a command and replacing the reply |
| Card.CardReader.Write | src/logic/driver/card.c:116-127 | the reader after the bytes; the receive buffer always holds a strict prefix of one command, so its overflow reset never acts |
| Card.CardReader.Read | src/logic/driver/card.c:129-135 | as much of the reply as fits, in order |
| Card.CardReader.Pending | src/logic/driver/card.c:137-140 | the number of reply bytes not read yet |
| StringSet.EmptyEnds | tools/static/nrs_strings.c:70-72 | an empty slot on a string's probe path means the string is stored nowhere |
| StringSet.Insert | tools/static/nrs_strings.c:72 | storing a string at that slot keeps every stored string reachable from its hash, with wrap-around, and adds exactly it |
| StringSet.FullWhen | tools/static/nrs_strings.c:70-75 | every slot is taken exactly when 65536 strings are stored |
| StringSet.StoredUntilFull | tools/static/nrs_strings.c:67-76 | the stored set is the set of all strings ever added exactly as long as these are at most 65536 |
| StringSet.HashLiterally | tools/static/nrs_strings.c:66-69 | the hash in numbers: 5381, then 33 times the hash plus the signed character, modulo 2^32; its low 16 bits are where the search begins |
| StringSet.SeenSet.SeenAdd | tools/static/nrs_strings.c:67-76 | 1 exactly if the string was not stored; afterwards it is, unless the table is full; a 0 changes nothing |
| StringScan.ScanAscii | tools/static/nrs_strings.c:93-100 | exactly the maximal printable runs of at least five bytes, each once, by increasing offset |
| StringScan.ScanWide | tools/static/nrs_strings.c:102-109 | exactly the maximal runs of at least five UTF-16LE printable characters, at even and odd offsets, each once, by increasing offset |
| StringScan.AsciiLiterally | tools/static/nrs_strings.c:93-100 | a hit is at least five bytes from 0x20 to 0x7E with none before or behind |
| StringScan.WideLiterally | tools/static/nrs_strings.c:102-109 | a wide character is such a byte and a zero, and a hit has at least five and none before or behind |
| LogView.PassingIs | src/host/loader.c:314-316 | the rebuilt list is the increasing list of exactly the passing indices |
| LogView.ViewSound | src/host/loader.c:304-321 | over any run of appends, drops, filter changes, pauses and clears the view is the increasing list of exactly the passing indices among the first m entries, all of them unless paused, and at most 80000 entries remain |
| LogView.ShownIs | src/host/loader.c:304-321 | unless paused, exactly the passing entries kept are shown, over every run |
| LogView.EntriesKept | src/host/loader.c:616-633 | over every run the entries kept are the newest of those since the last clear: all up to 80000, and beyond that from 60001 to 80000 of them, in cycles of 20000 |
| LogView.LastFilter | src/host/loader.c:1258-1267 | the filter in force is the last one set |
| LogView.LastToggle | src/host/loader.c:1269 | the view is paused exactly if the last toggle says so |
| LogView.Frozen | src/host/loader.c:616-633 | while paused and up to 80000 entries nothing that arrives changes what is shown |
| LogView.StepGood | src/host/loader.c:304-321 | every event keeps the view in step with the entries |
| LogView.LogWindow.Ingest | src/host/loader.c:616-633 | the view stays in step; one entry appended; past 80000 the oldest 20000 go and the view is rebuilt; otherwise it is shown if not paused and passing |
| LogView.LogWindow.Rebuild | src/host/loader.c:314-321 | the view becomes all passing indices |
| LogView.LogWindow.ApplyFilter | src/host/loader.c:1258-1267 | a filter change shows all entries passing the new filter |
| LogView.LogWindow.Pause | src/host/loader.c:1269 | pausing freezes the view, resuming rebuilds it |
| LogView.LogWindow.LogClear | src/host/loader.c:909-916 | no entries, nothing shown |
| LineServer.LinesConcat | src/host/keychip_server.c:27-34 | the lines of a concatenation are those of its first part, then those of its unfinished tail joined with the second |
| LineServer.LinesLiterally | src/host/keychip_server.c:27-34 | lines end in byte 10, one byte 13 before it is dropped, and so are lines left empty; the rest is unfinished |
| LineServer.CutIsLines | src/host/keychip_server.c:27-42 | on a NUL-free buffer of lines of at most 599 bytes, cutting the front repeatedly gives its lines and leaves its tail |
| LineServer.CutIs | src/host/keychip_server.c:27-42 | on any NUL-free buffer cutting gives its lines, each clipped at 599 bytes |
| LineServer.FitsAnswered | src/host/keychip_server.c:20-43 | as long as every receive fits, all lines of the stream are answered, clipped, and its tail is pending |
| LineServer.Losses | src/host/keychip_server.c:24 | once a receive did not fit, bytes are missing for good from what is answered or pending |
| LineServer.ChunkingIff | src/host/keychip_server.c:20-43 | for any NUL-free stream cut in any way into receives of 1 to 512 bytes: the lines answered are exactly its lines and its unfinished last line is pending if and only if every receive fits behind the unfinished line before it and no line is longer than 599 bytes |
| LineServer.LosesLine | src/host/keychip_server.c:24 | a chunking of short lines that does not fit, and the shortened line it answers |
| LineServer.AnyChunking | src/host/keychip_server.c:20-43 | for any NUL-free stream with lines of at most 511 bytes, cut in any way into receives of 1 to 512 bytes, the lines answered are exactly the stream's lines in order, and its unfinished last line is pending |
| LineServer.Client.FindLine | src/host/keychip_server.c:27 | where the first newline or NUL is, and whether it is a newline |
| LineServer.Client.DropFront | src/host/keychip_server.c:33-34 | the rest is moved to the front, in order, and terminated |
| LineServer.Client.AnswerOne | src/host/keychip_server.c:27-42 | the first complete line is answered, trimmed and clipped, unless empty, and removed |
| LineServer.Client.AnswerLines | src/host/keychip_server.c:27-42 | every complete line at the front is answered in order and removed by moving the rest down |
| LineServer.Client.Receive | src/host/keychip_server.c:20-43 | one receive, for any bytes: appended, or replacing what is pending if it does not fit, then cut |
| SceneDelta.DeltaLaws | src/logic/api.c:514-535 | prev - del + add = cur as multisets, and both lists are empty exactly when the scenes are permutations of each other |
| SceneDelta.MatchedHit | src/logic/api.c:517-521 | matching a node uses up one equal previous node and leaves both differences as they are |
| SceneDelta.MatchedMiss | src/logic/api.c:517-526 | a node without an unused equal one belongs to the added difference |
| SceneDelta.FindHit | src/logic/api.c:518-520 | the first unused equal previous node, or -1 exactly if there is none |
| SceneDelta.Diff | src/logic/api.c:514-534 | greedy matching yields the two multiset differences |
| SceneDelta.ReplayRebuilds | src/logic/api.c:510-544 | replaying the deltas of any run rebuilds the scene after every frame |
| SceneDelta.SceneLog.Observe | src/logic/api.c:510-544 | the first frame seeds, later ones log their delta exactly if the scene changed, and the log always replays to the last scene |

## Left out

- Sockets, HTTP handling, response tables and redirection hooks of `allnet.c`: network plumbing and constants; `put_zarr` writes zeros separated by `del` as far as they fit, and the card-info builder writes three constants.
- Win32, MinHook, OpenGL and GDI code, patching of the game binary, GUI, process launch and command line: calls into code that is not part of this model.
- `config.c` reads settings, `status.c` keeps a status file, `host.c` hands out memory by advancing a pointer, and the keychip responder is a table of fixed answers.
- Inflate.InflateRaw: requires that the source gives the input a meaning. It has none when the stream ends inside the 14 bits or the code length code lengths of a dynamic header (a -1 becomes an array index) or when a repeat symbol comes before any length (a read before the array); every other truncation or malformation is covered and proved to return -1.
- Zlib.ZlibDecode: has the same precondition, and like the source neither checks the header nor compares the checksum; the complement field of stored blocks is ignored likewise.
- Zlib.ZlibEncode: requires enough room for payloads over 65535 bytes, since the source's own check (`n + 11`) is then too small and it would write past the buffer.
- JvsFrame.JvsDevice.HandleFrame: requires the reports to take at most 507 bytes, since beyond that the source stores the checksum outside its 512-byte buffer; replies of 254 to 507 bytes are covered, with their truncated length byte.
- LineServer.ChunkingIff: is about streams without NUL; what the loop does with any other bytes is still stated exactly by `LineServer.Client.Receive`.
- ReloadRuns.NoUnloadedCode: is about a state machine on values. The slim reader/writer lock is taken as a primitive with mutual exclusion; fairness, liveness, and data races on the logic state under the shared lock are not modelled, nor are the file times and delays of the watcher.
- Bit-or of fields that do not overlap is written as a sum, and shifts as multiplication or division by powers of two; arithmetic that can wrap in the source (the base64 accumulator, the 16-bit coin counter and coordinates, the 32-bit hash) wraps in the model.
- `unsigned long` of the string hash is 32 bits wide and `char` is signed, as on the Windows target; memory allocation never fails.
- Growable buffers (`realloc` of log entries, view and hits) are sequences; only fixed-size buffers are arrays.
- What the input devices supply (cursor and window, control file values, button states) are parameters; the mouse axes are computed over the reals, without the rounding of `double`.
- The card's read cursor is unbounded; the source's `int` would overflow only after about 16 million reads. Diagnostic counters of reads and writes are left out.
- The filter of the log view is an arbitrary predicate on entries; selection, scrolling and the widest line are left out.
- Stripping, sorting and printing of the string hits are left out, as is the choice of interesting ones.
- The keychip server's responses and its logging are left out: a line counts as answered when it is handed to the responder.
- Walking the game's linked list of scene nodes and the text buffers of the delta message, which drop nodes that do not fit, are left out: the model compares complete lists of at most 64 nodes.
- The initial fill of the EEPROM and SRAM from shared memory and the other device control codes of `mxdevices.c` are left out.
