# Verified models of the Air101 boot loader and firmware updater

A Dafny project that models the parts of luatos-soc-air101 where a wrong carry, a lost byte or an
unchecked write would matter, and proves what they compute.

| file | models |
|---|---|
| `Positional`, `ModArith`, `Words`, `Chunks` | positional notation, congruences modulo an odd number, machine widths, streams in pieces |
| `Bignum`, `Carry`, `BignumAdd`, `BignumMul`, `BignumShift`, `BignumBytes` | the 28-bit-digit `mp_int` arithmetic of `decompile/secboot_crypto.c`, in place, with aliasing, growth and stale digits above `used` |
| `Montgomery` | the Montgomery constant, the transfers to and from the RSA engine, and the exponentiation loop |
| `Sha1` | the streaming SHA-1 context over an arbitrary block transform |
| `Udivdi3` | the 64-bit division routine |
| `Heap` | the best-fit `malloc` and `free` |
| `Crc16`, `Xmodem` | the bit-serial CRC-16 and the XMODEM receiver |
| `Printf` | `format_number`, `vsnprintf_core`, `snprintf`, `sprintf` |
| `Flash`, `ImageHeader`, `OtaParser`, `Fota` | flash as a byte store, the image header, the OTA stream parser and the download writer of `app/port/luat_fota_air101.c` |

`dafny verify dfyconfig.toml` checks all of it.

Conventions. Integers are unbounded, so every 8-, 16-, 32- or 64-bit wrap that can happen is written
out with `%`, or excluded by a precondition that "Left out" names; bit operations on disjoint bits are
written as sums. `malloc` may fail at any call (`if *`). Hardware is a parameter: the SHA-1 block
transform and the CRC-32 peripheral are arbitrary functions, one RSACON command is the Montgomery
product, `uart_getchar` reads a finite input at whose end the receiver waits (`Xmodem.ReceiveMore`
resumes it), and `tls_fls_write` / `flash_write` store bytes at consecutive addresses. A format string
is given with the strings that follow it in memory.

What the models found about the code:

- `mp_div_2d` casts its digit count to `int16_t`, so from 917504 bits on the quotient is wrong unless
  the number is small (`BignumShift.Div2d`, `BignumShift.ShiftLost`).
- `sha1_full` reads back the power in Montgomery form: it is right for every exponent exactly when `2^k`
  is 1 modulo the modulus, and for one exponent, if the modulus is a divisor of the base times a number
  modulo which the base is invertible, exactly when it is 1 modulo that number (`Montgomery.ReadBackAlways`, `Montgomery.ReadBackOnInputs`,
  `Montgomery.ReadBackExample`).
- `sha_update` leaves a top digit of more than 28 bits exactly when the product outgrows one more digit
  (`BignumMul.MulWord`, `BignumMul.WideTopDigit`).
- `ota_gzcb` stops for good at the first record with an empty body (`OtaParser.StreamWritten`,
  `OtaParser.ScriptLost`).
- The header flush of `luat_fota_write` is not checked against the zone size (`Fota.Writer.Write`,
  `Fota.HeaderFlushOverflows`).
- The length check of `luat_fota_done` can be passed by wrapping 32 bits (`Fota.LengthCheckGap`,
  `Fota.WrappedLengthDone`), and a header that `luat_fota_write` refused does not stop it
  (`Fota.DoneHeader`, `Fota.RefusedHeaderInstalled`).
- `free` loses every block above the first free block that is not adjacent to it
  (`Heap.Allocator.Free`, `Heap.LostBlock`), and a request within seven bytes of 2^32 is rounded to nothing
  (`Heap.RequestRounding`, `Heap.EmptyBlock`).
- `snprintf` with size 0 has no limit, although its comment promises the standard behaviour
  (`Printf.Snprintf`, `Printf.SizeZeroWrites`), and a format that ends inside a directive is read past
  its terminator (`Printf.OverrunIsCutShort`, `Printf.PercentIsCutShort`).

## Model

| member | source | states |
|---|---|---|
| Udivdi3.Divide | decompile/secboot_crypto.c:121-137 | the result is floor(n/d) for all 64-bit n and d > 0, and 0 for d = 0 |
| Udivdi3.Step | decompile/secboot_crypto.c:129-135 | before the step for bit i the remainder is at most n >> (i+1), so doubling it in 64 bits loses nothing, and the step extends the exact quotient by one bit |
| BignumAdd.CmpMag | decompile/secboot_crypto.c:144-154 | the sign of the difference of the magnitudes |
| BignumAdd.Cmp | decompile/secboot_crypto.c:161-170 | the sign of the difference of the signed values |
| BignumAdd.SAdd | decompile/secboot_crypto.c:226-251 | exact sum of the magnitudes with 28-bit digits, no leading zero, sign cleared only for zero, whatever the aliasing |
| BignumAdd.SSub | decompile/secboot_crypto.c:201-221 | exact difference of the magnitudes, the last borrow being zero |
| BignumAdd.SubStep | decompile/secboot_crypto.c:209-211 | the 64-bit difference yields the digit and the borrow of the integer difference |
| BignumAdd.Add | decompile/secboot_crypto.c:277-292 | exact signed sum, clamped, no negative zero, for every aliasing of output and operands |
| BignumAdd.Sub | decompile/secboot_crypto.c:256-272 | exact signed difference, clamped, no negative zero, for every aliasing |
| Carry.PropagatedValue | decompile/secboot_crypto.c:231-250 | a carry pass keeps the value: digits plus final carry are worth the columns, for sums, differences, products and shifts |
| Bignum.MpInt.Grow | decompile/secboot_crypto.c:505-525 | capacity reached with all digits kept and new ones zero, or -1 and nothing changed |
| Bignum.MpInt.Clamp | decompile/secboot_crypto.c:470-478 | magnitude kept, no leading zero digit, zero has sign 0 |
| Bignum.MpInt.CopyFrom | decompile/secboot_crypto.c:551-572 | same digits and sign as the source, a no-op on itself |
| Bignum.InitCopy | decompile/secboot_crypto.c:532-585 | a fresh number with the digits and sign of the source |
| BignumMul.MulStep | decompile/secboot_crypto.c:446-449 | digit and carry are exactly those of the integer sum: the 64-bit sum stays below 2^56 and the carry below 2^28 |
| BignumMul.SMulDigs | decompile/secboot_crypto.c:427-465 | the magnitude is the product of the magnitudes modulo 2^(28*digs), clamped, sign 0; on failure nothing changed |
| BignumMul.MulLoop | decompile/secboot_crypto.c:1277-1305 | both multiply loops leave the product of the digit strings modulo 2^(28*digs) |
| BignumMul.RsaInit | decompile/secboot_crypto.c:1203-1232 | room for the requested digits, all zero, or -2; the exact capacity for every 16-bit size, negative ones included |
| BignumMul.RsaProcess | decompile/secboot_crypto.c:1252-1341 | product modulo 2^(28*digs) on both paths; the long path leaves the digit count in the sign field |
| BignumMul.Mul | decompile/secboot_crypto.c:1375-1388 | exact signed product, clamped, also when the output is one or both operands |
| BignumMul.MulWord | decompile/secboot_crypto.c:1430-1483 | exact product with a 32-bit word; its digits fit 28 bits if and only if it is below 2^(28*(used+1)) |
| BignumMul.WideTopDigit | decompile/secboot_crypto.c:1460-1472 | 2^28-1 times 2^32-1 leaves a top digit of more than 28 bits |
| BignumShift.RShd | decompile/secboot_crypto.c:485-500 | floor division by 2^(28*count), clamped, sign kept unless zero |
| BignumShift.ShiftDigits | decompile/secboot_crypto.c:629-636 | the in-place bit shift leaves the quotient by 2^bits and returns the remainder |
| BignumShift.MaskLow | decompile/secboot_crypto.c:606-623 | masking leaves the remainder modulo 2^b, through digit clearing and the boundary mask |
| BignumShift.ShiftRight | decompile/secboot_crypto.c:625-638 | digit shift followed by bit shift is floor division by 2^k, where k is b with its digit count cast to int16_t and a negative count ignored |
| BignumShift.Div2d | decompile/secboot_crypto.c:593-641 | the remainder is \|a\| modulo 2^b, and \|a\| = \|c\|*2^b + \|d\| if and only if b/28 fits int16_t or \|a\| is below the shift that is made; signs kept unless zero, with c or d replacing a, and also with one object for both results |
| BignumShift.ShiftIsDivision | decompile/secboot_crypto.c:627 | shifting by the truncated count gives the quotient by 2^b if and only if the count survives the cast or nothing is left of the number |
| BignumShift.ShiftLost | decompile/secboot_crypto.c:627 | 5 shifted right by 917504 bits stays 5 |
| BignumShift.CountBits | decompile/secboot_crypto.c:297-308 | 2^(bits-1) <= \|a\| < 2^bits, and 0 for zero |
| BignumShift.SetPow2 | decompile/secboot_crypto.c:1158-1189 | the value becomes 2^bits, clamped |
| BignumBytes.ReadUnsignedBin | decompile/secboot_crypto.c:328-362 | the value of the big-endian byte string, clamped and non-negative |
| BignumBytes.ToUnsignedBin | decompile/secboot_crypto.c:367-398 | the minimal big-endian form, and no byte beyond it |
| BignumBytes.SizeIsMinimal | decompile/secboot_crypto.c:367-371 | the byte count computed from the bit count is the length of the minimal form |
| BignumBytes.RsaCore | decompile/secboot_crypto.c:1076-1095 | the minimal little-endian form, and no byte beyond it |
| BignumBytes.RsaStep | decompile/secboot_crypto.c:1109-1144 | the same bytes as the big-endian writer |
| BignumBytes.ReverseInPlace | decompile/secboot_crypto.c:313-323 | the first len bytes reversed, the others untouched |
| BignumBytes.ReadThenWrite | decompile/secboot_crypto.c:328-398 | writing the value of a byte string gives the string without its leading zeros |
| BignumBytes.WriteThenRead | decompile/secboot_crypto.c:328-398 | reading what was written gives the number back, for every number |
| BignumBytes.LittleBig | decompile/secboot_crypto.c:1076-1144 | the little-endian bytes are worth the number, are the big-endian ones backwards, and are as few as possible |
| Montgomery.MontgomeryConstant | decompile/secboot_crypto.c:2148-2158 | mc*dp0 = -1 modulo 2^32 if and only if dp0 is odd |
| Montgomery.LowWord | decompile/secboot_crypto.c:2141-2146 | dp0, put together from two digits, is the modulus modulo 2^32 |
| Montgomery.Transfer | decompile/secboot_crypto.c:1780-1802 | the operand buffer holds the number modulo 256^(4*RSASIZE), so a number that fits arrives whole; other buffers untouched |
| Montgomery.ReadBack | decompile/secboot_crypto.c:2219-2240 | the number in the buffer survives word copy, byte reversal and parsing |
| Montgomery.RsaEngine.Command | decompile/secboot_crypto.c:2175-2217 | the four RSACON values multiply A*A, D*D, A*B and B*D into the other buffer |
| ModArith.MontMulCorrect | decompile/secboot_crypto.c:2175-2217 | the engine product is below n and times 2^k congruent to x*y modulo odd n |
| ModArith.FormProduct | decompile/secboot_crypto.c:2175-2217 | the Montgomery product of two Montgomery forms is the Montgomery form of the product |
| Montgomery.ExponentBit | decompile/secboot_crypto.c:2193-2199 | the digit lookup reads bit i of the exponent |
| Montgomery.PowerLoop | decompile/secboot_crypto.c:2170-2217 | after the loop the buffer selected by the flag holds base^e*2^k modulo n, for every exponent |
| Montgomery.MontgomeryPower | decompile/secboot_crypto.c:2141-2240 | from the two starting residues to the read-back: the result is base^e*2^k modulo n for every odd modulus of up to 2048 bits; for n = s*t with s dividing the base and the base invertible modulo t it is base^e if and only if 2^k is 1 modulo t |
| Montgomery.ReadBackIsPower | decompile/secboot_crypto.c:2219-2243 | without a final reduction any result b is read back right if and only if n divides b*(2^k-1) |
| Montgomery.ReadBackOnInputs | decompile/secboot_crypto.c:2219-2243 | the same condition on base and modulus alone: 2^k is 1 modulo the part of the modulus in which the base is invertible |
| Montgomery.ReadBackAlways | decompile/secboot_crypto.c:2219-2243 | the power is read back right for every exponent if and only if 2^k is 1 modulo n, whatever the base |
| Montgomery.ReadBackExample | decompile/secboot_crypto.c:2219-2243 | modulo 7 with one word, one is read back as four |
| Sha1.Context.Init | decompile/secboot_crypto.c:736-746 | the context of the empty message |
| Sha1.Context.Update | decompile/secboot_crypto.c:891-916 | the context of the message so far followed by the data: hashed blocks, buffered rest and 64-bit count |
| Sha1.Context.AddBits | decompile/secboot_crypto.c:906-911 | the two-word counter counts bits modulo 2^64 |
| Sha1.Context.Close | decompile/secboot_crypto.c:952-995 | the state becomes the fold of the transform over the padded message, in one or two last blocks |
| Sha1.Context.Final | decompile/secboot_crypto.c:943-1028 | -5 and nothing changed without a digest or with a full buffer; otherwise 20, the words of the fold over the padded message in order, each with its most significant byte first, and a zeroed context |
| Sha1.PadFollowsStandard | decompile/secboot_crypto.c:952-992 | the padding is that of section 5.1.1 of FIPS 180-4: the message, 0x80, the least number of zero bits to 448 modulo 512, and eight bytes that read big-endian give the length in bits |
| Sha1.DigestWords | decompile/secboot_crypto.c:1016-1022 | bytes 4*i to 4*i+4 of a digest, read big-endian, are the i-th state word |
| Sha1.IVCounts | decompile/secboot_crypto.c:736-746 | the initial words, lowest byte first, count up and down in nibbles |
| Sha1.HashAll | decompile/secboot_crypto.c:736-1028 | however a message is split over updates, the digest holds the words of the fold of the transform from the IV over the padded message |
| Heap.Allocator.Search | decompile/secboot_memory.c:106-123 | NULL exactly when no free block is large enough, otherwise the first of the smallest sufficient blocks and the link to it |
| Heap.Allocator.Take | decompile/secboot_memory.c:127-143 | the split or removal keeps list, links, alignment and disjointness, leaves exactly the new list and sizes, and conserves header-plus-payload bytes |
| Heap.Allocator.Malloc | decompile/secboot_memory.c:88-147 | best fit by lowest address, NULL exactly when nothing fits, at most 8 bytes more than the rounded request, exact new free list and sizes, bytes conserved, other live blocks untouched |
| Heap.LowestOfSmallest | decompile/secboot_memory.c:113-123 | the block that is taken is the lowest-addressed of the smallest sufficient ones |
| Heap.Allocator.Free | decompile/secboot_memory.c:186-235 | safety for every live pointer; a block that touches the first free block becomes one block with it at the lower address, any other is put in front of a list that begins above it or dropped, and nothing else changes; the bytes return to the list if and only if the block is below the first free block or right behind it |
| Heap.CoalescedCovers | decompile/secboot_memory.c:199-214 | a merge adds no list entry, and the merged block reaches from the lower block to the end of the upper |
| Heap.MergedReused | decompile/secboot_memory.c:199-204 | the last of four blocks is freed, merged with the rest of the heap, and all of both is allocated at once |
| Heap.LostBlock | decompile/secboot_memory.c:219-227 | of four blocks the first and third are freed, and the third is neither live nor free afterwards |
| Heap.SplitBlock | decompile/secboot_memory.c:130-136 | splitting keeps all blocks aligned and disjoint, and the new free payload is at least 8 bytes |
| Heap.MergeBlocks | decompile/secboot_memory.c:200-212 | merging two adjacent blocks keeps all blocks aligned and disjoint |
| Heap.BlocksApart | decompile/secboot_memory.c:88-235 | what the block invariant says of any two blocks: aligned, inside the heap, one ends before the other begins |
| Heap.RequestRounding | decompile/secboot_memory.c:104 | the rounded request holds the request if and only if it is at most 2^32-8, and is then less than 8 bytes larger |
| Heap.EmptyBlock | decompile/secboot_memory.c:104 | a request for 2^32-1 bytes is served with an empty block |
| Heap.ReleaseHeld | decompile/secboot_memory.c:186-235 | a released block and its header are lost exactly when it is neither below the first free block nor right behind it |
| Heap.Run | decompile/secboot_memory.c:88-235 | over every sequence of allocations and releases: list sorted and linked, live and free blocks aligned, inside the heap, pairwise disjoint; free, held and lost bytes add up to the heap |
| Crc16.ComputeCrc | decompile/secboot_fwup.c:272-282 | the byte loop on a 16-bit word computes the bit-serial division of the message |
| Crc16.ShiftWord | decompile/secboot_fwup.c:276-281 | shift and XOR with 0x1021 on a 16-bit word is one step of the division |
| Crc16.CrcXor | decompile/secboot_fwup.c:272-282 | the CRC of the bytewise XOR of two payloads of one length is the XOR of their CRCs |
| Crc16.CrcResidue | decompile/secboot_fwup.c:266-287 | a payload followed by its CRC, high byte first, has CRC 0 |
| Crc16.CrcOfOne | decompile/secboot_fwup.c:272-282 | the CRC of the single byte 1 is 0x1021 |
| Crc16.BurstDetected | decompile/secboot_fwup.c:272-287 | messages that differ, and only within 16 consecutive bits, have different CRCs |
| Xmodem.JudgeFrame | decompile/secboot_fwup.c:248-297 | on raw bytes: rejected after two when the second is not 255 minus the first, accepted exactly when CRC and number are right as well, otherwise rejected after the whole frame |
| Xmodem.UnpairedRejected | decompile/secboot_fwup.c:257-260 | two bytes that do not add up to 255 are rejected whatever follows |
| Xmodem.BurstRejected | decompile/secboot_fwup.c:248-287 | a block whose payload was changed within 16 consecutive bits is rejected |
| Xmodem.TransferReceived | decompile/secboot_fwup.c:248-381 | a transfer without errors, numbered from the expected block on, is received as it was sent: all payloads in order, no rejection, one ACK each |
| Xmodem.SessionGivesUp | decompile/secboot_fwup.c:355-381 | with fewer than 100 retries on entry the session gives up at exactly rejection 100 - r |
| Xmodem.Receiver.RecvInit | decompile/secboot_fwup.c:118-160 | result, block size, retry count and the bytes sent, 'C' and a NAK per timeout, for every number of timeouts and every first byte |
| Xmodem.Receiver.RecvBlock | decompile/secboot_fwup.c:248-300 | the verdict, reply, block number and byte count for every input; a rejected block changes neither number nor count |
| Xmodem.Receiver.RecvData | decompile/secboot_fwup.c:355-381 | the loop runs the session the block-by-block definition gives, to the same context, flash, replies and end |
| Xmodem.SessionAccounted | decompile/secboot_fwup.c:355-381 | over every input: total and destination advance by block size per accepted block, flash is their payloads in order, -1 at exactly rejection 100 - r for r < 100 retries on entry, 1 for r up to 254 and 101 for 255 |
| Xmodem.ReceiveMore | decompile/secboot_fwup.c:355-381 | more input continues a waiting session where it stopped, and leaves one that gave up as it is |
| Xmodem.SessionNumbered | decompile/secboot_fwup.c:289-296 | accepted blocks came under consecutive numbers modulo 256 |
| Printf.DigitsParse | decompile/secboot_stdlib.c:398-407 | the digits parse back to the number |
| Printf.DigitTable | decompile/secboot_stdlib.c:400-404 | the digit characters are 0-9 and a-f or A-F |
| Printf.ReverseDigits | decompile/secboot_stdlib.c:394-407 | the digit buffer holds the digits in reverse and is never overrun |
| Printf.FieldShape | decompile/secboot_stdlib.c:409-427 | a field is as long as the larger of width and digit count, with its digits at the proper end |
| Printf.FormatNumber | decompile/secboot_stdlib.c:390-427 | exactly the field is printed |
| Printf.ScanDirective | decompile/secboot_stdlib.c:480-494 | the cursor scan finds flags, width and specifier of the directive |
| Printf.DirectiveSpelled | decompile/secboot_stdlib.c:480-494 | the flags are the characters that stand there, and the width is the number its digits spell |
| Printf.PrintedNumber | decompile/secboot_stdlib.c:495-526 | a numeric directive prints, behind its sign or prefix, a field whose canonical digits parse back to the argument, signed for %d and unsigned for the others |
| Printf.PrintDirective | decompile/secboot_stdlib.c:495-542 | the text of the directive is printed |
| Printf.ItemPrints | decompile/secboot_stdlib.c:477-542 | from its characters: %s prints the string at its argument or (null) for a null pointer, %c the byte, %% a percent sign, an unknown specifier itself behind a percent sign, and a number its digits in the field that flags and width spell |
| Printf.RenderPrinted | decompile/secboot_stdlib.c:472-545 | a format cut into complete items prints the texts of its items one after the other, and a percent sign and NUL for an unfinished directive |
| Printf.PrintingGoesOn | decompile/secboot_stdlib.c:472-545 | behind a format that ends inside a directive the next string in memory is printed with the arguments that are left |
| Printf.FirstPrinted | decompile/secboot_stdlib.c:472-545 | each item is printed with the argument that is its turn: an item that takes one leaves the next to the others |
| Printf.PlainPrinted | decompile/secboot_stdlib.c:476-479 | a format without a percent sign prints itself |
| Printf.StringPrinted | decompile/secboot_stdlib.c:523-528 | "%s" prints the string at its argument, and (null) exactly for a null pointer |
| Printf.Core | decompile/secboot_stdlib.c:472-545 | exactly the text of the format is printed, and for a format that ends inside a directive the text of the strings that follow it in memory, up to the first that does not |
| Printf.OverrunIsCutShort | decompile/secboot_stdlib.c:475-541 | the scan passes the terminator if and only if the format is a sequence of characters and complete directives followed by a percent sign, flags and digits |
| Printf.WholeOutput | decompile/secboot_stdlib.c:475-541 | the scan is lost if and only if every string it comes to ends inside a directive; otherwise nothing behind a complete format is read |
| Printf.PercentIsCutShort | decompile/secboot_stdlib.c:493-541 | the format "%" prints a percent sign and a NUL, and then the string behind it |
| Printf.Sink.Put | decompile/secboot_stdlib.c:555-561 | with a limit only the first max-1 characters reach the buffer, and all are counted |
| Printf.Snprintf | decompile/secboot_stdlib.c:592-610 | first min(n, size-1) characters of the output and a terminator, nothing else touched, n returned; for size 0 the whole output; the output is that of the format alone unless it ends inside a directive, and unspecified but in bounds when the scan is lost |
| Printf.SizeZeroWrites | decompile/secboot_stdlib.c:555-561 | with size 0 the format "a" is written to the buffer |
| Printf.Sprintf | decompile/secboot_stdlib.c:638-652 | the whole output and a terminator, nothing else touched, its length returned, unless the scan is lost |
| Flash.StoreAppend | platform/drivers/internalflash/wm_internal_fls.c:955-1031 | two adjacent writes are one write |
| OtaParser.ParseAppend | app/port/luat_fota_air101.c:56-112 | parsing may stop and resume at any byte |
| OtaParser.Parser.Feed | app/port/luat_fota_air101.c:56-112 | one call does what the byte-at-a-time parser does on its chunk, and its loop terminates |
| OtaParser.FeedAll | app/port/luat_fota_air101.c:56-112 | any split of the stream leaves the parser state and flash of a single call |
| OtaParser.StreamWritten | app/port/luat_fota_air101.c:56-112 | of a stream of records exactly the type-2 bodies before the first empty one are written, in order, each from luadb_addr |
| OtaParser.LastScriptStored | app/port/luat_fota_air101.c:56-112 | after a stream of records with bodies the last type-2 body is in flash byte for byte from luadb_addr |
| OtaParser.NoScripts | app/port/luat_fota_air101.c:74-77 | records of other types change no flash |
| OtaParser.NoEmptyBody | app/port/luat_fota_air101.c:94-111 | all records are seen if and only if none has an empty body |
| OtaParser.Stuck | app/port/luat_fota_air101.c:94-111 | after a header with an empty body nothing is consumed again |
| OtaParser.ScriptLost | app/port/luat_fota_air101.c:94-111 | a script behind a record with an empty body never reaches flash |
| Fota.Writer.Init | app/port/luat_fota_air101.c:161-182 | an empty download in state ONGO, exactly the sectors of the zone erased; -1 without a buffer and flash unchanged |
| Fota.Writer.Write | app/port/luat_fota_air101.c:184-239 | zone and buffer hold all accepted bytes in order; -1 if and only if a buffer that gets full does not fit the zone, otherwise the header verdict; the stored bytes outgrow the zone if and only if the header is unjudged, nothing is refused and there are more bytes than the zone holds |
| Fota.Writer.Fill | app/port/luat_fota_air101.c:192-213 | the copy loop takes everything, or stops with a full buffer exactly when the last buffer it would flush ends behind the zone; it terminates |
| Fota.Writer.CheckHead | app/port/luat_fota_air101.c:215-236 | the header check judges the first 64 accepted bytes |
| Fota.HeadVerdictIs | app/port/luat_fota_air101.c:224-233 | -2 exactly for a wrong magic number, -3 exactly for the right one with a wrong CRC of the first 60 bytes in the last four, 0 otherwise |
| ImageHeader.FieldPositions | include/platform/wm_fwup.h:84-98 | magic number, length and checksums are the little-endian words at 0, 12, 24 and 60 |
| ImageHeader.TypeBits | include/platform/wm_fwup.h:68-82 | the image type is the low four bits of byte 4, whatever the others |
| Fota.Writer.ImgChecksum | app/port/luat_fota_air101.c:309-327 | the CRC of all whole words of the range, of the whole range when its length is a multiple of 4 |
| Fota.Writer.Done | app/port/luat_fota_air101.c:241-277 | return code for every state, and DONE exactly on success, with the image verified |
| Fota.DoneVerdictIs | app/port/luat_fota_air101.c:254-266 | -1 exactly for nothing, -2 for less than a header, -4 exactly when the 32-bit length check fails |
| Fota.DoneIffChecked | app/port/luat_fota_air101.c:262-276 | without a wrap, an image is accepted if and only if it is checked |
| Fota.CheckedIs | app/port/luat_fota_air101.c:262-276 | checked means on the bytes: 64 + img_len bytes are there and the CRC of the whole words of the body is the announced one |
| Fota.Writer.End | app/port/luat_fota_air101.c:279-303 | the flag is written only in state DONE for a full image, with its checksum, and leaves the zone alone |
| Fota.LengthCheckGap | app/port/luat_fota_air101.c:264-266 | an incomplete image passes the length check if and only if img_len + 64 wraps 32 bits |
| Fota.WrappedLengthDone | app/port/luat_fota_air101.c:264-276 | an image that announces 2^32-64 bytes and consists of its header alone gets to state DONE |
| Fota.DoneHeader | app/port/luat_fota_air101.c:215-276 | in state DONE the header is valid if and only if the header check passed it |
| Fota.RefusedHeaderInstalled | app/port/luat_fota_air101.c:226-287 | an image refused with -2 still gets to state DONE and has its flag written |
| Fota.ZoneOnly | app/port/luat_fota_air101.c:184-239 | while the stored bytes fit the zone, a write changes no flash outside it |
| Fota.SameThere | app/port/luat_fota_air101.c:161-303 | what the flash guarantee of a run says of one address |
| Fota.PeakOfWrites | app/port/luat_fota_air101.c:184-239 | without an init the byte count of a run is what there was and all that is written |
| Fota.PeakOfInit | app/port/luat_fota_air101.c:161-167 | an init starts the byte count over |
| Fota.HeaderFlushOverflows | app/port/luat_fota_air101.c:215-222 | with the 2048K zone of the AIR6208, a first write of 100 bytes more ends in the application partition |
| Fota.Run | app/port/luat_fota_air101.c:161-303 | over every sequence of calls: accepted bytes stored, DONE means verified, every flag write justified; while the bytes since each init fit the zone, or as long as no write overflows it, flash outside the zone, its sectors and the flag is unchanged, and the flag too unless a write of it is on record |

## Left out

- `sha_final`, `crc32_table_init`, `crc32_update`: the long division shown changes the divisor and never applies its trial quotients, so there is no division to prove; the two residues the exponentiation starts from are inputs here.
- `mp_lshd`: used by that division only.
- Montgomery.MontgomeryPower: claims nothing when a transfer to the engine failed for lack of memory, because the source goes on with zero operands; moduli over 2048 bits overflow the 256-byte buffer and even moduli have no Montgomery product, so both are excluded.
- Montgomery.Transfer: numbers over 2048 bits, which overrun the source's 256-byte stack buffer, are excluded by precondition.
- BignumShift.Div2d: negative shift counts, for which the source indexes below its digit array, are excluded.
- Montgomery.RsaEngine.Command: the word-level reduction inside the engine is not part of this model, nor is polling for completion.
- Bignum.MpInt.Grow: old digit buffers are reclaimed by the garbage collector; `mp_clear` and the zeroing of freed digits are not modelled. Digit counts stay within `int16_t` by precondition.
- The SHA-1 compression function, the CRC-32 peripheral and the decompressor: hardware or foreign code, arbitrary functions here.
- Fota.Writer.Write: zone address plus accepted bytes fit 32 bits by precondition. The reset of the script area and the erase at boot (`check_ota_zone`) are not modelled.
- Fota.Writer.End: the flag lies outside the written bytes by precondition, as the partition tables place it; the read-back that is only logged is left out.
- Flash.StoreAppend: the store has no range check and no error results, unlike the driver.
- OtaParser.Parser.Feed: the flash driver's range check is not modelled; every write is stored.
- Heap.Allocator.Free: the pointer is live by precondition. The sorted-position walk is elided in the source, so free space is not conserved; the lock is not modelled.
- Xmodem.Receiver.RecvBlock: an end-of-transmission result does not occur in the source and so not here.
- Printf.Core: the width is unbounded, where the source overflows `int`, and so is the character count; arguments are a total list, where the source reads whatever follows the last one; the strings in memory behind the format are not changed by the output. `printf` to the UART is left out.
- ASN.1, certificate, signature and image decryption code: stubbed aliases and unset lengths leave nothing to specify.
- `flash_write` and the other functions of `secboot_flash.c`: programming is commented out; flash is a byte store.
- Boot hand-off, peripheral drivers, network, LittleFS, `memcpy` and its relatives: thin or easy.
