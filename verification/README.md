# md5sum / sha1sum digest engine

This project models the digest engine of toybox's `md5sum` and `sha1sum` commands and proves it correct. Both commands share one file, `toys/lsb/md5sum.c`. The model covers these parts:

- **The context.** This is the `TT` global: five 32-bit state words, a copy of them, a 64-bit byte counter and a 64-byte buffer. It becomes the class `Md5Sum.HashContext`, with `state`, `oldstate` and `buffer` arrays and a `count` field.
- **`md5_transform` and `sha1_transform`.** These mix one full buffer into the state. They become methods with the same loops, the same index arithmetic and the same in-place updates. Each is proved to compute the compression function of RFC 1321 (section 3.4) or of FIPS 180-4 (section 6.1.2), written in the standards' own terms in the modules `Md5` and `Sha1`.
- **`hash_update`.** It fills the buffer and calls the transform each time the buffer is full. `Md5Sum.HashContext.Update` is proved to leave the context equal to the value-level function `Hashing.Feed`, for a transform routine that implements the selected algorithm's compression. The streaming lemmas live in `Hashing`.
- **The end of `do_hash`.** This is the `0x80`-and-zeros padding loop, the 64-bit bit length (byte-swapped for SHA-1), the last transform, the hex output and the wipe. They become `Md5Sum.HashContext.Finish` and its helper methods.

`Md5Sum.HashStream` is the whole of `do_hash` for one file. It takes the reads as a sequence of chunks, and its contract says that it returns `Hashing.Digest` of their concatenation. `Hashing.DigestIsStandard` shows that this is the hex of the state reached by absorbing the standard's padded message.

The modules:

| module | file | what it holds |
|---|---|---|
| `Bits` | bits.dfy | `rol`, additions mod 2^32, little-/big-endian byte order, `bswap_32`/`bswap_64`, lowercase hex output and its parser |
| `Md5` | md5.dfy | RFC 1321 compression, and the index/rotation/role arithmetic of `md5_transform` checked against the RFC tables for all 64 steps |
| `Sha1` | sha1.dfy | FIPS 180-4 compression, and the round functions, byte swap and role-pointer rotation of `sha1_transform` |
| `Hashing` | hashing.dfy | the byte stream as values: `Absorb`, `Feed`, `Padding`, `Trailer`, `Final`, `Pad`, `Digest` |
| `Md5Sum` | md5sum.dfy | the `TT` context as a class, the transforms, `hash_update`, the finalisation |

Where the code and its own comments or help text differ, the model follows the code:

- **Byte order of the length.** The comment at lines 207-209 says the message size is appended in bits, big endian. That holds only for sha1sum, where line 219 byte-swaps the count before line 220 stores it least significant byte first. For md5sum nothing swaps it, so the length is stored little-endian, as RFC 1321 requires. `Hashing.LengthFieldValue` states the byte order per algorithm.
- **Output length.** The help text (lines 21 and 32) promises 16 or 20 hex digits. The code prints 32 characters for MD5 and 40 for SHA-1: two per digest byte. `Hashing.Final` states the code's lengths.

## Model

| member | source | states |
|---|---|---|
| Bits.LeBytes | toybox-0.4.8/toys/lsb/md5sum.c:43-46 | the four bytes of a word, low byte first, read back through the union's little-endian word view give the word again |
| Bits.LeBytesOfLeWord | toybox-0.4.8/toys/lsb/md5sum.c:43-46 | reading four buffer bytes as a host word and writing the word back out gives the same four bytes |
| Bits.BswapBytes | toybox-0.4.8/toys/lsb/md5sum.c:226 | SWAP_BE32 of a state word, printed most significant byte first, prints the word's bytes low byte first |
| Bits.Bswap64Bytes | toybox-0.4.8/toys/lsb/md5sum.c:219-220 | storing bswap_64(count) low byte first stores count high byte first |
| Bits.LeBytes64RoundTrip | toybox-0.4.8/toys/lsb/md5sum.c:220 | the eight bytes stored at buffer[56..64] read back little-endian as the stored 64-bit value |
| Bits.Hex | toybox-0.4.8/toys/lsb/md5sum.c:225 | printf("%02x") per byte yields two lowercase hex digits per byte and nothing else |
| Bits.HexByte | toybox-0.4.8/toys/lsb/md5sum.c:225 | printf("%02x") of a byte yields exactly two lowercase hex digits |
| Bits.ParseHexByteInverse | toybox-0.4.8/toys/lsb/md5sum.c:225 | the two digits printed for a byte parse back to that byte |
| Bits.HexWord | toybox-0.4.8/toys/lsb/md5sum.c:226 | printf("%08x") yields exactly eight lowercase hex digits |
| Bits.ParseHexInverse | toybox-0.4.8/toys/lsb/md5sum.c:223-226 | the printed hex loses nothing: parsing it gives back every digest byte |
| Md5.OperationIsRfc | toybox-0.4.8/toys/lsb/md5sum.c:103-104 | temp += x[a] + b[in] + md5table[i]; x[a] = x[(a+1)&3] + rol(temp, rot) is RFC 1321's a = b + ((a + f + X[k] + T[i]) <<< s) |
| Md5.StepsAdvance | toybox-0.4.8/toys/lsb/md5sum.c:76-105 | one operation on registers (a, b, c, d) leaves the registers (d, new a, b, c) for the next one |
| Md5.CompressOf | toybox-0.4.8/toys/lsb/md5sum.c:106 | after the 64 operations each register is added to the state word it started from, mod 2^32 |
| Md5.Md5ScheduleMatchesRfc | toybox-0.4.8/toys/lsb/md5sum.c:79-102 | for every step i < 64, `in`, `rot` and (-i)&3 computed as md5_transform does are the RFC's word index, shift amount and register slot |
| Md5Sum.Md5StepParameters | toybox-0.4.8/toys/lsb/md5sum.c:79-102 | the slot, word index and rotation of step i are (4 - i mod 4) mod 4, the RFC word and the RFC shift |
| Md5Sum.Md5RegistersRotate | toybox-0.4.8/toys/lsb/md5sum.c:79-104 | writing the new value into slot (-i)&3 of x[] renames the registers for step i + 1 as (d, new a, b, c) |
| Md5Sum.Md5RegistersAt | toybox-0.4.8/toys/lsb/md5sum.c:79-101 | in step i, x[a], x[(a+1)&3], x[(a+2)&3], x[(a+3)&3] are the registers a, b, c, d |
| Md5Sum.Md5StepAgrees | toybox-0.4.8/toys/lsb/md5sum.c:103-104 | storing RFC operation i on the registers of x[] into slot (-i)&3 leaves x[] holding the registers of the first i + 1 operations |
| Md5Sum.Md5Added | toybox-0.4.8/toys/lsb/md5sum.c:106 | after step 64 x[0..4] holds a, b, c, d in order, and adding it to state[0..4] is the RFC's compression |
| Sha1.Sha1MixIsFips | toybox-0.4.8/toys/lsb/md5sum.c:130-135 | the three-register expressions of sha1_transform are Ch, Parity, Maj and Parity in rounds 0 to 3 |
| Sha1.ScheduleIsFips | toybox-0.4.8/toys/lsb/md5sum.c:137-142 | W_t is the message word for t < 16 and ROTL^1 of the xor of W_{t-3}, W_{t-8}, W_{t-14}, W_{t-16} afterwards |
| Sha1.ExpandAgrees | toybox-0.4.8/toys/lsb/md5sum.c:141-142 | extending the schedule never changes a word already computed |
| Sha1.OperationIsFips | toybox-0.4.8/toys/lsb/md5sum.c:143 | work + W + rol(a, 5) + K added to e is T = ROTL^5(a) + f + e + K + W |
| Sha1.StepsAdvance | toybox-0.4.8/toys/lsb/md5sum.c:143-149 | step t on registers (a, b, c, d, e) leaves (T, a, ROTL^30(b), c, d) |
| Sha1.CompressOf | toybox-0.4.8/toys/lsb/md5sum.c:154 | after the 80 steps each register is added to its starting state word, mod 2^32 |
| Sha1.SwapHostWordIsBigEndian | toybox-0.4.8/toys/lsb/md5sum.c:138-139 | (rol(w,24)&0xFF00FF00) \| (rol(w,8)&0x00FF00FF) of a little-endian buffer word is its big-endian reading |
| Sha1.SwapHostWordIsBswap | toybox-0.4.8/toys/lsb/md5sum.c:138-139 | that expression is bswap_32 |
| Sha1.RolesRotate | toybox-0.4.8/toys/lsb/md5sum.c:147-149 | each step moves the last role pointer to the front |
| Sha1.RolesDistinct | toybox-0.4.8/toys/lsb/md5sum.c:121-149 | the five role pointers always point at five different state words |
| Sha1.RolesAfterAllSteps | toybox-0.4.8/toys/lsb/md5sum.c:126-152 | after 80 steps the pointers are back at state[0..5] in order |
| Md5Sum.Sha1RegistersRotate | toybox-0.4.8/toys/lsb/md5sum.c:143-149 | storing T through rot[4] and rol(b,30) through rot[1], then rotating the pointers, gives the registers (T, a, rol(b,30), c, d) |
| Md5Sum.HostWordsSwap | toybox-0.4.8/toys/lsb/md5sum.c:117-139 | byte-swapping each of the sixteen host words of the buffer gives the block's big-endian message words |
| Md5Sum.ScheduleWindowStep | toybox-0.4.8/toys/lsb/md5sum.c:141-142 | from the sixteen-word window, block[(count+13)&15] ^ block[(count+8)&15] ^ block[(count+2)&15] ^ block[count&15] rotated by 1 is W_count |
| Md5Sum.WindowAdvance | toybox-0.4.8/toys/lsb/md5sum.c:138-141 | storing W_count at count & 15 keeps the window holding the last sixteen schedule words |
| Md5Sum.StepStored | toybox-0.4.8/toys/lsb/md5sum.c:143-149 | the two stores of a step, read through the rotated pointers, perform step count of the standard |
| Md5Sum.Sha1Added | toybox-0.4.8/toys/lsb/md5sum.c:154 | after step 80 state[0..5] holds a..e in order, and adding oldstate is the standard's compression |
| Hashing.Md5CompressWords | toybox-0.4.8/toys/lsb/md5sum.c:106 | the compression adds the registers after the 64 operations to the first four state words and leaves the fifth unchanged |
| Hashing.Sha1CompressWords | toybox-0.4.8/toys/lsb/md5sum.c:154 | sha1_transform adds the 80-step registers to all five state words |
| Hashing.AbsorbAppend | toybox-0.4.8/toys/lsb/md5sum.c:170-174 | transforming the blocks of x and then those of y is transforming the blocks of x + y |
| Hashing.AbsorbSnoc | toybox-0.4.8/toys/lsb/md5sum.c:173 | one more full block is one more call of the transform |
| Hashing.Start | toybox-0.4.8/toys/lsb/md5sum.c:191-196 | the initial context has the five constant state words, count 0 and no pending bytes |
| Hashing.Whole | toybox-0.4.8/toys/lsb/md5sum.c:171 | the largest multiple of 64 not above n |
| Hashing.AddCount | toybox-0.4.8/toys/lsb/md5sum.c:164 | TT.count += len wraps mod 2^64, keeps its low six bits in step with the pending bytes, and is exact when there is no wrap |
| Hashing.CountAssoc | toybox-0.4.8/toys/lsb/md5sum.c:164 | adding x and then y to the counter is adding x + y, despite the wrap |
| Hashing.Feed | toybox-0.4.8/toys/lsb/md5sum.c:159-179 | hash_update keeps the context well formed: the pending partial block holds exactly the new count mod 64 bytes |
| Hashing.FeedKeepsBytes | toybox-0.4.8/toys/lsb/md5sum.c:159-179 | hash_update loses and reorders nothing: transformed blocks followed by the new pending bytes are the old pending bytes followed by the data, with fewer than 64 left pending |
| Hashing.FeedEmpty | toybox-0.4.8/toys/lsb/md5sum.c:176-178 | an update with len 0 changes nothing |
| Hashing.FeedConcat | toybox-0.4.8/toys/lsb/md5sum.c:159-179 | updating with x and then y leaves the same context as one update with x + y |
| Hashing.RegroupWhole | toybox-0.4.8/toys/lsb/md5sum.c:167-178 | the block boundaries of two updates in a row are those of the combined update |
| Hashing.FeedAllIsFeedConcat | toybox-0.4.8/toys/lsb/md5sum.c:199-203 | however read() cuts the file into chunks, the context after the read loop is the one for the whole file |
| Hashing.ZeroCount | toybox-0.4.8/toys/lsb/md5sum.c:214-218 | the number of zero bytes after 0x80 brings the count to 56 mod 64 and is below 64 |
| Hashing.ZeroCountIsLeast | toybox-0.4.8/toys/lsb/md5sum.c:218 | no shorter run of zeros reaches 56 mod 64, so the do-while stops at the first chance |
| Hashing.Padding | toybox-0.4.8/toys/lsb/md5sum.c:214-218 | the padding is 0x80 followed by zeros only, 1 to 64 bytes long, ending at 56 mod 64 |
| Hashing.LengthFieldValue | toybox-0.4.8/toys/lsb/md5sum.c:205-220 | the eight length bytes read back as count << 3 mod 2^64, little-endian for MD5 and big-endian for SHA-1 |
| Hashing.LengthField | toybox-0.4.8/toys/lsb/md5sum.c:219-220 | the length field is eight bytes (their values are stated by Hashing.LengthFieldValue) |
| Hashing.Trailer | toybox-0.4.8/toys/lsb/md5sum.c:214-221 | the pending bytes, the padding and the eight length bytes fill whole 64-byte blocks |
| Hashing.TrailerBlocks | toybox-0.4.8/toys/lsb/md5sum.c:214-221 | the finalisation transforms two blocks when 56 or more bytes are pending and one otherwise |
| Hashing.DigestBytesWords | toybox-0.4.8/toys/lsb/md5sum.c:223-226 | the printed digest bytes determine the state words: state[0..4] little-endian for MD5, state[0..5] big-endian for SHA-1 |
| Hashing.DigestBytes | toybox-0.4.8/toys/lsb/md5sum.c:223-226 | the printed digest is 16 bytes for MD5 and 20 for SHA-1 |
| Hashing.Md5DigestWord | toybox-0.4.8/toys/lsb/md5sum.c:226 | for the shorter digest, bytes 4k to 4k + 3 are state word k, low byte first |
| Hashing.Sha1DigestWord | toybox-0.4.8/toys/lsb/md5sum.c:224-225 | SHA-1 digest bytes 4k..4k+4 are state word k, high byte first |
| Hashing.Md5DigestByte | toybox-0.4.8/toys/lsb/md5sum.c:226 | for the shorter digest, byte 4k + j is byte j of state word k, low byte first |
| Hashing.Sha1DigestByte | toybox-0.4.8/toys/lsb/md5sum.c:225 | SHA-1 digest byte 4k + j is byte j of state word k, high byte first |
| Hashing.Final | toybox-0.4.8/toys/lsb/md5sum.c:205-226 | the printed digest is 32 lowercase hex digits for MD5 and 40 for SHA-1 |
| Hashing.Pad | toybox-0.4.8/toys/lsb/md5sum.c:205-221 | the padded message is whole blocks, 9 to 72 bytes longer than the message, which it starts with, followed by 0x80 |
| Hashing.PaddedShape | toybox-0.4.8/toys/lsb/md5sum.c:214-220 | message, padding to 56 mod 64 and the eight length bytes fill whole blocks |
| Hashing.StreamIsPadded | toybox-0.4.8/toys/lsb/md5sum.c:199-226 | feeding a message and finishing gives the hex of the state reached by absorbing the standard's padded message from the start |
| Hashing.DigestIsStandard | toybox-0.4.8/toys/lsb/md5sum.c:183-226 | the digest of a message is the hex of the standard's compression over its padded form, from the initial state |
| Hashing.FinalParses | toybox-0.4.8/toys/lsb/md5sum.c:223-226 | the printed line parses back to the digest bytes of the final state |
| Md5Sum.HashContext.constructor | toybox-0.4.8/toys/lsb/md5sum.c:39-47 | the TT structure starts out zeroed, with distinct state, oldstate and buffer storage |
| Md5Sum.HashContext.Start | toybox-0.4.8/toys/lsb/md5sum.c:191-196 | after the initialisation the context is the initial context |
| Md5Sum.HashContext.Md5Transform | toybox-0.4.8/toys/lsb/md5sum.c:69-107 | md5_transform replaces the state with the RFC 1321 compression of the state and the buffer's sixteen little-endian words |
| Md5Sum.HashContext.Md5Rounds | toybox-0.4.8/toys/lsb/md5sum.c:76-105 | after the 64-pass loop x[] holds the RFC's 64 operations applied to the starting registers |
| Md5Sum.HashContext.Md5Step | toybox-0.4.8/toys/lsb/md5sum.c:77-104 | one pass of the loop performs operation i of the RFC on the registers held in x[] |
| Md5Sum.HashContext.Md5AddBack | toybox-0.4.8/toys/lsb/md5sum.c:106 | state[i] += x[i] for i < 4, state[4] untouched |
| Md5Sum.HashContext.AddWords | toybox-0.4.8/toys/lsb/md5sum.c:106 | the first n state words get the source words added mod 2^32; the rest are unchanged |
| Md5Sum.HashContext.Sha1Transform | toybox-0.4.8/toys/lsb/md5sum.c:114-155 | sha1_transform replaces the state with the FIPS 180-4 compression of the state and the buffer's big-endian words, and leaves the old state in oldstate |
| Md5Sum.HashContext.Sha1Rounds | toybox-0.4.8/toys/lsb/md5sum.c:126-152 | after the two nested loops the registers read through the pointers are the standard's 80 steps applied to the starting state |
| Md5Sum.HashContext.SaveState | toybox-0.4.8/toys/lsb/md5sum.c:121-124 | oldstate becomes a copy of state and rot[i] points at state[i] |
| Md5Sum.HashContext.HostWords | toybox-0.4.8/toys/lsb/md5sum.c:117 | the buffer viewed as sixteen little-endian words |
| Md5Sum.HashContext.Sha1Step | toybox-0.4.8/toys/lsb/md5sum.c:128-150 | one pass of the inner loop performs step count of the standard and rotates the pointers |
| Md5Sum.HashContext.StepValue | toybox-0.4.8/toys/lsb/md5sum.c:130-143 | the new register value is the standard's T = ROTL^5(a) + f_t(b, c, d) + e + K_t + W_t |
| Md5Sum.HashContext.ScheduleWord | toybox-0.4.8/toys/lsb/md5sum.c:137-142 | the word added in step count is W_count, and the window moves on by one step |
| Md5Sum.HashContext.RotateRoles | toybox-0.4.8/toys/lsb/md5sum.c:147-149 | the k loop moves rot[4] to the front and shifts the others up, giving the roles of the next step |
| Md5Sum.HashContext.Sha1AddBack | toybox-0.4.8/toys/lsb/md5sum.c:154 | state[i] += oldstate[i] for all five words |
| Md5Sum.HashContext.Transform | toybox-0.4.8/toys/lsb/md5sum.c:198 | calling the selected routine replaces the state with the algorithm's compression of the state and the buffer |
| Md5Sum.HashContext.CopyIn | toybox-0.4.8/toys/lsb/md5sum.c:169-178 | memcpy into the buffer at an offset replaces exactly those bytes |
| Md5Sum.HashContext.Update | toybox-0.4.8/toys/lsb/md5sum.c:159-179 | hash_update leaves the context equal to Feed of the old context and the data |
| Md5Sum.HashContext.FullBlocks | toybox-0.4.8/toys/lsb/md5sum.c:167-175 | the if-branch transforms every whole block of pending bytes plus data, and at most 63 bytes are left over |
| Md5Sum.HashContext.FillAndTransform | toybox-0.4.8/toys/lsb/md5sum.c:169-173 | filling the buffer up to its end and transforming absorbs the next block |
| Md5Sum.HashContext.Finish | toybox-0.4.8/toys/lsb/md5sum.c:205-229 | the end of do_hash returns the Final line for the context it was given and leaves the context zeroed |
| Md5Sum.HashContext.LengthBits | toybox-0.4.8/toys/lsb/md5sum.c:205-219 | count << 3, byte-swapped for SHA-1, stored low byte first, is the algorithm's length field |
| Md5Sum.HashContext.PadMessage | toybox-0.4.8/toys/lsb/md5sum.c:214-218 | the do-while feeds exactly the padding: 0x80, then zeros until 56 bytes are pending |
| Md5Sum.HashContext.StoreLength | toybox-0.4.8/toys/lsb/md5sum.c:220 | buffer[56..64] becomes the eight bytes of the value, low byte first, and buffer[..56] is kept |
| Md5Sum.HashContext.LengthByte | toybox-0.4.8/toys/lsb/md5sum.c:220 | (char)(count >> (8*i)) is byte i of count, low byte first |
| Md5Sum.HashContext.FormatDigest | toybox-0.4.8/toys/lsb/md5sum.c:223-226 | the printf loops print the hex of the algorithm's digest bytes of the state |
| Md5Sum.HashContext.Sha1Hex | toybox-0.4.8/toys/lsb/md5sum.c:223-225 | the twenty printf("%02x") calls print the hex of the SHA-1 digest bytes of the state |
| Md5Sum.HashContext.Md5Hex | toybox-0.4.8/toys/lsb/md5sum.c:226 | the four printf("%08x", SWAP_BE32(...)) calls print the hex of the MD5 digest bytes of the state |
| Md5Sum.HashContext.WordByte | toybox-0.4.8/toys/lsb/md5sum.c:225 | 255 & (w >> ((3-j)*8)) is byte j of w, high byte first |
| Md5Sum.HashContext.Wipe | toybox-0.4.8/toys/lsb/md5sum.c:229 | memset leaves state, oldstate, count and buffer all zero |
| Md5Sum.HashChunks | toybox-0.4.8/toys/lsb/md5sum.c:190-229 | for any routine that computes the compression function, do_hash over a sequence of reads returns Final of the context fed with their concatenation |
| Md5Sum.ReadAll | toybox-0.4.8/toys/lsb/md5sum.c:199-203 | hash_update on each read in turn leaves the context equal to Feed of the starting context with the concatenation of the reads |
| Md5Sum.FeedAllSnoc | toybox-0.4.8/toys/lsb/md5sum.c:199-203 | one more pass of the read loop is one more update with the next chunk |
| Md5Sum.HashStream | toybox-0.4.8/toys/lsb/md5sum.c:183-229 | do_hash over a sequence of reads returns the digest of the whole file |
| Md5Sum.FinishState | toybox-0.4.8/toys/lsb/md5sum.c:214-221 | after the padding loop 56 bytes are pending, and transforming them with the length field completes the trailer |
| Md5Sum.PadNotDone | toybox-0.4.8/toys/lsb/md5sum.c:218 | while the count is not 56 mod 64, fewer zeros than the padding needs have been fed |
| Md5Sum.PadDone | toybox-0.4.8/toys/lsb/md5sum.c:214-218 | when the loop stops, 0x80 and the zeros fed so far are exactly the padding |
| Md5Sum.PadStep | toybox-0.4.8/toys/lsb/md5sum.c:215-217 | a pass that feeds one zero byte extends the bytes fed by that zero and the count by one |
| Md5Sum.Sha1HexStep | toybox-0.4.8/toys/lsb/md5sum.c:224-225 | each pass of the SHA-1 printf loop prints the next digest byte |
| Md5Sum.Md5HexStep | toybox-0.4.8/toys/lsb/md5sum.c:226 | each pass of the MD5 printf loop prints the next four digest bytes |
| Md5Sum.AbsorbNext | toybox-0.4.8/toys/lsb/md5sum.c:170-173 | absorbing up to the next block boundary is one more call of the transform |
| Md5Sum.FeedWithin | toybox-0.4.8/toys/lsb/md5sum.c:176-178 | when the data completes no block, the update only appends it to the pending bytes |
| Md5Sum.FeedAcross | toybox-0.4.8/toys/lsb/md5sum.c:167-178 | when it does, the pending bytes after the update are the data from i on, after the whole blocks were transformed |

## Left out

- Reading the files: the `read()` loop, `loopfiles`, opening files and error reporting are I/O. `Md5Sum.HashChunks` and `Md5Sum.HashStream` take the reads as a sequence of byte chunks.
- Printing: `printf` output is returned as a string. The two spaces and the file name that follow the digest are not modelled.
- Picking md5sum or sha1sum from the command name (line 186) is a parameter `alg`.
- The help text and the command registration (lines 11-33) are not code.
- Host byte order: the model assumes a little-endian host, where the union's word view of the buffer is little-endian and SWAP_BE32 swaps bytes. On a big-endian host the C code prints different digits.
- Md5Sum.HashContext.Sha1Transform: the message schedule is kept in a fresh sixteen-word array, not written back into the byte buffer. The C code overwrites `TT.buffer` in place; those bytes are never read again before the buffer is refilled or wiped, so no observable behaviour is lost.
- Md5Sum.HashContext.Update: proved for len up to 2^32 - 64 (`MaxUpdate`). For longer len the C code's `unsigned int` sums `j + len` and `i + 63` wrap around. The read loop only passes reads of at most `sizeof(toybuf)` bytes.
- Md5.Md5Table: the comment at lines 49-51 derives the constants from sin(i+1). The model takes the 64 constants verbatim, as the code does; floating point is not modelled.
- Bits.Rol: it is the `rol` macro for amounts 1 to 31, the only amounts the code uses. Its defining property is its body, so it carries no contract of its own.
- Md5.Md5Role, Md5.Md5MessageIndex, Md5.Md5Rotation: they are the index arithmetic of lines 79-100, written as the code writes it, with no contract of their own. What they compute is stated by Md5.Md5ScheduleMatchesRfc.
- Sha1.Sha1Mix: it is the round expression of lines 130-135 as written, with no contract of its own. Sha1.Sha1MixIsFips states what it computes.
- Sha1.SwapHostWord: it is the byte swap of lines 138-139 as written, with no contract of its own. Sha1.SwapHostWordIsBswap and Sha1.SwapHostWordIsBigEndian state what it computes.
- Bits.Bswap32, Bits.Bswap64: they are byte reversals with no contract of their own. Bits.BswapBytes, Bits.BswapLeWord and Bits.Bswap64Bytes state what they compute.
- Hashing.BitLength: it is count << 3 on 64 bits (line 205), with no contract of its own. Hashing.LengthFieldValue states how it is stored.
