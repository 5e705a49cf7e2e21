# TriHaRd: models and proofs

TriHaRd is a trusted-time service. A node in an enclave keeps a clock on the processor's time stamp
counter, disciplines it by messages from a time authority, and, when an interrupt has made its clock
doubtful (tainted), asks its siblings whether they still agree with it. Everything on the wire is sealed
with AES-256-GCM from a vendored libsodium.

This project models the parts of that system whose correctness is hard to see, and proves what they are
for. Loops and updates in place are methods over arrays and objects, proved against specification
functions; what those functions mean is proved as lemmas over all inputs or all runs.

**Field arithmetic in GF(2^255 - 19)** (section 4.1 of RFC 7748). `Field51` is the five-limb layout,
`Field255` and `Field255Scale` the ten-limb one. Words are `newtype`s, so a method that verifies contains
no operation that overflows, except where the source reduces on purpose (unsigned subtraction in a carry,
truncating casts), which is written out. `FieldAgreement` relates the two multiplies on the same field elements.

**AES-256-GCM** (NIST SP 800-38D). `Gf128` models the SSE intrinsics on 128-bit registers and proves that
the reduction network multiplies as section 6.3 says, and that the aggregated Karatsuba step is four GHASH
steps. `Gcm` states sections 6.4, 6.5, 7.1 and 7.2, `GcmForms` gives closed forms of small cases; `GcmDriver` is the 8-blocks-at-a-time driver. The AES
block function is an arbitrary function on blocks.

**Codecs and byte loops.** `Base64Letters`, `Base64` and `Base64Decode` treat a base64 text as a number in
base 64, and `Base64Groups` relates that to the groups of RFC 4648; `HexDigits` and `Hex` do the hexadecimal codec; `Padding` is ISO/IEC 9797-1 padding method 2;
`LittleEndian` is multi-byte arithmetic; `Sampler` is the rejection sampler. The branch-free expressions
are modelled as the code writes them and proved equal to what they select.

**The node.** `Timespecs`, `Wire` and `Messages` are time values and message layouts; `Exchange` composes a
whole drift exchange from both ends and the cipher. `Clock` is the node as a state machine with
one atomic step per event; `ENode` is the same as an object whose methods update its fields, each proved to
be its step. `Serving`, `Moves`, `Phases`, `Monotone`, `Convergence`, `Training`, `SyncConvergence`, `Quorum` and `Untainting`
are about whole runs, and `Witnesses` has concrete ones.

Five results that the comments in the code do not lead one to expect:

- The comparison macros of the base64 codec are specified for 0..255, but the decoder passes them a signed
  `char`. A character above 127 therefore decodes as the digit 63, and an accepted text is the encoding of
  its bytes exactly when it is ASCII (`Base64Decode.EncodeDecoded`, `Base64Decode.BeyondAscii`).
- Decoding an encoding also depends on `ignore`: if it contains `=`, the decoder skips the padding it later
  asks for (`Base64Decode.DecodeEncoded` gives the exact condition).
- The ten-limb `fe25519_mul32` takes any 32-bit multiplier, but its final casts lose bits for large ones.
  The result is right exactly when the odd limbs fit, which holds for every multiplier up to 1,291,000,000
  (`Field255Scale.Mul32`, `Field255Scale.LargeMultiplier`).
- `get_timestamp` rounds down to a nanosecond and forgets the rest, so the frequency the node finds is the
  authority's only if every reading of its clock falls a whole number of nanoseconds after the one before.
  A FREQ phase finds the true rate, and an update in SYNC keeps it, exactly in that case
  (`Training.TrainingFindsRate`, `SyncConvergence.AtTrueRate`; `Witnesses` has runs in which they do not).
  Otherwise a SYNC run from above still converges up to what its readings lose
  (`SyncConvergence.SyncConverges`, `SyncConvergence.HeadroomStaysAbove`).
- A replayed untainting message changes no record but is counted again: after a new interrupt it clears
  the flag if the old records form a quorum (`Untainting.ReplayClears`).

Modelling choices: a `double` is a real; time values are whole nanoseconds; steps of the node are atomic, the
attacker of the experiments is absent, and an unforced read that would wait is a step that is not served.
The node's monitor is the variant built with AEX notifications. A step is taken with a positive frequency
and a counter that does not go back, and a training's ratio must not divide by zero. `pass_count`,
`enter_freq` and `train_start_ts`, which all nodes of an enclave share as statics of a function, are fields:
the theorems about phases are for an enclave with one node. Functions of libsodium
that abort the program on misuse have the opposite as their precondition. Clock readings, the authority's
timestamps, random words and the bytes of messages are parameters.

## Model

| member | source | states |
|---|---|---|
| Field51.Mul | trihard/node/Libsodium/include/sodium/private/ed25519_ref10_fe_51.h:242-326 | for limbs below 2^54 no 64- or 128-bit operation wraps, the result is congruent to f g mod 2^255 - 19 and every limb is at most 2^51; h may be f or g |
| Field51.Sq | trihard/node/Libsodium/include/sodium/private/ed25519_ref10_fe_51.h:333-405 | squaring gives the same limbs as multiplying by itself |
| Field51.Sq2 | trihard/node/Libsodium/include/sodium/private/ed25519_ref10_fe_51.h:412-490 | twice the square, with limbs still below 2^53 |
| Field51.Mul32 | trihard/node/Libsodium/include/sodium/private/ed25519_ref10_fe_51.h:492-518 | n f for every 32-bit n, without overflow |
| Field51.Sub | trihard/node/Libsodium/include/sodium/private/ed25519_ref10_fe_51.h:52-86 | adding 2p first, the difference never underflows and is congruent to f - g |
| Field51.SquareOfDifferences | trihard/node/Libsodium/include/sodium/private/ed25519_ref10_fe_51.h:32-86 | closure: the sum of two differences of multiply outputs is below 2^54, so it may be multiplied again |
| Field255.ColumnsCongruent | trihard/node/Libsodium/include/sodium/private/ed25519_ref10_fe_25_5.h:335-366 | the ten columns in the mixed 26/25-bit radix represent the product of the two elements |
| Field255.Mul | trihard/node/Libsodium/include/sodium/private/ed25519_ref10_fe_25_5.h:335-624 | for limbs within 1.65*2^26 and 1.65*2^25 no 32- or 64-bit operation overflows, the result represents f g, and its limbs are within 1.01*2^25 and 1.01*2^24 |
| Field255.Sq | trihard/node/Libsodium/include/sodium/private/ed25519_ref10_fe_25_5.h:626-796 | the square, within the same bounds |
| Field255.Sq2 | trihard/node/Libsodium/include/sodium/private/ed25519_ref10_fe_25_5.h:798-979 | twice the square, within the same bounds |
| Field255Scale.Add | trihard/node/Libsodium/include/sodium/private/ed25519_ref10_fe_25_5.h:28-64 | for limbs within 1.1*2^25 and 1.1*2^24 a sum does not overflow, is within 1.1*2^26 and 1.1*2^25, and may be multiplied |
| Field255Scale.Sub | trihard/node/Libsodium/include/sodium/private/ed25519_ref10_fe_25_5.h:66-102 | the same for a difference |
| Field255Scale.Mul32 | trihard/node/Libsodium/include/sodium/private/ed25519_ref10_fe_25_5.h:981-1050 | the result represents n f if and only if the odd limbs fit 32 bits before the casts; they do for all n up to MUL32_SAFE, and up to 2^24 the result may be multiplied |
| Field255Scale.CastsKeepExactly | trihard/node/Libsodium/include/sodium/private/ed25519_ref10_fe_25_5.h:1040-1049 | truncating any limb always changes the element: losses at the five weights never add up to a multiple of the prime |
| Field255Scale.LargeMultiplier | trihard/node/Libsodium/include/sodium/private/ed25519_ref10_fe_25_5.h:981-1050 | an element and multipliers for which the casts lose bits |
| FieldAgreement.Agree | trihard/node/Libsodium/include/sodium/private/ed25519_ref10_fe_25_5.h:335-624 | on limbs of equal field elements the ten-limb and the five-limb multiply give limbs of equal elements |
| Gf128.MulvIsDot | trihard/node/Libsodium/aead_aes256gcm_aesni.cpp:264-305 | the carry-less products and the reduction network compute the product of section 6.3 of SP 800-38D, for all 128-bit inputs |
| Gf128.MulvXor | trihard/node/Libsodium/aead_aes256gcm_aesni.cpp:264-305 | the multiply distributes over XOR: the network is linear, its ORs meet on disjoint bits |
| Gf128.DotComm | trihard/node/Libsodium/aead_aes256gcm_aesni.cpp:264-305 | the product of section 6.3 is commutative |
| Gf128.DotAssoc | trihard/node/Libsodium/aead_aes256gcm_aesni.cpp:542-545 | it is associative, which the stored powers of H rely on |
| Gf128.MulReduce4IsSum | trihard/node/Libsodium/aead_aes256gcm_aesni.cpp:312-410 | MULREDUCE4 is the XOR of four separate products, the accumulator folded into the fourth |
| Gf128.AggregatedGhash | trihard/node/Libsodium/aead_aes256gcm_aesni.cpp:312-410 | with the stored powers of H it is four consecutive GHASH steps |
| GcmDriver.AddMul | trihard/node/Libsodium/aead_aes256gcm_aesni.cpp:200-262 | one GHASH step on a block padded with zeros |
| GcmDriver.EncryptDetached | trihard/node/Libsodium/aead_aes256gcm_aesni.cpp:503-621 | for every message and associated data the driver writes exactly the ciphertext and tag of GCM-AE (section 7.1), nothing else, in place or not |
| GcmDriver.DecryptDetached | trihard/node/Libsodium/aead_aes256gcm_aesni.cpp:642-797 | it is GCM-AD (section 7.2): 0 and the plaintext exactly when the tag is right, else -1 and only zeros in the output |
| GcmDriver.Encrypt | trihard/node/Libsodium/aead_aes256gcm_aesni.cpp:623-640 | the ciphertext followed by its tag |
| GcmDriver.Decrypt | trihard/node/Libsodium/aead_aes256gcm_aesni.cpp:799-823 | the inverse on such a buffer; shorter ones fail |
| GcmDriver.SealThenOpen | trihard/node/Libsodium/aead_aes256gcm_aesni.cpp:623-823 | decrypting what was encrypted returns 0 and the message |
| Gcm.LoadStore | trihard/node/Libsodium/aead_aes256gcm_aesni.cpp:547-566 | keeping the accumulator in a register is the same as storing and loading it |
| Gcm.GcmRoundTrip | trihard/node/Libsodium/aead_aes256gcm_aesni.cpp:642-797 | section 7.2 undoes section 7.1 |
| Gcm.OpensExactly | trihard/node/Libsodium/aead_aes256gcm_aesni.cpp:776-797 | a ciphertext and tag open to a message if and only if section 7.1 makes them of that message |
| GcmForms.LengthsMean | trihard/node/Libsodium/aead_aes256gcm_aesni.cpp:533-539 | the length block holds the bit length of the associated data and then that of the ciphertext |
| GcmForms.LoadBit | trihard/node/Libsodium/aead_aes256gcm_aesni.cpp:203-230 | bit i of a loaded block is counted from the top of its first byte |
| GcmForms.TagOfData | trihard/node/Libsodium/aead_aes256gcm_aesni.cpp:503-621 | the tag of one block of associated data and no message, with every constant written out |
| GcmForms.OneBlockEach | trihard/node/Libsodium/aead_aes256gcm_aesni.cpp:503-621 | ciphertext and tag of one block each, counters 2 and 1 |
| GcmForms.OneByte | trihard/node/Libsodium/aead_aes256gcm_aesni.cpp:503-621 | ciphertext and tag of one byte, filled up with zeros |
| Gcm.GctrIsStream | trihard/node/Libsodium/aead_aes256gcm_aesni.cpp:568-605 | GCTR block by block is the key stream by byte position that the driver's groups write |
| Gcm.GhashIsPadded | trihard/node/Libsodium/aead_aes256gcm_aesni.cpp:547-612 | hashing pieces with zero padding of partial blocks is GHASH of the padded input |
| Gcm.CountersDistinct | trihard/node/Libsodium/include/sodium/crypto_aead_aes256gcm.h:53-55 | up to the length limit no data counter block repeats or equals the one that masks the tag |
| Base64Letters.ByteToCharIsLetter | trihard/node/Libsodium/codecs.cpp:103-144 | the branch-free maps are the alphabets of RFC 4648 |
| Base64Letters.CharToByteIsDigit | trihard/node/Libsodium/codecs.cpp:125-156 | the inverse maps: 0xFF outside the alphabet, and 63 for a negative character |
| Base64Groups.Alphabets | trihard/node/Libsodium/codecs.cpp:116-144 | both alphabets, letter by letter |
| Base64Groups.ThreeBytes | trihard/node/Libsodium/codecs.cpp:204-229 | three more bytes make the four digits of section 4 of RFC 4648 |
| Base64Groups.LastByte | trihard/node/Libsodium/codecs.cpp:213-215 | one byte at the end makes two digits and two pads |
| Base64Groups.LastTwoBytes | trihard/node/Libsodium/codecs.cpp:213-215 | two bytes at the end make three digits and one pad |
| Base64Groups.Vectors | trihard/node/Libsodium/codecs.cpp:178-239 | test vectors of section 10 |
| Base64.EncodedLenExact | trihard/node/Libsodium/include/sodium/utils.h:80-83 | the length macro is the exact buffer need, and padded texts are whole groups of four |
| Base64.Bin2Base64 | trihard/node/Libsodium/codecs.cpp:178-239 | the text is the number's digits and padding, then NULs to the end of the buffer; the source's assertion holds |
| Base64Decode.Base642Bin | trihard/node/Libsodium/codecs.cpp:265-333 | the decoder's result, length, bytes and end for every text, `ignore` and buffer size; nothing is written past the buffer |
| Base64Decode.SkipPadding | trihard/node/Libsodium/codecs.cpp:241-263 | where the padding ends, or which way it is missing |
| Base64Decode.DecodeEncoded | trihard/node/Libsodium/codecs.cpp:265-333 | in all four variants decoding an encoding gives the bytes back, if and only if they fit and no needed padding is ignored |
| Base64Decode.EncodeDecoded | trihard/node/Libsodium/codecs.cpp:265-333 | an accepted text is the encoding of its bytes if and only if it is ASCII |
| Base64Decode.AcceptedExactly | trihard/node/Libsodium/codecs.cpp:265-333 | the accepted ASCII texts are exactly the encodings of what fits |
| Base64Groups.EncodeDecodedIgnoring | trihard/node/Libsodium/codecs.cpp:281-327 | with `ignore`, an accepted ASCII text without its ignored characters is the encoding of its bytes |
| Base64Groups.StopMeans | trihard/node/Libsodium/codecs.cpp:281-309 | digits are read up to the end, to a digit without room, or to a character neither digit nor ignored |
| Base64Groups.SkipMeans | trihard/node/Libsodium/codecs.cpp:241-263 | what padding is skipped over, and why skipping fails |
| Base64Groups.FullBuffer | trihard/node/Libsodium/codecs.cpp:300-304 | a text without room ends at the digit of the byte too many and gives nothing |
| Base64Groups.NulIsIgnored | trihard/node/Libsodium/codecs.cpp:290 | an empty `ignore` still ignores NUL |
| Base64Decode.BeyondAscii | trihard/node/Libsodium/codecs.cpp:103-114 | an accepted text that is not the encoding of its bytes |
| Base64Decode.EncodeThenDecode | trihard/node/Libsodium/codecs.cpp:178-333 | the two methods in sequence restore every byte string |
| HexDigits.NibbleCharIsHexDigit | trihard/node/Libsodium/codecs.cpp:24-33 | the encoder's expression is the lower-case digit |
| HexDigits.ValIsDigit | trihard/node/Libsodium/codecs.cpp:55-67 | the decoder's masks recognise the digits of either case and their values |
| HexDigits.Alphabets | trihard/node/Libsodium/codecs.cpp:24-67 | the alphabet written and the two read, letter by letter |
| Hex.Bin2Hex | trihard/node/Libsodium/codecs.cpp:13-38 | two digits a byte and a NUL, nothing else |
| Hex.Hex2Bin | trihard/node/Libsodium/codecs.cpp:40-101 | the decoder's result, bytes and end for every text, `ignore` and buffer size |
| Hex.AcceptedExactly | trihard/node/Libsodium/codecs.cpp:54-101 | a text is read whole exactly when it is digits in even number that fit, with ignored characters between bytes only |
| Hex.DecodeEncoded | trihard/node/Libsodium/codecs.cpp:13-101 | decoding an encoding gives the bytes back exactly when they fit |
| Hex.EncodeDecoded | trihard/node/Libsodium/codecs.cpp:13-101 | re-encoding an accepted text gives it lower-cased without its ignored characters |
| Hex.OddDigit | trihard/node/Libsodium/codecs.cpp:84-91 | on an odd number of digits the end is the unpaired digit |
| Hex.StopMeans | trihard/node/Libsodium/codecs.cpp:54-83 | why reading ends where it does |
| Hex.FullBuffer | trihard/node/Libsodium/codecs.cpp:69-73 | a text without room ends at the byte too many and gives nothing |
| Hex.NulIsIgnored | trihard/node/Libsodium/codecs.cpp:62 | an empty `ignore` still ignores NUL |
| Padding.Pad | trihard/node/Libsodium/utils.cpp:731-770 | the message, 0x80 and zeros to a multiple of the block size, in bounds, for power-of-two and other sizes alike |
| Padding.Unpad | trihard/node/Libsodium/utils.cpp:772-800 | one branch-free pass finds the last nonzero byte of the last block and whether it is 0x80 |
| Padding.UnpadPadded | trihard/node/Libsodium/utils.cpp:731-800 | unpadding a padded message returns its length |
| Padding.UnpaddedExactly | trihard/node/Libsodium/utils.cpp:772-800 | unpadding finds n if and only if byte n is 0x80, lies in the last block, and only zeros follow |
| Padding.PadUnpadded | trihard/node/Libsodium/utils.cpp:731-800 | on whole blocks, whatever unpadding accepts is reproduced by padding |
| LittleEndian.Increment | trihard/node/Libsodium/utils.cpp:299-303 | adding one modulo 256^len |
| LittleEndian.Add | trihard/node/Libsodium/utils.cpp:348-352 | the sum modulo 256^len |
| LittleEndian.Sub | trihard/node/Libsodium/utils.cpp:391-395 | the difference modulo 256^len |
| LittleEndian.AddThenSub | trihard/node/Libsodium/utils.cpp:306-396 | subtracting what was added restores every byte |
| LittleEndian.Compare | trihard/node/Libsodium/utils.cpp:216-245 | the sign of the difference of the two numbers, without branching |
| Sampler.MinIsRemainder | trihard/node/Libsodium/randombytes.cpp:57 | the threshold is 2^32 modulo the bound |
| Sampler.Uniform | trihard/node/Libsodium/randombytes.cpp:48-66 | the result is the residue of the first accepted word |
| Sampler.ExactlyUniform | trihard/node/Libsodium/randombytes.cpp:48-66 | every residue has exactly floor(2^32 / bound) accepted words |
| Timespecs.Standardize | trihard/node/Enclave/timespec.h:3-17 | the two loops reach the one standard form of the same instant |
| Timespecs.Divide | trihard/node/Enclave/timespec.h:131-138 | dividing by two through doubles is the floor of half the nanoseconds |
| Timespecs.Offset | trihard/node/Enclave/ENode.cpp:772 | the offset expression on timespecs is the one on nanoseconds |
| Timespecs.OffsetErrorBound | trihard/node/Enclave/ENode.cpp:766-772 | for all delays the offset is within half the round trip plus 1 ns of the true one |
| Wire.Request | trihard/node/Enclave/ENode.cpp:909-937 | the 81 bytes of the node's request |
| Wire.HandleMsg | trihard/time_authority/server.cpp:33-72 | the authority echoes count, sleep time and origin in place and stamps its readings |
| Wire.EchoSurvives | trihard/time_authority/server.cpp:33-72 | what the node reads back is what it sent, with the authority's readings |
| Exchange.DriftExchange | trihard/node/Enclave/ENode.cpp:735-772 | through layout, cipher and both ends, the computed offset meets the error bound |
| Messages.ParseAnswerFrame | trihard/node/Enclave/ENode.cpp:611-627 | a sibling's answer survives its 80 bytes |
| Messages.AnswerSurvives | trihard/node/Enclave/ENode.cpp:574-632 | what a consistent sibling sends back for a tainted node's 79 bytes is read as its count, its origin, the sibling's verdict and its two readings |
| Messages.AsksInVain | trihard/node/Enclave/ENode.cpp:574-632 | a node that is inconsistent, or does not know the sender, neither answers nor reads its clock |
| Messages.DecodeDrift | trihard/node/Enclave/ENode.cpp:735-762 | the authority's bytes are a D event with its three timespecs in their places |
| Messages.OthersAreIgnored | trihard/node/Enclave/ENode.cpp:550-862 | which first bytes and lengths are which event, and that no others are any |
| Messages.DriftBytes | trihard/node/Enclave/ENode.cpp:909-932 | a drift message byte by byte |
| Messages.AnswerBytes | trihard/node/Enclave/ENode.cpp:610-627 | an untainting message byte by byte |
| ENode.Node.HandleTaint | trihard/node/Enclave/ENode.cpp:574-632 | the T case is its step and sends that answer |
| ENode.Node.HandleMessage | trihard/node/Enclave/ENode.cpp:550-862 | any bytes from anywhere take the step their event names, keep the invariants, change nothing else, and are answered as ReplyTo says; the frequency is positive and no training divides by zero |
| ENode.Node.HandleDrift | trihard/node/Enclave/ENode.cpp:735-854 | the D case is its step, unless a training's ratio divides by zero |
| ENode.Node.HandleUntaint | trihard/node/Enclave/ENode.cpp:633-734 | the U case is its step |
| ENode.Node.SelectClock | trihard/node/Enclave/ENode.cpp:1127-1209 | the new state of select_clock in SYNC, SPIK and FREQ |
| ENode.Node.DisciplineClock | trihard/node/Enclave/ENode.cpp:1227-1247 | the new frequency, the step forward and the update mark |
| ENode.Node.GetTimestamp | trihard/node/Enclave/ENode.cpp:1291-1301 | when a read is served, what it returns and how the reference point moves |
| ENode.Node.MonitorRdtsc | trihard/node/Enclave/ENode.cpp:966-994 | self-tainting and discalibration at the end of a round |
| ENode.Node.AexHandler | trihard/node/Enclave/ENode.cpp:122-165 | an interrupt taints and is counted |
| ENode.Node.AddSibling | trihard/node/Enclave/ENode.cpp:1249-1288 | a new sibling is recorded once and told so, the node itself never |
| ENode.InvStep | trihard/node/Enclave/ENode.cpp:550-1301 | every step keeps the phase shape, the time line and the distinctness of siblings |
| Serving.NewNode | trihard/node/Enclave/ENode.cpp:255-257 | a new node vouches for nothing and knows nobody; a stopping one serves every read |
| Serving.ServedExactly | trihard/node/Enclave/ENode.cpp:1294 | an unforced read is served if and only if the node is calibrated, consistent and not tainted and its counter has moved on, or it is stopping |
| Serving.TaintedServesNothing | trihard/node/Enclave/ENode.cpp:1294 | in every run from a tainted state with no clearing message, no unforced read is served unless stopping |
| Serving.UncalibratedStays | trihard/node/Enclave/ENode.cpp:874-901 | what FREQ exit or a discalibrated round took away, only calibration gives back |
| Serving.QuietRound | trihard/node/Enclave/ENode.cpp:966-994 | the 101st round in a row without an interrupt taints; any other is judged against the reference, five per cent either way |
| Serving.InterruptedRound | trihard/node/Enclave/ENode.cpp:122-165 | an interrupt taints, starts the row over and spares the round |
| Serving.RoundsAddUp | trihard/node/Enclave/ENode.cpp:966-984 | in every run without interrupts up to 100 rounds only lengthen the row and set no flag |
| Serving.SelfTaints | trihard/node/Enclave/ENode.cpp:973-983 | and the next one taints |
| Moves.OffsetSeen | trihard/node/Enclave/ENode.cpp:766-772 | for all delays the stored offset is within half the round trip plus 1 ns of the authority's lead |
| Moves.DriftMoves | trihard/node/Enclave/ENode.cpp:766-793 | where the clock and the state stand after a D message in FREQ, SYNC and SPIK |
| Moves.SpikeEnds | trihard/node/Enclave/ENode.cpp:1146-1163 | an exact answer in SPIK puts the clock on the authority's time if it is more than half a millisecond behind |
| Moves.DriftJudges | trihard/node/Enclave/ENode.cpp:778-792 | outside FREQ the node is consistent if and only if the offset is within 960 microseconds |
| Moves.AnswerJudged | trihard/node/Enclave/ENode.cpp:686-694 | for all delays a new answer is recorded as consistent if and only if the sibling is seen less than half a millisecond ahead |
| Phases.PhaseRun | trihard/node/Enclave/ENode.cpp:1127-1209 | in every run: outside FREQ the poll exponent is 6, in SYNC the pass count is 0, in SPIK it is 64, in FREQ it counts the D messages |
| Phases.FirstFreq | trihard/node/Enclave/ENode.cpp:255-256 | the first FREQ phase lasts exactly 25 D messages, in every run |
| Phases.LaterFreq | trihard/node/Enclave/ENode.cpp:1164-1203 | each later one exactly two |
| Phases.SpikeLeft | trihard/node/Enclave/ENode.cpp:1146-1163 | SPIK is left by the next D message |
| Phases.NothingServed | trihard/node/Enclave/ENode.cpp:1294 | before the 26th D message no unforced timestamp is served unless stopping |
| Phases.SpikeServesNothing | trihard/node/Enclave/ENode.cpp:773-792 | in every run, a node in SPIK is inconsistent, and serves no unforced timestamp unless stopping |
| Monotone.MonotoneRun | trihard/node/Enclave/ENode.cpp:1291-1301 | in every run in which no message sets the clock back, the timestamps never decrease |
| Monotone.BackExactly | trihard/node/Enclave/ENode.cpp:1164-1226 | a D message leaves the clock behind what it has just read if and only if it starts or ends a training with a negative offset |
| Monotone.BackIsSeen | trihard/node/Enclave/ENode.cpp:1291-1301 | the next timestamp decreases if and only if the message is one of those |
| Monotone.CoastRun | trihard/node/Enclave/ENode.cpp:1291-1301 | over k reads at a fixed frequency the clock advances by more than the counter's time less k ns and at most by that time, by all of it if and only if every reading falls a whole number of ns after the one before |
| Convergence.FrequencyDrop | trihard/node/Enclave/ENode.cpp:1237-1239 | one SYNC update lowers the frequency by less than 0.016 |
| Convergence.BothLocked | trihard/node/Enclave/ENode.cpp:1232-1239 | the two corrections at poll exponent 11 on given numbers |
| Convergence.FreqExit | trihard/node/Enclave/ENode.cpp:1177-1202 | under exact answers FREQ exit sets the frequency to F less f times the loss per ns of training, to F itself if and only if every reading is whole, and settles the node |
| Training.TrainingFindsRate | trihard/node/Enclave/ENode.cpp:1164-1203 | the same for a whole phase, first or later, whatever happens in between |
| Training.StaysPositive | trihard/node/Enclave/ENode.cpp:1183-1192 | the frequency stays positive over every step but two; over the end of a training if and only if both durations have the same sign, over a SYNC update from 0.016 on |
| SyncConvergence.SyncUpdateError | trihard/node/Enclave/ENode.cpp:1227-1247 | an update realigns the clock, never raises the frequency, and scales the error by 1 - t^2 F/(16384 f^2), exactly when every reading is whole and otherwise within bounds set by the number of readings |
| SyncConvergence.AtTrueRate | trihard/node/Enclave/ENode.cpp:1227-1247 | at the true rate the update keeps it if and only if every reading in the gap is whole |
| SyncConvergence.LostNanosecond | trihard/node/Enclave/ENode.cpp:1291-1301 | from any settled node at rate 2, two readings in two nanoseconds after which the frequency is below the true rate |
| SyncConvergence.SyncConverges | trihard/node/Enclave/ENode.cpp:1227-1247 | whatever the readings lose, while no gap starts below F the frequency never rises and its error is at most a geometrically shrinking share of the first plus less than 10^-14 an update |
| SyncConvergence.WholeStaysAbove | trihard/node/Enclave/ENode.cpp:1227-1247 | over whole readings the frequency never falls below F |
| SyncConvergence.HeadroomStaysAbove | trihard/node/Enclave/ENode.cpp:1227-1247 | nor does it, whatever is lost, when the error at the start has room for what that many readings in that many gaps can lose |
| SyncConvergence.ConvergesFromAbove | trihard/node/Enclave/ENode.cpp:1227-1247 | in both cases every run ends between F and its start, with that error |
| Witnesses.FreqExitMisses | trihard/node/Enclave/ENode.cpp:1164-1203 | a run of a new node, with exact answers at rate 2, whose first FREQ phase ends at rate 1 |
| Witnesses.LossIsReachable | trihard/node/Enclave/ENode.cpp:1227-1247 | a run of a new node to the settled state from which the next update loses the true rate |
| Quorum.CountBoth | trihard/node/Enclave/ENode.cpp:707-719 | the second loop counts both properties |
| Quorum.HighestIsStored | trihard/node/Enclave/ENode.cpp:690-706 | the maximum the handler compares with is always a stored count |
| Quorum.ClearedMeans | trihard/node/Enclave/ENode.cpp:720-724 | two thresholds of all but one make all but two satisfy both |
| Untainting.ClearedExactly | trihard/node/Enclave/ENode.cpp:643-731 | an untainting message clears the flag if and only if its records form a quorum |
| Untainting.QuorateIsTwoByTwo | trihard/node/Enclave/ENode.cpp:707-720 | the quorum without counting: of any two siblings one is consistent at the highest count, and of any two one views the node as consistent |
| Untainting.ClearedInRun | trihard/node/Enclave/ENode.cpp:643-731 | in every run, a flag that was set and is clear flipped at an untainting message that left a quorum among the records |
| Untainting.SiblingsRun | trihard/node/Enclave/ENode.cpp:560-573 | in every run siblings stay distinct and in place and no stored count decreases |
| Untainting.Newcomers | trihard/node/Enclave/ENode.cpp:1249-1263 | a new sibling is added at the end with nothing to its name; a known one or the node itself is not |
| Untainting.SiblingsUntainted | trihard/node/Enclave/ENode.cpp:690-698 | a message touches only its sender's record, and that only with a higher count |
| Untainting.ReplayKeepsRecords | trihard/node/Enclave/ENode.cpp:690-698 | a replayed count changes no record |
| Untainting.ReplayClears | trihard/node/Enclave/ENode.cpp:695-724 | it is counted all the same: it clears the flag if and only if the old records form a quorum |
| Witnesses.ReplayIsReachable | trihard/node/Enclave/ENode.cpp:643-731 | a run of a new node in which an answer clears the flag a second time, after an interrupt |

## Left out

- Sockets, ocalls, threads, locks, condition variables, logging and the enclave interface: plumbing; steps are atomic.
- `shadow_tsc_update`, `sleep_attack_ms` and the special case of port 12346: instrumentation of a simulated attack.
- The build without AEX notifications (the other loop of `monitor_rdtsc`): it detects interrupts by gaps in the counter.
- `calib_sent`, `calib_recvd`, `startup_count`, the polling counter of `ntp` and the refresh loop: written, or timing only; nothing modelled reads them.
- Rounding of `double`, and overflow of 64-bit counters and seconds in the node.
- The AES rounds, the key expansion, RDTSC and the `HAVE_AMD64_ASM` paths: foreign instructions.
- Timing of the branch-free code: only its functional result is stated.
- Wrap-around of `size_t` in lengths that no buffer reaches.
- ENode.Node.HandleDrift: a D message whose training ratio divides by zero leaves an infinite or undefined `double`, which has no real.
- ENode.Node.HandleMessage: the same, and any message while the frequency is not positive.
- SyncConvergence.SyncConverges: what follows after the frequency has fallen below F, when the clock runs ahead and is no longer stepped, is not covered.
- Timespecs.Divide: only the divisor 2, the only one the node uses.
- Padding.Pad: block sizes of 2^56 and more, where the barrier mask no longer tells positions apart, are not covered; no buffer is that long.
- Sampler.Uniform: the random words are a given finite sequence, which may run out; that the loop ends with probability one is not stated.
- `fe25519_isnegative`, `fe25519_iszero`, conditional moves and swaps, negation and group operations: they need functions that are only declared, or are easy.
- `sodium_malloc`, memory protection, CPU detection, load and store helpers, `sodium_is_zero` and `sodium_memcmp`: platform code or easy members.
- `AEXTest`, plotting and deployment scripts: tooling.
