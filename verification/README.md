# A verified model of a FIDO2 authenticator

The repository is the firmware of a FIDO2 authenticator. This project models the parts of it where a
mistake is hard to see by reading, and proves what they promise. `dafny verify dfyconfig.toml` checks
everything.

**Multi-precision arithmetic** (`Words`, `Vli`, `VliMult`, `VliHalves`, `VliMod`, `ModInv`, `Ladder`,
`Bits2Int`, `Ecdsa`). The micro-ecc routines work in place on arrays of words; `Val` gives an array's
number, and word size and word count stay symbolic. Multiplication, reduction and inversion are proved
exact, the Montgomery ladder is proved over any commutative group, and the signing step is proved to
solve the ECDSA equation. The word count is below the word base, which the source's 8-bit
`wordcount_t` ensures.

**CBOR** (`ByteStrings`, `CborSpec`, `CborEncode`, `CborParse`, `CborItems`, `CborStandard`,
`CborAdvance`, `CborRoundTrip`, `StateCbor`). `CborSpec.Encode` is the encoding of RFC 7049
(`CborStandard` says so byte by byte); the encoder writes it or counts what does not fit, the pull
parser reads it back, and the persistent state built on both survives a power cycle.

**qsort** (`Order`, `QsortParts`, `QsortRun`). The run is proved with one idea: a position is a cut if
nothing before it is greater than anything after it, and every position outside the postponed ranges
is a cut. The ranges that the callers of a recursive call still have to do are a ghost parameter, so
that the invariant (`QsortRun.Progress`) is about the whole array and bounds all that is postponed.

**PIN and tokens** (`PinSpec`, `PinRuns`, `PinLaws`, `PinDevice`). `PinSpec.Step` says what each
command does to the retry counters, to the two tokens and to the credentials kept for
getNextAssertion; `PinDevice` has the fields and functions of the source and is proved to take those
steps; `PinRuns` and `PinLaws` prove what holds over every run. MACs, PIN hashes and the clock are
part of the requests; the clock is the 32-bit millisecond counter, which halts the device before it
wraps (`targets/tkey/src/device.c:51-58`).

**Resident keys** (`RkFiles`, `RkStore`, `RkLists`, `RkEnumeration`). Sixteen files of records are
proved to be one table with a correct count, and the stateful enumeration to list exactly what it
announces. File-system calls succeed, and no power is lost within an operation.

**Transport and hashing** (`HidFrames`, `HidWriter`, `HidReceiver`, `HidTransfer`, `HashPadding`,
`Blockwise`, `Sha512`, `Sha256`). Messages arrive whole although channels interleave, and the hash
functions feed their compression functions the padded message however it is cut.

Where the code differs from its comments, or from what they lead one to expect, the model follows the
code; the members named show a case, or say for all inputs when the expectation is met:

- `reset_pin_attempts` leaves the counter of the power cycle alone when the persistent counter is
  full, so after a factory reset a right PIN does not refill it (`PinRuns.NotRefilled`,
  `PinRuns.RefillsIff`).
- A token bound to a relying party is compared with the request's own `rpIDHash`, but deleting or
  updating a credential acts on the credential named beside it, whose relying party may be another one
  (`PinRuns.OtherOwner`, `PinRuns.ActsAsGrantedIff`).
- A locked device refuses getAssertion but records that it came, and getNextAssertion is not checked
  for the lock, so what an earlier getAssertion has left can still be fetched
  (`PinRuns.LockedYetFetches`, `PinRuns.NextAssertionIff`, `PinRuns.LockedUntilReset`).
- makeCredential needs no token while no PIN is set (`PinRuns.UnprotectedWithoutPin`,
  `PinRuns.AuthorisedIff`).
- The helpers of `state_cbor_decode` return their codes through `bool`, so the documented -1 and -2 of
  `get_u8` and its siblings arrive as 1 (`StateCbor.GetUnsigned`); `get_i8` takes the 128 largest
  numbers of either sign for small ones of the other (`StateCbor.GetSigned`).
- An unknown key in the state is meant to be skipped, but the decoder skips one item too many: the key
  after it is lost and its value read as a key, and after the last key the device halts in an
  assertion (`StateCbor.DecodeEntry`). A state to which one key was appended always does
  (`StateCbor.DecodeState`).
- For a state file of 1 to 16 bytes the size of the map is computed below zero and wraps
  (`StateCbor.ReadState`).
- An empty CTAPHID_CBOR or CTAPHID_MSG message is refused without freeing its channel
  (`HidReceiver.Receiver.HandlePacket`).
- Updating a credential compares user ids over the stored id's length only (`RkStore.LongerAgrees`,
  `RkStore.AgreesIff`).
- A full key store refuses even a key that would replace an existing one (`RkStore.Store.Create`).
- The enumeration of relying parties promises all of them; it lists all if and only if no file holds
  more than fifty, and its count is truncated in the same way (`RkLists.FiftyFirstForgotten`,
  `RkLists.CompleteIffFewPerFile`).
- The SHA-512 length field is correct if and only if the 32-bit block counter has not wrapped
  (`Sha512.StandardIffCounted`); the assertion on the buffer holds in any case.

## Model

| member | source | states |
|---|---|---|
| `Vli.Add` | crypto/micro-ecc/uECC.c:330-346 | result + carry·B^n = left + right, for any word size and count, also when result is an operand |
| `Vli.Sub` | crypto/micro-ecc/uECC.c:349-365 | result + right = left + borrow·B^n |
| `Vli.Cmp` | crypto/micro-ecc/uECC.c:304-312 | the sign of left − right, from one subtraction |
| `Vli.CmpUnsafe` | crypto/micro-ecc/uECC.c:271-284 | the sign of left − right, from the highest differing word |
| `Vli.IsZero` | crypto/micro-ecc/uECC.c:217-224 | true exactly for the number zero |
| `Vli.RShift1` | crypto/micro-ecc/uECC.c:315-327 | halves the number, across word boundaries |
| `VliMult.MulAdd` | crypto/micro-ecc/uECC.c:369-406 | adds a·b to the three-word accumulator with no lost carry, as long as the third word has room |
| `VliHalves.Product` | crypto/micro-ecc/uECC.c:375-394 | the two words put together from four half products are a·b exactly |
| `VliHalves.MulAddHalves` | crypto/micro-ecc/uECC.c:374-399 | the branch for 64-bit words without a double-width type: the same sum, its carries found by comparisons |
| `VliMult.Mul2Add` | crypto/micro-ecc/uECC.c:477-518 | adds 2·a·b, with the bit shifted out of the product going to the third word |
| `VliHalves.Mul2AddHalves` | crypto/micro-ecc/uECC.c:482-510 | the same branch with the product doubled by shifts across its two words |
| `VliMult.ColumnsAreProduct` | crypto/micro-ecc/uECC.c:447-468 | the sum of all columns of word products is the product of the two numbers |
| `VliMult.Column` | crypto/micro-ecc/uECC.c:450-467 | one column keeps: finished words + carry·B^k = the columns so far |
| `VliMult.Mult` | crypto/micro-ecc/uECC.c:447-468 | result = left·right exactly, for every word count |
| `VliMult.Mult8` | crypto/micro-ecc/uECC.c:420-444 | the unrolled eight-word form computes the same exact product as the loop form |
| `VliMult.SquareTerms` | crypto/micro-ecc/uECC.c:533-541 | doubled cross terms plus a single middle term are all terms of the column |
| `VliMult.Square` | crypto/micro-ecc/uECC.c:524-549 | result = left·left exactly, the value of the multiplication with itself |
| `VliMod.ModAdd` | crypto/micro-ecc/uECC.c:566-577 | left + right less at most one modulus, also when the sum overflows the words |
| `VliMod.ReduceOnceIsMod` | crypto/micro-ecc/uECC.c:566-577 | for reduced operands that is (left + right) mod m |
| `VliMod.ModSub` | crypto/micro-ecc/uECC.c:580-590 | left − right plus at most one modulus |
| `VliMod.LiftOnceIsMod` | crypto/micro-ecc/uECC.c:580-590 | for reduced operands that is (left − right) mod m |
| `VliMod.NumBits` | crypto/micro-ecc/uECC.c:243-259 | the length of the binary representation |
| `VliMod.ShiftLeftInto` | crypto/micro-ecc/uECC.c:610-614 | the words hold mod·2^bits |
| `VliMod.HalveDouble` | crypto/micro-ecc/uECC.c:630-632 | two half-width shifts and one or halve the double-width number |
| `VliMod.AlignModulus` | crypto/micro-ecc/uECC.c:604-617 | the modulus shifted so that its highest bit is the highest of 2n words |
| `VliMod.MMod` | crypto/micro-ecc/uECC.c:595-636 | result = product mod m for every double-width product and every modulus with a nonzero top word |
| `VliMod.ModMult` | crypto/micro-ecc/uECC.c:638-646 | result = left·right mod m |
| `ModInv.Update` | crypto/micro-ecc/uECC.c:707-717 | 2·new = old + e·m: an exact halving modulo an odd m, carry included |
| `ModInv.SubtractResidue` | crypto/micro-ecc/uECC.c:749-752 | u − v modulo m although carry and borrow are both dropped |
| `ModInv.TiedRound` | crypto/micro-ecc/uECC.c:746-753 | subtracting and halving keeps a ≡ u·input, b ≡ v·input and the common divisors of a and b |
| `ModInv.Rounds` | crypto/micro-ecc/uECC.c:739-763 | a + b falls in every round and the loop ends with a = b = gcd(input, m) |
| `ModInv.Invert` | crypto/micro-ecc/uECC.c:722-765 | for every odd m > 1 and every input below it: result < m, and result·input ≡ gcd(input, m); 0 for input 0 |
| `ModInv.CoprimeInverse` | crypto/micro-ecc/uECC.c:719-765 | for an input coprime to m that is the inverse |
| `Ladder.TestBit` | crypto/micro-ecc/uECC.c:227-230 | bit i of the number, wherever its word is |
| `Ladder.LadderStep` | crypto/micro-ecc/uECC.c:907-911 | one step keeps R1 − R0 = P while the scalar prefix doubles, plus the bit |
| `Ladder.PointMult` | crypto/micro-ecc/uECC.c:888-931 | over any commutative group: R0 = scalar·P with the implicit top bit, and R1 = R0 + P |
| `Ladder.RegularizeK` | crypto/micro-ecc/uECC.c:933-944 | the chosen scalar, read with its implicit top bit, is k + n or k + 2n |
| `Ladder.TimesOrder` | crypto/micro-ecc/uECC.c:933-944 | adding the order once or twice does not move the point |
| `Ecdsa.RegularScalar` | crypto/micro-ecc/uECC.c:956-958 | the scalar handed to the ladder stands for k + n or k + 2n |
| `Ecdsa.NoncePoint` | crypto/micro-ecc/uECC.c:946-964 | regularisation and ladder together give k·G |
| `Ecdsa.BlindedInverse` | crypto/micro-ecc/uECC.c:1303-1307 | k becomes k⁻¹ mod n although only the product with a random factor is inverted |
| `Ecdsa.ResponseScalar` | crypto/micro-ecc/uECC.c:1319-1325 | (e + r·d)·k⁻¹ mod n from an e that is not reduced |
| `Ecdsa.SignatureEquation` | crypto/micro-ecc/uECC.c:1319-1325 | then s·k ≡ e + r·d (mod n) |
| `Ecdsa.SignWithK` | crypto/micro-ecc/uECC.c:1263-1334 | success exactly for 0 < k < n, a nonzero x coordinate and a drawn blinding factor; then r is the x coordinate of k·G, s < n and s·k ≡ e + r·d (section 6.4 of FIPS 186-4) |
| `Bits2Int.BytesToNative` | crypto/micro-ecc/uECC.c:995-1005 | the words hold the number whose big-endian bytes are given, for any word size and length |
| `Bits2Int.ShiftRight` | crypto/micro-ecc/uECC.c:1248-1255 | shifting the words down, each taking what leaves the one above it, drops the lowest bits of the number |
| `Bits2Int.HashToInt` | crypto/micro-ecc/uECC.c:1225-1261 | for orders of any bit length and hashes of any length: the leading bytes, less the bits too many, less the order if not below it |
| `Bits2Int.HashNumberIsLeftmost` | crypto/micro-ecc/uECC.c:1225-1261 | that is the leftmost bits of the whole hash, as many as the order has, less the order at most once |
| `Bits2Int.LeftmostIs` | crypto/micro-ecc/uECC.c:1225-1261 | the leftmost bits are the whole part of the hash divided by a power of two, below 2^bits |
| `Ecdsa.SignHash` | crypto/micro-ecc/uECC.c:1263-1334 | the signature equation for the leftmost bits of a hash of any length (section 6.4 of FIPS 186-4), for orders of any bit length |
| `Ecdsa.Verifies` | crypto/micro-ecc/uECC.c:1319-1334 | such a signature verifies: with w the inverse of s, (e·w)·G + (r·w)·Q is the nonce point again (section 6.4.2 of FIPS 186-4) |
| `CborEncode.CborEncoder.Append` | tinycbor/src/cborencoder.c:240-272 | bytes are kept while they fit; afterwards only the number of missing bytes is; nothing is written past the buffer |
| `CborEncode.CborEncoder.CountItem` | tinycbor/src/cborencoder.c:308-312 | remaining counts down from the declared number and sticks at zero beyond it |
| `CborEncode.CborEncoder.EncodeNumberNoUpdate` | tinycbor/src/cborencoder.c:279-302 | the head of the number under its major type is appended |
| `CborStandard.HeadIs` | tinycbor/src/cborencoder.c:279-302 | that head is the one of section 2.1 of RFC 7049: the number itself below 24, else 1, 2, 4 or 8 bytes after 24, 25, 26 or 27, most significant first |
| `CborStandard.ShortestHead` | tinycbor/src/cborencoder.c:286-300 | whatever the parser reads as the same number is at least as long |
| `CborStandard.FirstByteIs` | tinycbor/src/cborencoder.c:326-482 | each kind of item has the initial bytes of its major type |
| `CborStandard.Numbers` | tinycbor/src/cborencoder.c:279-357 | integers of appendix A of RFC 7049, 23 and 24 among them |
| `CborStandard.WideNumbers` | tinycbor/src/cborencoder.c:279-302 | all integers of eight bytes |
| `CborStandard.Strings` | tinycbor/src/cborencoder.c:416-422 | byte strings, text strings and booleans of appendix A |
| `CborStandard.Containers` | tinycbor/src/cborencoder.c:461-482 | arrays and maps of appendix A |
| `CborStandard.OpenArray` | tinycbor/src/cborencoder.c:461-557 | an array of unknown length of appendix A, with others inside |
| `CborStandard.OpenMap` | tinycbor/src/cborencoder.c:461-557 | a map of unknown length of appendix A |
| `CborEncode.CborEncoder.EncodeNegativeInt` | tinycbor/src/cborencoder.c:339-343 | an absolute value of zero stands for 2^64 |
| `CborEncode.CborEncoder.EncodeInt` | tinycbor/src/cborencoder.c:350-357 | negative values as their complement with major type 1 |
| `CborEncode.CborEncoder.EncodeBoolean` | tinycbor/src/cbor.h:231-232 | simple values 20 and 21 |
| `CborEncode.CborEncoder.EncodeString` | tinycbor/src/cborencoder.c:416-422 | head and payload, counted in full even after space has run out |
| `CborEncode.CborEncoder.CreateContainer` | tinycbor/src/cborencoder.c:461-482 | a child encoder that continues the stream after the container's head |
| `CborEncode.CborEncoder.CreateMap` | tinycbor/src/cborencoder.c:522-527 | more than SIZE_MAX/2 pairs are refused with nothing changed |
| `CborEncode.CborEncoder.CreateIndefinite` | tinycbor/src/cborencoder.c:461-482 | a container of unknown length starts with 0x9f or 0xbf; its child encoder continues the stream |
| `CborEncode.CborEncoder.CloseContainer` | tinycbor/src/cborencoder.c:541-557 | no error if and only if exactly the declared items were added and all fitted; otherwise the error that applies |
| `CborEncode.CborEncoder.ExtraBytesNeeded` | tinycbor/src/cbor.h:260-263 | exactly the stream's length minus the buffer size |
| `CborEncode.EncodeItem` | tinycbor/src/cborencoder.c:326-557 | for every tree, with containers of known and unknown length, and every buffer: the stream grows by the tree's encoding, and the result says whether it fitted |
| `CborParse.ExtractNumber` | tinycbor/src/cborparser.c:166-192 | succeeds exactly on a complete head, returns its number and moves past it; errors as in the source |
| `CborStandard.NumberIs` | tinycbor/src/cborparser.c:166-192 | which heads are complete, and their number, for each width |
| `CborStandard.MostSignificantFirst` | tinycbor/src/cborparser.c:166-192 | the first byte of a number counts most |
| `CborParse.CborValue.PreparseValue` | tinycbor/src/cborparser.c:215-299 | succeeds exactly on a head that can be read, and then the fields describe the item at the pointer |
| `CborStandard.ReadableIs` | tinycbor/src/cborparser.c:215-299 | which initial bytes are taken |
| `CborParse.CborValue.PreparseNextNoDecrement` | tinycbor/src/cborparser.c:301-312 | a break byte ends a container of unknown length and is passed; anything else is parsed as an item |
| `CborParse.CborValue.PreparseNext` | tinycbor/src/cborparser.c:314-324 | one item less is left, except after a tag and in a container of unknown length, which a break ends; success exactly at the end or before a readable head |
| `CborParse.CborValue.AdvanceInternal` | tinycbor/src/cborparser.c:326-339 | moves past the head of an item of fixed size |
| `CborParse.CborValue.RawInteger` | tinycbor/src/cborparser.c:351-361 | the number in the head, from the short or the long form |
| `CborParse.CborValue.GetStringChunk` | tinycbor/src/cborparser.c:996-1043 | a string of known length is one chunk and the next call moves on; one of unknown length goes chunk by chunk to its break byte |
| `CborParse.CborValue.IterateStringChunks` | tinycbor/src/cborparser.c:1080-1121 | ends on every buffer; the content is the payload, or all chunks joined; malformed or overlong strings are an error |
| `CborParse.CborValue.CopyString` | tinycbor/src/cborparser.c:1191-1200 | the content, chunks joined, if it fits the buffer; out of memory exactly if the string is well formed and does not |
| `CborStandard.ChunkIs` | tinycbor/src/cborparser.c:996-1043 | a chunk is a string of the same type, of known length, inside the buffer |
| `CborStandard.ChunkedStrings` | tinycbor/src/cborparser.c:996-1043 | a string in chunks of appendix A |
| `CborStandard.MixedChunks` | tinycbor/src/cborparser.c:996-1043 | a chunk of the wrong type makes a string malformed |
| `CborParse.CborValue.EnterContainer` | tinycbor/src/cborparser.c:587-616 | an iterator over exactly the announced number of children, doubled for maps; too many are refused |
| `CborParse.CborValue.LeaveContainer` | tinycbor/src/cborparser.c:636-642 | continues after the last child |
| `CborItems.HeadParsed` | tinycbor/src/cborparser.c:166-192 | a head that was encoded is read back as the number it was made from |
| `CborItems.KnownType` | tinycbor/src/cborparser.c:215-299 | before an encoded item the fields show its type, sign, length or that it has none, and value |
| `CborItems.Arrived` | tinycbor/src/cborparser.c:301-324 | an iterator that comes to encoded items stands before them, and past the break byte at the end of a container of unknown length |
| `CborAdvance.AdvanceRecursive` | tinycbor/src/cborparser.c:481-516 | on every buffer: ends, never moves back or past the end, consumes at least one byte on success; over an encoded item it lands on the next one if and only if the item nests no deeper than the limit |
| `CborAdvance.Advance` | tinycbor/src/cborparser.c:524-530 | the same with the limit of 1024; at the end of a container the assertion on the type forbids the call |
| `CborAdvance.DepthIs` | tinycbor/src/cborparser.c:481-516 | what the limit counts: a container is one deeper than its deepest child |
| `CborRoundTrip.ReadItem` | tinycbor/src/cborparser.c:587-642 | a reader built from enter, get and leave ends on every buffer and returns the encoded item |
| `CborRoundTrip.RoundTrip` | tinycbor/src/cborencoder.c:279-557 | for every tree, with containers of known and unknown length at any depth, and every buffer size: if the encoding fits, parsing returns the tree and stops at its last byte; if not, the missing bytes are exact |
| `StateCbor.EncodedSize` | fido2/src/state.c:79-145 | no state needs more than 124 bytes |
| `StateCbor.LongestState` | fido2/src/state.c:79-145 | some state needs all 124 |
| `StateCbor.Layout` | fido2/src/state.c:79-145 | the bytes of the map: eight keys in ascending order, each with its field |
| `StateCbor.EncodeState` | fido2/src/state.c:79-145 | succeeds exactly if the map of eight entries fits, and writes that map |
| `StateCbor.GetUnsigned` | fido2/src/state.c:13-50 | a value in range is returned; one out of range gives 1, because the helpers return bool; another type halts in the assertion |
| `StateCbor.GetSigned` | fido2/src/state.c:52-63 | values from −128 to 127; the code is 0 exactly for these and for the 128 largest 64-bit numbers, which the conversion to int64_t folds into the range with the other sign, and 1 otherwise |
| `StateCbor.GetBytes` | fido2/src/state.c:228-260 | a string of the field's size replaces the field |
| `StateCbor.DecodeEntry` | fido2/src/state.c:176-268 | an entry of the encoded map sets exactly its own field; a version other than 1 ends with −1; an unknown key takes the next key with it, and the last one halts in the assertion of cbor_value_advance |
| `StateCbor.DecodeState` | fido2/src/state.c:159-272 | on any bytes it ends with fields of the right widths; on the encoding of a version 1 state it restores all eight fields; with one unknown key appended to these it halts |
| `StateCbor.WriteState` | targets/tkey/src/device.c:180-207 | the file is magic, MAC and map, always within the 192-byte buffer |
| `StateCbor.ReadState` | targets/tkey/src/device.c:145-178 | for files of every size: accepts only bytes under the device's MAC and returns the state they encode; a file of 1 to 16 bytes with the right magic gets a map size that wraps |
| `StateCbor.PowerCycle` | targets/tkey/src/device.c:145-207 | a state survives being written and read back if and only if its version is 1 |
| `QsortParts.VecSwap` | targets/tkey/libc/newlib/libc/search/qsort.c:88-122 | exchanges two blocks and nothing else |
| `QsortParts.InsertionSort` | targets/tkey/libc/newlib/libc/search/qsort.c:196-203 | the range is sorted and keeps its elements |
| `QsortParts.Med3IsMedian` | targets/tkey/libc/newlib/libc/search/qsort.c:132-146 | med3 picks an element between the other two |
| `QsortParts.ScanRight` | targets/tkey/libc/newlib/libc/search/qsort.c:227-236 | stops at a greater element; equal ones are gathered at the left end |
| `QsortParts.ScanLeft` | targets/tkey/libc/newlib/libc/search/qsort.c:237-246 | stops at a smaller element; equal ones are gathered at the right end |
| `QsortParts.Partition` | targets/tkey/libc/newlib/libc/search/qsort.c:220-254 | four ranges: equal, less, greater, equal to the pivot |
| `QsortParts.Rearrange` | targets/tkey/libc/newlib/libc/search/qsort.c:263-274 | less, equal, greater, with the sizes of the outer parts |
| `QsortRun.Replace` | targets/tkey/libc/newlib/libc/search/qsort.c:276-344 | what is left to do may be replaced by parts of its top range once every other position of that range is a cut |
| `QsortRun.Pass` | targets/tkey/libc/newlib/libc/search/qsort.c:195-274 | a range is either sorted by insertion or partitioned around a pivot, keeping its elements |
| `QsortRun.Turn` | targets/tkey/libc/newlib/libc/search/qsort.c:195-344 | one pass keeps all that is proved about the ranges pending in this call and its callers — at most 8 stacked here, at most log2(n) − 1 in all — and reduces the work |
| `QsortRun.Next` | targets/tkey/libc/newlib/libc/search/qsort.c:292-337 | the larger part is postponed, or with a full stack the smaller one is sorted by a call |
| `QsortRun.Sort` | targets/tkey/libc/newlib/libc/search/qsort.c:180-345 | a range, with the callers' ranges still pending, is sorted in place and the rest untouched; every recursive call is made within the same log2 bound |
| `QsortRun.DeepIsLog` | targets/tkey/libc/newlib/libc/search/qsort.c:276-337 | that bound, kept by halving, is 2^(pending + 1) ≤ n |
| `QsortRun.Qsort` | targets/tkey/libc/newlib/libc/search/qsort.c:180-345 | for every length and every total preorder: sorted and a permutation |
| `PinDevice.TokenState.Observe` | fido2/src/ctap_client_pin.c:1202-1239 | a token older than 10 minutes or unused for 30 s is gone; otherwise its timer restarts |
| `PinDevice.TokenState.Begin` | fido2/src/ctap_client_pin.c:1181-1200 | a token in use, verified, with the permissions and relying party given |
| `PinDevice.TokenState.Spend` | fido2/src/ctap_client_pin.c:1262-1291 | nothing usable remains of a token in use |
| `PinDevice.Authenticator.DecrementPinAttempts` | fido2/src/ctap_client_pin.c:590-608 | both counters fall by one where they are positive |
| `PinDevice.Authenticator.PinMatched` | fido2/src/ctap_client_pin.c:995-1003 | counters start again unless the persistent one is full, and both tokens are gone |
| `PinDevice.Authenticator.AddEncPinUvAuthToken` | fido2/src/ctap_client_pin.c:501-559 | a right PIN issues the one token in use, a wrong one costs an attempt |
| `PinDevice.Authenticator.UpdatePinIfVerified` | fido2/src/ctap_client_pin.c:1058-1161 | a PIN is set or changed only after MAC, policy and, for a change, the old PIN |
| `PinDevice.Authenticator.ClientPinCommand` | fido2/src/ctap_client_pin.c:99-366 | the lock and permission checks of each subcommand |
| `PinDevice.Authenticator.VerifyAuth` | fido2/src/ctap_client_pin.c:465-483 | accepts only a matching MAC under a token that is still in use |
| `PinDevice.Authenticator.Authorise` | fido2/src/ctap_make_credential.c:65-109 | verification, permission and relying party of the token |
| `PinDevice.Authenticator.MakeCredentialCommand` | fido2/src/ctap_make_credential.c:51-187 | makeCredential authorises and uses up the token as specified |
| `PinDevice.Authenticator.GetAssertionCommand` | fido2/src/ctap_get_assertion.c:47-206 | getAssertion does so only with user presence, and saves the credentials it did not use |
| `PinDevice.Authenticator.ManagementCommand` | fido2/src/ctap_credential_management.c:927-967 | credential management needs its own permission and uses nothing up; an empty parameter is refused |
| `PinDevice.Authenticator.NextAssertionCommand` | fido2/src/ctap_get_next_assertion.c:18-88 | getNextAssertion takes the next saved credential, even if it fails after that |
| `PinDevice.Authenticator.Reset` | fido2/src/ctap_reset.c:16-37 | within 10 s and with user presence: attempts, PIN and tokens, but not the attempts of this power cycle |
| `PinDevice.Authenticator.Handle` | fido2/src/ctap.c:548-683 | every command of ctap_request, with its record in lastcmd, and every reboot is a step of the state machine |
| `PinDevice.Play` | fido2/src/ctap.c:548-670 | whatever a new device is sent, what it does is a run of the state machine |
| `PinLaws.ComparedIff` | fido2/src/ctap_client_pin.c:122-366 | in every run, by request and counters alone: when a PIN is compared; a token is issued, a PIN changed or an attempt lost exactly then, as it matches |
| `PinLaws.OnlyToken` | fido2/src/ctap_client_pin.c:501-559 | the issued token has the permissions and relying party asked for and is the only one; a changed PIN, a reset and a reboot leave none |
| `PinLaws.PinSetIff` | fido2/src/ctap_client_pin.c:196-220 | a PIN is set exactly by a complete setPIN with right MAC and a good PIN while there is none, and unset exactly by a reset |
| `PinLaws.ResetIff` | fido2/src/ctap_reset.c:16-37 | a reset happens exactly on a factory reset with user presence within ten seconds; what it and a reboot leave |
| `PinLaws.SucceedsIff` | fido2/src/ctap_make_credential.c:51-187 | makeCredential, getAssertion and credential management succeed exactly with neither lock, all parameters and, where one is needed, a right parameter under a token in time, with the permission and for the relying party |
| `PinLaws.QueriesSucceed` | fido2/src/ctap.c:548-670 | when the other commands succeed |
| `PinLaws.TokenAfter` | fido2/src/ctap_client_pin.c:1181-1291 | what any command makes of a token: expiry at a check, a new last use, and use up as soon as the authenticator data is made |
| `PinLaws.StillGood` | fido2/src/ctap_client_pin.c:1202-1239 | a token that nothing ends or uses up is as it was issued |
| `PinLaws.FreshTokenServes` | fido2/src/ctap_make_credential.c:65-109 | with such a token, in time and granted for it, makeCredential and getAssertion succeed |
| `PinRuns.AlwaysSound` | fido2/src/ctap_client_pin.c:537-545 | in every run at most one token is in use, only with a PIN set, and the counters stay in range |
| `PinRuns.CountersAreExact` | fido2/src/ctap_client_pin.c:590-608 | in every run remaining_tries + wrong PINs since the last right one or reset = 8, and likewise 3 for the power cycle |
| `PinRuns.RefillsIff` | fido2/src/ctap_client_pin.c:995-1003 | in every run a right PIN leaves all attempts of the power cycle if and only if the persistent counter was not full, or none was missing |
| `PinRuns.NotRefilled` | fido2/src/ctap_client_pin.c:995-1003 | a run in which a right PIN after a reset leaves only two of them |
| `PinRuns.AtMostThreePerBoot` | fido2/src/ctap_client_pin.c:518-536 | at most three wrong PINs per power cycle without a right one between them |
| `PinRuns.AtMostEight` | fido2/src/ctap_client_pin.c:226-231 | at most eight without a right one or a reset, over any number of reboots |
| `PinRuns.LockedUntilReset` | fido2/src/ctap.c:567-581 | a locked device stays locked until a reset: no comparison, no token, no authorised command; only queries succeed, and getNextAssertion at most as often as credentials were left |
| `PinRuns.FurtherIsExact` | fido2/src/ctap_get_assertion.c:599-623 | in every run count − index is what is left of the credentials that the last successful getAssertion saved |
| `PinRuns.NextAssertionIff` | fido2/src/ctap.c:628-647 | in every run getNextAssertion succeeds if and only if one is left and the command before it was a getAssertion, refused or not, or a successful getNextAssertion |
| `PinRuns.FetchedFrom` | fido2/src/ctap_get_next_assertion.c:80-88 | each such success goes back to a successful getAssertion of the same power cycle, with no reset since, and that yields no more than it saved |
| `PinRuns.LockedYetFetches` | fido2/src/ctap.c:567-581 | a run in which a locked device still returns an assertion |
| `PinRuns.TokenOrigin` | fido2/src/ctap_client_pin.c:1181-1239 | a token in use goes back to the event that issued it and to its last check, with the permissions granted then |
| `PinRuns.AcceptedIsFresh` | fido2/src/ctap_client_pin.c:465-483 | every accepted pinUvAuthParam, whatever becomes of its command, comes within 10 minutes of the issue of its token and 30 s of its last check, in the same power cycle |
| `PinRuns.AuthorisedIsGranted` | fido2/src/ctap_make_credential.c:65-109 | whatever a token authorises, it was issued with the permission needed and for the relying party that the request names |
| `PinRuns.ActsAsGrantedIff` | fido2/src/ctap_credential_management.c:927-967 | the command acts on the relying party of the token if and only if that is the one it names, or the token is for none in particular |
| `PinRuns.NamesWhatItActsOn` | fido2/src/ctap_credential_management.c:936-963 | makeCredential, getAssertion and the listing of credentials always act on the one they name |
| `PinRuns.OtherOwner` | fido2/src/ctap_credential_management.c:197-221 | a run in which a token for one relying party lets a command act on a credential of another |
| `PinRuns.AuthorisedIff` | fido2/src/ctap_make_credential.c:65-109 | in every run a successful makeCredential was authorised by a token if and only if a PIN was set; likewise for the other commands |
| `PinRuns.ReliesOnSome` | fido2/src/ctap_make_credential.c:65-109 | each successful makeCredential with a PIN set, or getAssertion with user presence and a pinUvAuthParam, relies on an issued token |
| `PinRuns.LaterToken` | fido2/src/ctap_make_credential.c:184-187 | the token that a later one relies on was issued after the earlier one |
| `PinRuns.OneUsePerToken` | fido2/src/ctap_get_assertion.c:156-163 | no two of them rely on the same token |
| `PinRuns.UnprotectedWithoutPin` | fido2/src/ctap_make_credential.c:65-88 | without a PIN the promise does not hold: makeCredential needs no token |
| `RkFiles.KeysLieInTheirFiles` | targets/tkey/src/device.c:292-296 | the files of different nibbles share no key, and there are as many keys as records |
| `RkFiles.KeysAreTheTable` | targets/tkey/src/device.c:494-515 | a key is present in the files exactly if the table has an entry |
| `RkStore.Store.OverwriteRk` | targets/tkey/src/device.c:329-398 | the table gets the entry, whether it replaces one or is appended, and the count follows |
| `RkStore.ShiftDown` | targets/tkey/src/device.c:437-481 | rewriting ten records at a time and truncating removes exactly one record, for any file length |
| `RkStore.Store.DeleteRk` | targets/tkey/src/device.c:400-489 | one entry named by relying party and tag is gone, or nothing changes if there is none |
| `RkStore.Store.Create` | fido2/src/ctap.c:467-508 | refused exactly if 200 keys are stored, even if one would be replaced |
| `RkStore.Store.UpdateUser` | fido2/src/ctap_credential_management.c:877-925 | replaces exactly the entry named, if the user id passes, and never adds one |
| `RkStore.AgreesIff` | fido2/src/ctap_credential_management.c:899-902 | an id passes if and only if it starts with the stored one or lacks only zeros at its end |
| `RkStore.LongerAgrees` | fido2/src/ctap_credential_management.c:899-902 | a longer id that passes |
| `RkStore.Store.Reset` | fido2/src/ctap.c:743-757 | no key is left |
| `RkStore.Store.CountsTheTable` | fido2/src/ctap.c:317-321 | rk_stored is the number of entries of the table |
| `RkStore.Perform` | targets/tkey/src/device.c:292-489 | after any sequence of create, update, delete and reset the files hold exactly the entries of the map that these make, one after the other, of the empty one; count = records = entries ≤ 200; file f holds the lookups that start with nibble f |
| `RkStore.AppliedIsFunctional` | targets/tkey/src/device.c:400-437 | where no two entries share relying party and tag, there is only one such map |
| `RkLists.MatchingIsExact` | fido2/src/ctap_credential_management.c:722-765 | the list of a relying party has each of its credentials as often as the file has it |
| `RkLists.NoRepeats` | targets/tkey/src/device.c:329-398 | and a well-formed file has none twice |
| `RkLists.MatchingIsTheTable` | fido2/src/ctap_credential_management.c:719-765 | so the list has each stored credential of the relying party whose count is neither 0 nor 0xffffffff once, and nothing else |
| `RkLists.ListedDistinct` | fido2/src/ctap_credential_management.c:769-838 | no relying party is listed twice, in one file or in two |
| `RkLists.CompleteIffFewPerFile` | fido2/src/ctap_credential_management.c:816-826 | every relying party is listed if and only if no file has more than fifty |
| `RkLists.FirstsCount` | fido2/src/ctap_credential_management.c:769-838 | one record for each different first eight bytes of a lookup |
| `RkLists.FiftyFirstForgotten` | fido2/src/ctap_credential_management.c:816-826 | a store of 51 keys whose list is not complete |
| `RkEnumeration.Enumeration.CheckState` | fido2/src/ctap_credential_management.c:380-422 | get-next continues only the enumeration that was begun, within 30 s |
| `RkEnumeration.Enumeration.CredentialsNext` | fido2/src/ctap_credential_management.c:170-195 | succeeds only after the matching begin and within 30 s, and exactly if something is left; otherwise the state is cleared |
| `RkEnumeration.Enumeration.RpsNext` | fido2/src/ctap_credential_management.c:121-142 | the same for relying parties |
| `RkEnumeration.Enumeration.ScanRk` | fido2/src/ctap_credential_management.c:722-765 | counts all that is left, or takes the first of it; the 8-bit index does not wrap |
| `RkEnumeration.Enumeration.ScanFileUniqueRp` | fido2/src/ctap_credential_management.c:769-838 | the first fifty relying parties of a file |
| `RkEnumeration.Enumeration.ScanFilesUniqueRp` | fido2/src/ctap_credential_management.c:843-875 | the number of all that will be listed, and the list of the first file that has any |
| `RkEnumeration.Enumeration.NextUniqueRp` | fido2/src/ctap_credential_management.c:467-515 | takes the first of what is left, going on to later files |
| `RkEnumeration.EnumerateCredentials` | fido2/src/ctap_credential_management.c:144-195 | begin and get-next at any times: the credentials of a relying party in order, as many as announced, up to the first gap above 30 s; without one, each that is stored exactly once |
| `RkEnumeration.EnumerateRps` | fido2/src/ctap_credential_management.c:101-142 | the same for relying parties: none twice, and without such a gap none missing if and only if no file has more than fifty |
| `HidWriter.WriteBuffer.WriteByte` | fido2/src/ctaphid.c:263-285 | after every byte the packets sent and the open one are the beginning of the framing |
| `HidWriter.WriteBuffer.Flush` | fido2/src/ctaphid.c:245-261 | the last packet is filled with zeros; an empty message still gets a header |
| `HidWriter.SendMessage` | fido2/src/ctaphid.c:242-286 | however a message is split across calls: each packet starts with the channel, the first has command and length, high byte first, the others count from 0, and they carry the message filled up with zeros |
| `HidReceiver.Receiver.BufferInit` | fido2/src/ctaphid.c:161-171 | an initialisation packet starts a message |
| `HidReceiver.Receiver.BufferCont` | fido2/src/ctaphid.c:172-202 | a continuation with the right number adds its payload, cut to the length |
| `HidReceiver.Receiver.AddCid` | fido2/src/ctaphid.c:94-106 | a channel is added exactly if one of the nine places is free |
| `HidReceiver.Receiver.SetBusy` | fido2/src/ctaphid.c:119-142 | refreshing or freeing a channel sets the flag of its entry and nothing else |
| `HidReceiver.Receiver.BufferPacket` | fido2/src/ctaphid.c:352-493 | each case has its outcome: an INIT packet, the broadcast channel, a stray continuation, a start that is blocked, repeated or too long, and the packets that start or extend a message |
| `HidReceiver.Receiver.EveryPacket` | fido2/src/ctaphid.c:352-493 | there is no other case |
| `HidReceiver.Receiver.Init` | fido2/src/ctaphid.c:371-411 | an INIT packet empties the buffer and keeps its channel exactly if there is room; malformed ones change nothing |
| `HidReceiver.Receiver.HandlePacket` | fido2/src/ctaphid.c:504-663 | the same with what follows: an error clears the busy flag of the channel, a sequence error also the buffer, a complete message both, except an empty CBOR or MSG, which leaves the flag |
| `HidTransfer.Deliver` | fido2/src/ctaphid.c:352-493 | the packets of a message of 1 to 1344 bytes, with any packets of other channels between them, yield exactly the message |
| `HidTransfer.Transfer` | fido2/src/ctaphid.c:242-286 | sender and receiver together, for every splitting of the message |
| `Blockwise.Accumulator.Accumulate` | crypto/cifra/src/blockwise.c:32-98 | the input continues the data in whole blocks, however it is cut; the callback for the last block gets it exactly if the data ends with it; the assertions hold |
| `Blockwise.Accumulator.AccByte` | crypto/cifra/src/blockwise.c:130-160 | the same as accumulating the byte n times, although a block is filled only once |
| `Blockwise.Accumulator.AccPad` | crypto/cifra/src/blockwise.c:162-195 | first, middle and last bytes, also for one and two bytes |
| `Sha512.DigestFinal` | crypto/cifra/src/sha512.c:185-206 | the padding ends a block, so nothing is left in the buffer; the length field is that of the 32-bit block count |
| `Sha512.StandardIffCounted` | crypto/cifra/src/sha512.c:187-203 | the padding is that of FIPS 180-4 if and only if the block count has not wrapped |
| `Sha512.Hash` | crypto/cifra/src/sha512.c:153-206 | for every cutting of a message below 2^39 bytes the compression function gets the blocks of the padded message |
| `Sha256.Context.Update` | crypto/sha256/sha256.c:102-115 | the input continues the data |
| `Sha256.Context.Final` | crypto/sha256/sha256.c:117-147 | padding and bit length complete the last one or two blocks |
| `Sha256.Hash` | crypto/sha256/sha256.c:102-147 | for every cutting of a message below 2^64 bits the compression function gets the blocks of the padded message |

## Left out

- VliMult.Mult: the assembly forms of the multiplication, the square and their accumulators.
- Ladder.PointMult: the curve formulas behind the group operations and the recovery of the z coordinate are in files that are not part of this model; `XYcZ_add`, `XYcZ_addC` and `apply_z` are operations of an abstract commutative group.
- Ecdsa.SignWithK: r is the x coordinate as the source stores it, not reduced modulo n; key generation, verification and the deterministic nonce are not modelled.
- CborParse.CborValue.PreparseValue: floats, tags, and simple values other than booleans are stepped over, their values are not read.
- CborEncode.CborEncoder.EncodeString: the pointers into the caller's memory are sequences of bytes.
- StateCbor.DecodeState: after an ignored parser error the outcome is left open.
- StateCbor.ReadState: what lies behind the file when its size has wrapped.
- QsortRun.Sort: element size, alignment and the choice of the swap routine; elements are moved whole.
- PinDevice.Authenticator.ClientPinCommand: all error codes are one outcome, parsing decides what is complete; key agreement and encryption are not modelled.
- PinDevice.Authenticator.AddEncPinUvAuthToken: the token's secret bytes; a lock wipes them while the token stays formally in use, which the lock checks make harmless.
- PinDevice.Authenticator.NextAssertionCommand: how many credentials are kept, not which; the assertion itself is not built.
- RkStore.Store.OverwriteRk: encryption and MAC of the records; `ctap_store_rk` has no caller.
- RkEnumeration.Enumeration.ScanFileUniqueRp: the branch for a file of more than 200 records cannot be reached with a store of at most 200.
- HidReceiver.Receiver.Init: the number of a new channel is an input, and the answer is not built; CTAPHID_INIT resets the buffer and so is not among the interleaved packets.
- HidReceiver.Receiver.HandlePacket: channel timeouts, the commands behind a complete message, and `is_busy`, which is only met by a message that arrives while a command is at work.
- Sha512.Hash: the compression function, SHA-384, and the copy that `cf_sha512_digest` makes.
- Sha256.Context.Final: the compression function and the byte order of the digest.
- AES, HMAC and HKDF, Ed25519, littlefs, USB, LED, touch and random numbers: input and output, or primitives that the models above take as given.
- U2F, `apdu_decode`, the contents of getInfo, the extensions, version comparison, logging and the host tools: they would only add easy members.
- The order of credentials in getAssertion: it is a comparison function for `qsort`, which is proved for all of them.
