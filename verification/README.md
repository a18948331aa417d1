# An SRAM PUF key on an ESP32, proved

A board derives its key from the start-up values of its own SRAM. At enrolment a
provisioner picks 1020 cells that read the same in every training dump, hides the
response `w` behind random codewords of a BCH(255, 179, t = 10) code (the code-offset
fuzzy extractor) and signs the result as helper data. At every power-up the board reads
the cells again, decodes away the noise and hashes the recovered `w`. The board then
sends sensor readings under AES-GCM with a sequence number as nonce.

The decoder exists twice: a reference program on lists and big integers
(`host/fuzzy.py`) and a port with fixed arrays that corrects in place
(`main/fuzzy.c`). This project models both, the helper data format, the selection of
cells, the power-up path and the data session, and proves what they promise.

## Layout

| file | contents |
|---|---|
| `Bits.dfy`, `Gf.dfy`, `Poly.dfy`, `BinPoly.dfy` | words as numbers, GF(2^8), polynomials over it, binary polynomials in integers |
| `Massey.dfy` | Berlekamp-Massey for any syndrome sequence: invariant and minimality |
| `Locator.dfy` | power sums, error locators, registers that split |
| `Bch.dfy` | words, syndromes, minimum distance, the decoder step by step and exact decoding |
| `Generator.dfy` | cyclotomic cosets, minimal polynomials, the generator, systematic encoding |
| `Tables.dfy` | the antilog and log tables, filled by the loop both programs use |
| `FuzzyC.dfy`, `FuzzyPy.dfy` | the two decoders as written, each proved against `Bch.dfy` |
| `Packing.dfy`, `Response.dfy` | packed bits, cell extraction and in-place reconstruction on the board |
| `Extractor.dfy` | enrolment and reconstruction in the reference program; the board refines it |
| `HelperFormat.dfy`, `Mask.dfy`, `Boot.dfy` | helper data format, stable cells, power-up, and the path from training dumps to key |
| `LineText.dfy` | hex and the printed data line, and how both are read back |
| `Session.dfy` | sequence numbers over an unreliable channel with an ideal cipher |

## How the proof goes

* The field laws come from the order of alpha (255, decided by a few of its powers), the
  pigeonhole principle for logarithms, and the linearity of "multiply by alpha".
* Berlekamp-Massey is proved correct and minimal for every sequence of field elements;
  minimality is Massey's length-change bound, obtained from a double sum that is
  symmetric in the two registers.
* Syndromes are power sums over the error locators. Consecutive power sums determine
  their weights (elimination of one locator at a time); a register acts on a power sum
  by its value at the inverse locators. So up to ten errors the shortest register is the
  locator polynomial, and 20 zero syndromes force weight 0 or at least 21.
* A shortest register of length at most ten that splits over the positions explains the
  syndromes as a power sum; because the word is binary, S_2j = S_j^2 forces all weights
  to 1. So the final check of the decoder can never fail.
* Squaring permutes the roots of a minimal polynomial, so its coefficients are binary;
  a binary polynomial that vanishes at alpha^j vanishes at every conjugate. So "all
  syndromes zero" and "divisible by the generator" are the same test.
* A block is decoded on its own; everything from the extractor upward is stated block by
  block and then for whole buffers.

Two statements of the repository's own documentation are false of the code, and the code
is followed. `main/fuzzy.h:30-31` says that `w` is the enrolled response whenever
`fuzzy_reproduce` returns 0: with more than ten flips in a block another codeword can be
nearer, and `BoardMiscorrects` gives such a response with no error reported;
`RecoversExactly` says when the response is recovered. The repository's `README.md:81`
speaks of majority voting: `build_mask` instead keeps the cells that never change over
the training dumps. A data line whose number is not a hexadecimal value, or is negative,
does not end as a rejected line: the exception leaves `receive_data` and the connection
ends, so genuine lines behind it are lost (`BreakingLineLosesReading`); `AcceptsExactly`
has that as its condition. `BoardVersusParser` records a difference between the two readers of
the helper data: the firmware checks neither the version nor that there are four blocks
(`BoardIgnoresVersion`, `BoardIgnoresBlocks`).

## Model

| member | source | states |
|---|---|---|
| Tables.GfTables.Init | main/fuzzy.c:20-34 | One pass fills EXP with all powers of alpha, doubled, and LOG with the unique exponent below 255 of every nonzero byte. |
| Tables.GfTables.GfMul | main/fuzzy.c:36-42 | The table lookup is the product through logarithms, zero included. |
| BinPoly.MulIsProduct | main/fuzzy.c:28-31 | That product is the product of polynomials modulo x^8 + x^4 + x^3 + x^2 + 1. |
| FuzzyPy.LookupIsProduct | host/fuzzy.py:26-29 | So gf_mul, read from the tables, is multiplication in GF(2^8) with polynomial 0x11D. |
| Tables.GfTables.GfDiv | main/fuzzy.c:44-50 | The table lookup is division for every nonzero divisor. |
| Tables.GfTables.PyDiv | host/fuzzy.py:31-34 | The same for the reference program, whose difference of logarithms may be negative. |
| Tables.GfTables.PowerAt | main/fuzzy.c:74 | The entry at i j mod 255 is the j-th power of alpha^i. |
| Gf.Order | host/fuzzy.py:15-20 | Among the powers up to 255, alpha^k = 1 exactly for k = 255, so the table loop meets no byte twice. |
| Gf.LogExists | host/fuzzy.py:15-20 | Every nonzero byte is a power of alpha below the 255th: LOG has an entry for each. |
| Gf.Distributes | main/fuzzy.c:36-42 | Multiplication through logarithms distributes over exclusive or. |
| Gf.MulAssoc | main/fuzzy.c:36-42 | Multiplication through logarithms is associative. |
| Gf.MulDiv | main/fuzzy.c:44-50 | Multiplying by the divisor undoes division. |
| FuzzyC.SyndromesC | main/fuzzy.c:67-83 | Fills synd with r(alpha^j), j = 1 to 20, and tells exactly whether all are zero. |
| FuzzyPy.SyndromesPy | host/fuzzy.py:91-100 | The same values from the bits of an integer. |
| Massey.LengthChange | main/fuzzy.c:131-136 | If a register of length L fails on the next syndrome, every register that predicts it has length at least n + 1 - L. |
| Massey.StepKeeps | main/fuzzy.c:102-140 | One turn of the loop keeps the recurrence, the facts about the previous register, the bounds prev_len + shift + L <= n + 2 and lam_len <= L + 1, and minimality. |
| Massey.RunCorrect | main/fuzzy.c:102-140 | After n syndromes of any sequence of any length the register generates them and no shorter one does. |
| FuzzyC.MasseyStep | main/fuzzy.c:102-140 | One turn on the fixed arrays is one step of the state machine; the work arrays never overflow and cells beyond the polynomial stay zero. |
| FuzzyC.BerlekampMasseyC | main/fuzzy.c:90-147 | The arrays end up holding the shortest register; -1 is never returned and the final truncation drops nothing. |
| FuzzyPy.BerlekampMasseyPy | host/fuzzy.py:103-124 | The growing lists give the same register and length; the final slice drops nothing. |
| Locator.ShortestIsSigma | main/fuzzy.c:85-89 | The shortest register for v locators with nonzero weights and 2 v syndromes has length v and is the locator polynomial. |
| Locator.SplittingRegister | main/fuzzy.c:185-187 | A register with as many distinct inverse roots as its length writes the whole sequence as a power sum over them. |
| Locator.BinaryWeights | main/fuzzy.c:193-197 | With S_2j = S_j^2 all nonzero weights of such a power sum are 1. |
| Poly.TooManyRoots | main/fuzzy.c:171-184 | A polynomial with as many different roots as coefficients is zero. |
| Bch.RootBound | main/fuzzy.c:171-184 | The search never finds more roots than the register is long. |
| Bch.LocatesErrors | main/fuzzy.c:166-187 | For every codeword and at most ten errors: L is their number, lam the product of 1 - alpha^p x over them, the roots found exactly their positions. |
| FuzzyC.ChienC | main/fuzzy.c:171-184 | pos receives exactly the positions where lam vanishes, ascending, at most L; the exit for too many is not taken. |
| FuzzyPy.ChienPy | host/fuzzy.py:136-144 | The running-power evaluation finds the same positions. |
| FuzzyC.FlipErrors | main/fuzzy.c:189-191 | Flips exactly the listed positions of the block. |
| Bch.RecheckPasses | main/fuzzy.c:185-198 | Once as many roots as the register is long are found, at most ten, the corrected word has no nonzero syndrome. |
| Bch.MinimumDistance | main/fuzzy.c:67-83 | Two different words without nonzero syndromes differ in at least 21 positions. |
| Bch.UniqueCodeword | host/fuzzy.py:127-151 | At most one codeword lies within ten of any word. |
| Bch.DecodeExact | main/fuzzy.c:154-204 | Decoding succeeds if and only if some codeword lies within ten of the word, and the result is that codeword. |
| Bch.DecodeSound | main/fuzzy.c:149-153 | On success the result is a codeword, the positions are where it differs, and their number is the distance. |
| FuzzyC.LocateAndFlip | main/fuzzy.c:171-198 | Search, correction and final check from a register of length at most ten. |
| FuzzyC.BchDecodeC | main/fuzzy.c:154-204 | The in-place decoder reports the outcome of the word decoder and leaves an undecodable block as it was. |
| FuzzyC.ReportMeaning | main/fuzzy.c:149-154 | The caller's view: at least 0 exactly within ten of a codeword, then r is that codeword, the value the exact distance and pos the ascending differences; otherwise -1 and r unchanged. |
| FuzzyPy.CorrectPy | host/fuzzy.py:147-151 | Flips the listed bits of the integer and accepts exactly when the generator divides the result; on a block, exactly the codewords. |
| FuzzyPy.BchDecodePy | host/fuzzy.py:127-151 | For every integer: the corrected integer and the count, or None. On a block it is the outcome of the word decoder; bits beyond it stay, and only the final division sees them. |
| FuzzyPy.DecodeIntExactly | host/fuzzy.py:127-151 | For integers of any length: decoded if and only if the low 255 bits are within ten of a codeword and either are one or the generator divides the bits above; the result keeps the bits above, has a codeword below, and the count is the distance. |
| FuzzyPy.SameVerdict | main/fuzzy.c:149-204 | On every block the two decoders agree on verdict, count and corrected word. |
| BinPoly.PolyMul | host/fuzzy.py:36-44 | The loop computes the carry-less product. |
| BinPoly.ValueProduct | host/fuzzy.py:36-44 | The value of the product at any field element is the product of the values. |
| BinPoly.PolyMod | host/fuzzy.py:46-51 | The loop computes the remainder; the number falls at every turn, so it ends. |
| BinPoly.DivisionStep | host/fuzzy.py:49-50 | Subtracting the aligned divisor clears the leading bit. |
| BinPoly.DivisionLaw | host/fuzzy.py:46-51 | The remainder is congruent to the dividend and shorter than the divisor. |
| Generator.ConjugatesSymmetric | host/fuzzy.py:55-59 | Cosets of exponents under doubling modulo 255 are equal or disjoint. |
| FuzzyPy.CosetOf | host/fuzzy.py:55-59 | The loop lists the whole coset once, as a cycle of at most eight exponents. |
| FuzzyPy.TimesRootLoop | host/fuzzy.py:61-67 | One pass multiplies the coefficient list by x + root. |
| Generator.CycleIsBinary | host/fuzzy.py:68 | The assertion that the coefficients are 0 or 1 holds for every coset. |
| FuzzyPy.MinimalPoly | host/fuzzy.py:53-69 | Returns the coset and the binary polynomial whose roots are its powers. |
| FuzzyPy.GeneratorPoly | host/fuzzy.py:71-83 | The product over the distinct cosets is monic of degree the number of zeros, vanishes at each of them, and leaves 179 message bits. |
| Generator.GeneratorUnique | host/fuzzy.py:71-81 | Degree and zeros determine the generator. |
| Generator.MessageBitsIs179 | host/fuzzy.py:82-83 | The assertion K == 179 holds. |
| Generator.ConjugateRoots | main/fuzzy.c:193-194 | A binary polynomial that vanishes at alpha^j vanishes at every conjugate. |
| Generator.SyndromeTest | main/fuzzy.c:193-197 | All 20 syndromes of a word are zero if and only if the generator divides it. |
| FuzzyPy.BchEncode | host/fuzzy.py:85-88 | The result is a multiple of the generator, shifting its parity out gives the message back, and a message that fits gives a codeword of at most 255 bits. |
| Generator.EncodeCodeword | host/fuzzy.py:85-88 | Every message of at most 179 bits gives a word of at most 255 bits that the generator divides: a codeword. |
| Generator.EncodeTop | host/fuzzy.py:86-88 | The bits above the parity are the message. |
| Generator.CodewordsAreEncodings | host/fuzzy.py:85-88 | The words without nonzero syndromes are exactly the encodings of messages of at most 179 bits. |
| Generator.EncodeInjective | host/fuzzy.py:85-88 | Different messages give different codewords. |
| Generator.EncodeLinear | host/fuzzy.py:85-88 | Encoding turns exclusive or of messages into exclusive or of codewords. |
| Generator.IntRoundTrip | host/fuzzy.py:153-162 | int_to_bits undoes bits_to_int. |
| Generator.BitsRoundTrip | host/fuzzy.py:153-162 | bits_to_int undoes int_to_bits for integers that fit. |
| Extractor.BitsToInt | host/fuzzy.py:153-158 | Bit i of the integer is element i of the list, and no other bit is set. |
| Packing.PackBits | host/fuzzy.py:165-171 | The loop gives the packed form. |
| Packing.Pack | host/fuzzy.py:165-171 | The packed form holds the bits in order, most significant first, then zeros to the last byte. |
| Packing.UnpackInjective | main/fuzzy.c:54-57 | A buffer is determined by its bits. |
| Packing.PackInjective | host/fuzzy.py:165-171 | Bit lists of one length are determined by their packed form. |
| Response.FlipBit | main/fuzzy.c:59-62 | Changes exactly one bit of the packed buffer. |
| Response.SelectIsRank | main/puf.c:15-23 | Output bit j is the snapshot bit at the j-th set mask bit. |
| Response.PufExtract | main/puf.c:9-25 | Returns 0 if and only if the mask has enough ones; the buffer holds the selected bits in order and zeros after them, and nothing beyond it changes. |
| Mask.ExtractedIsPacked | main/puf.c:9-25 | The buffer is pack_bits of the dump's bits at the mask's cells, cut to n_bits. |
| Response.LoadBlock | main/fuzzy.c:217-219 | r receives block b of w' XOR W, one bit per byte. |
| Response.ReproduceBlock | main/fuzzy.c:214-232 | Block b is repaired in place or left alone; every other bit of the buffer is unchanged. |
| Response.FuzzyReproduce | main/fuzzy.c:208-236 | Every block is repaired on its own, failed ones and all bits from 255 * blocks on are untouched, errs reports each, and -1 is returned exactly when some block failed. |
| Response.BlockFate | main/fuzzy.c:221-231 | A block fails, unchanged and reported -1, exactly when no codeword lies within ten; otherwise it changes in exactly the reported number of bits and hides a codeword. |
| Response.Recovers | main/fuzzy.h:27-38 | If W hides w behind codewords and w' is within ten in every block, w' becomes w, bits beyond the blocks stay, and errs holds the exact distances. |
| Extractor.Generate | host/fuzzy.py:181-189 | For any messages: block XOR helper integer is a multiple of the generator of at most 255 bits with the block's message above the parity, and the key is the hash of the one buffer that holds w in order and then zeros. |
| Extractor.DeriveKey | host/fuzzy.py:176-178 | The key is the hash of every buffer that is the packed form of w. |
| Extractor.OffsetIsCodeword | host/fuzzy.py:185-188 | Block and helper integer differ by a codeword, and the integer has at most 255 bits. |
| Extractor.OffsetHidesMessage | host/fuzzy.py:185-188 | The codeword hidden in a block is that of the block's own message. |
| Extractor.ReproduceOne | host/fuzzy.py:199-205 | One turn of the loop, for a slice of any length and any helper integer: the count and the repaired bits of the block. |
| Extractor.Reproduce | host/fuzzy.py:192-206 | For a response of any length and any helper integers: the count of every block; no key exactly when a block failed; otherwise the hash of the packed repaired response; and within ten per block of an enrolled response exactly the enrolled key. |
| Extractor.ReproduceRecovers | host/fuzzy.py:192-206 | Every response within ten per block of the enrolled one gives the enrolled bits and the exact counts, for every choice of messages. |
| Extractor.RecoversExactly | host/fuzzy.py:192-206 | The enrolled response is recovered if and only if the noisy one is within ten of it in every block. |
| Extractor.FailsExactly | host/fuzzy.py:199-206 | For any helper integers, reconstruction fails if and only if some block is further than ten from every codeword, or is not itself a codeword and its helper integer has bits from 255 up that the generator does not divide. |
| Extractor.FittingFailsExactly | host/fuzzy.py:199-206 | With helper integers of at most 255 bits it fails if and only if some block is further than ten from every codeword. |
| Extractor.OverlongHelperFails | host/fuzzy.py:199-206 | With the helper integer 2^255 a block one bit from a codeword fails. |
| Extractor.SilentMiscorrection | host/fuzzy.py:192-206 | A response moved by a codeword is reported with no error and gives other bits than the enrolled ones. |
| Extractor.BoardMiscorrects | main/fuzzy.h:27-38 | On that response fuzzy_reproduce returns 0 with every entry of errs 0 and leaves the buffer as it was, which is not packed w. |
| Extractor.BoardAgrees | main/fuzzy.c:208-236 | For every response and any helper integers the buffer holds the bits the reference hashes, and the counts agree except where the reference's division fails on helper bits from 255 up; with integers of at most 255 bits counts and failures are the same. |
| Extractor.BoardRecovers | main/fuzzy.c:208-236 | Within ten per block the buffer becomes exactly packed w, padding included, and errs holds each block's distance. |
| HelperFormat.Build | host/helperdata.py:45-57 | Fails exactly for a cell outside [-region_bits, region_bits); otherwise mask bit i is set exactly for a cell given as i or counted from the end, W holds the blocks in order, and every other field is as the class declares it. |
| HelperFormat.BuildRoundTrip | host/helperdata.py:120-128 | cells and helper_ints give back what build was given if and only if the cells ascend and there are four integers of at most 255 bits. |
| HelperFormat.CellsExactly | host/helperdata.py:120-122 | For any helper data cells ascends and lists exactly the set bits of the mask. |
| HelperFormat.HelperIntsExactly | host/helperdata.py:124-128 | For any helper data bit i of integer b is bit b n + i of W, as far as n and the bytes reach. |
| HelperFormat.Layout | host/helperdata.py:61-69 | The offset of every field in the serialized form. |
| HelperFormat.PayloadIsAllButSignature | host/helperdata.py:61-69 | The signed bytes are the serialized form without the signature: header, mask and W, with the offset of every header field. |
| HelperFormat.ParseSerialized | host/helperdata.py:71-95 | from_bytes undoes to_bytes for every well-formed value. |
| HelperFormat.SerializeParsed | host/helperdata.py:71-95 | Everything from_bytes accepts is well formed, and to_bytes gives the same bytes back. |
| HelperFormat.ParseAcceptsExactly | host/helperdata.py:71-95 | A byte string is accepted if and only if it is the serialized form of a well-formed value. |
| HelperFormat.ParseFailsExactly | host/helperdata.py:72-88 | The exact condition of each of the four errors of from_bytes, with the version and lengths it reports. |
| Mask.MaskCells | host/mask.py:30-39 | The chosen cells ascend, are stable, and skip no stable cell before the last. |
| Mask.StableCount | host/mask.py:33-36 | The reported number is the number of stable cells, and the failure happens exactly when it is below 1020. |
| Mask.TrainingReadsGolden | host/mask.py:37-39 | Every training dump reads the golden response in the chosen cells. |
| Boot.Le16Reads | main/boot.c:56 | The 16-bit read is the little-endian integer struct.unpack reads. |
| Boot.Le32Reads | main/boot.c:57-60 | The 32-bit read is the little-endian integer struct.unpack reads. |
| Boot.CountCells | main/boot.c:352-355 | Summing the population counts of the mask bytes counts the selected cells. |
| Boot.RebuildKey | main/boot.c:138-169 | Halts exactly when there are more than four blocks or too few cells; otherwise gives the packed form of the word that W hides behind codewords within ten per block of the cells read, or halts because in some block no codeword is within ten. |
| Boot.RebuildsOneWay | main/boot.c:138-169 | Those words determine the outcome: at most one word is behind W and near the response. |
| Boot.AppMain | main/boot.c:322-366 | For every blob, signature check, chip and snapshot the exact condition of every halt, in order of the checks; the response is decoded if and only if size, signature, magic, MAC, region, mask, code and blocks are all right; what is then rebuilt is stated as for RebuildKey. |
| Boot.ChecksExactly | main/boot.c:322-361 | Each check fails exactly on its condition and after all earlier ones have passed. |
| Boot.BoardReadsFields | main/boot.c:29-34 | For the 1024-byte region and 128 bytes of W, fixed offsets and shifts recover every serialized field, and the first 1173 bytes are the payload. |
| Boot.BootOfFields | main/boot.c:102-134 | The signature the board checks is on exactly the payload the provisioner signed: helper data for the board is rebuilt from if and only if it is verified. |
| Boot.BoardVersusParser | main/boot.c:333-362 | Of the helper data the board decodes, from_bytes accepts exactly those of version 1 with four blocks. |
| Boot.BoardIgnoresVersion | main/boot.c:333-362 | Enrolled data signed with version 2 is decoded by the board as that with version 1 and rejected by from_bytes. |
| Boot.BoardIgnoresBlocks | main/boot.c:340-362 | Data with three blocks and any 765 cells is decoded by the board and rejected by from_bytes for its length. |
| Boot.BoardFollowsReference | main/boot.c:138-169 | With enrolled helper data the board does with any snapshot what the reference does with the same cells, or halts if the signature is not verified. |
| Boot.EnrolToBoot | host/enroll.py:102-110 | From any training set build_mask accepts: a snapshot boots to the packed golden response if and only if it is within ten of it in every block. |
| Boot.EnrolledKeyBoots | host/enroll.py:102-110 | End to end, for any hash function: a snapshot within ten in every block boots to bytes whose hash is the key generate returned; any other snapshot does so only by a collision of the hash. |
| Boot.TrainingDumpBoots | host/enroll.py:102-110 | Every training dump boots to the packed golden response with zero errors in all four blocks. |
| Boot.BoardBootsMiscorrected | main/boot.c:157-165 | For every enrolment some snapshot boots to another key than the enrolled one. |
| Session.NonceInjective | main/crypto.c:185-190 | Different sequence numbers give different 12-byte nonces. |
| Session.AssociatedDataHolds | main/crypto.c:185-192 | Associated data is "data", the identifier and four bytes that read highest first give the number; the nonce is eight zero bytes and the same four. |
| Session.AssociatedDataInjective | main/crypto.c:188-192 | Equal associated data means the same identifier and the same number. |
| Session.Device.constructor | main/boot.c:288 | The sequence number starts at 1, nothing sealed yet. |
| Session.Device.SendTurn | main/boot.c:289-319 | One turn: nothing without a reading, a halt if sealing or sending fails, otherwise one message under a nonce the device never used before, then the next number, and a halt when it wraps. |
| Session.Device.SendData | main/boot.c:286-319 | Over any turns: all are run, unless one halts the device, which is exactly the last one run; the readings of the Send turns run, and nothing else, are sealed in order under the next numbers; each one sent gives its line; no nonce is used twice. |
| Session.Server.OpenData | host/server.py:110-136 | Accepts exactly the lines that open and are newer than the last accepted, with the reading that was opened; raises exactly on a number int refuses or a negative one with a ciphertext; otherwise changes nothing; what was accepted rises. |
| Session.Server.ReceiveData | host/server.py:102-108 | A connection starts at 0, opens every line in order of arrival until the first one that raises, and records what is accepted. |
| Session.ReceivedStep | host/server.py:105-136 | Line k, for every k: on a connection still read it adds one entry with the opened reading exactly when it opens and is newer, and ends the connection exactly when it raises; otherwise nothing changes. |
| Session.ConnectionIsReceived | host/server.py:102-108 | Over every run the connection is what receive_data makes of the lines delivered, each opened with the cipher as it stands on arrival. |
| Session.ReceivedRises | host/server.py:129-133 | Whatever the lines and whatever the cipher lets through, accepted numbers strictly rise. |
| Session.AlwaysSafe | main/boot.c:286-319 | Over every run of device, server and channel: the i-th message carries number i, and every accepted reading is the one sealed under its number. |
| Session.SealsExactly | main/boot.c:286-319 | In every reachable state: a reading is sealed exactly by a Send turn of a running device, under the next number, and the device halts exactly when sealing or sending fails or the numbers are used up. |
| Session.SealedInOrder | main/boot.c:286-319 | Over every run the messages under the session key are the readings of the Send turns up to the first that halts the device, in order, and the lines printed are those of the turns sent. |
| Session.NoncesNeverRepeat | main/boot.c:286-319 | Over every run no nonce is used twice under the session key and at most 2^32 - 1 messages are sealed (section 8.2.1 of NIST SP 800-38D). |
| Session.AcceptedInOrder | host/server.py:102-136 | Over every run with loss, repetition, reordering and alteration the accepted readings are a subsequence of the sealed ones, in order and without repeats. |
| Session.AliveExactly | host/server.py:105-121 | Over every run the connection is read exactly as long as no line delivered has raised. |
| Session.AcceptsExactly | host/server.py:105-136 | In every reachable state, for every line: accepted if and only if no earlier line has raised and it is an unaltered line of this session newer than the last accepted; a line that raises ends the connection; nothing else changes anything. |
| Session.BreakingLineLosesReading | host/server.py:105-121 | Over every run: any line that raises loses the genuine new line behind it, which is accepted without it. |
| Session.BrokenConnectionLosesReading | host/server.py:115-121 | Such lines exist: after DATA zzzzzzzz 00 or DATA -0000001 00 the first reading of a session is lost; without it, it arrives. |
| Session.OrderedDelivery | main/boot.c:286-319 | Completeness over every run in which no line breaks the connection and no message overtakes another: the server has exactly the readings of the messages that arrived, all of them once all have, whatever else arrived in between. |
| Session.PerfectChannel | main/boot.c:286-319 | For any readings up to the last number: over a channel that passes every line on, the server ends with exactly those readings in order. |
| LineText.FillHex | main/boot.c:181-186 | The buffer receives two lower-case digits a byte and a final NUL, and nothing beyond. |
| LineText.DigitsListed | main/boot.c:181-203 | The sixteen digits as written, and that exactly they and their upper-case forms are read, each with its value. |
| LineText.HexListed | main/boot.c:181-186 | The two digits of each byte, the upper half first. |
| LineText.ReadHex | main/boot.c:189-203 | Returns 0 exactly for the hex of len bytes and fills out with them; otherwise out is untouched. |
| LineText.HexRoundTrip | host/server.py:50-56 | Reading back printed bytes gives the bytes. |
| LineText.NumberRoundTrip | main/boot.c:313 | Reading back enough printed digits gives the number. |
| LineText.NumberIsHexOfBytes | main/boot.c:313 | The eight digits of a sequence number are the hex of its four bytes. |
| LineText.WordsOfSpread | host/server.py:112 | split gives back any words put apart by blanks, however many, with blanks around them. |
| LineText.PrintedLineParses | main/boot.c:310-313 | Every line the device prints is taken apart into the number and the bytes it was printed from. |
| LineText.ParsedLineOk | host/server.py:112-121 | A line is data exactly when its words are DATA, eight characters and one more; its number fits four bytes; it has bytes exactly when the last word is hex of even length. |

## Modelling choices

* Bytes are numbers below 256 and Python integers are natural numbers; exclusive or, or
  and shifts are defined on natural numbers. The only width that matters elsewhere, the
  32-bit sequence number, wraps explicitly.
* A buffer a C function writes is an array; a `const` buffer it only reads is a sequence.
  Loops inside a long C function are separate methods, called where the loop stands.
* The lists of the reference program are sequences the methods reassign.
* N, the number of blocks and the number of syndromes are symbolic in Berlekamp-Massey,
  packing, extraction and reconstruction, and 255, 10 and 4 where the tables, the format
  and the firmware fix them.
* The hash is a parameter, the random messages are a parameter, the signature check is a
  parameter (any function of payload and signature), and the cipher of the session is ideal: it opens exactly what
  was sealed under the same key, nonce and associated data. The ciphertext it returns is
  an arbitrary input, and so is every line the server receives.
* An exception of the reference program is an outcome of the method that raises it.
* A plaintext is a reading, as the device prints them: one that `split(",")` could not take
  apart, which would raise after it was accepted, is never sealed and cannot be expressed.
* `last_seq` starts again at 0 on every connection; the session key is assumed fresh, as
  it is derived from two random values.

## Left out

- Mask.MaskCells: dumps of different sizes, which the enrolment script rejects before `build_mask`, are excluded by the precondition.
- Session.Server.OpenData: a line is what `split`, `int(.., 16)` and `unhex` make of it: not a DATA line, a number refused, or a number of any sign with the decoded bytes if there are any. The text is modelled in `LineText` for numbers of eight hex digits; Python's other forms of numbers are not.
- SHA-256, HMAC, HKDF, ECDSA, AES-GCM and the key handles of PSA: wrappers around libraries.
- `crypto_zeroize`: that a buffer is overwritten is not observable in the model.
- The handshake that authenticates device and server: its content is the HMAC.
- `describe`, the statistics of `mask.py`'s main program and of `analyze.py`: printing and counting beside the key path.
- WiFi, TCP, NVS, files, serial collection, sensors, display, `dump.c` and `flash_check.py`: input, output and hardware.
- The reading of an SRAM cell and the distribution of its noise: a snapshot is an arbitrary input.
