# Proofs about the device support code

A Dafny model of the algorithms in this repository that have a clean mathematical meaning, with
proofs that the code has it. Every file of the model names the source it follows.

* **Spectrum of the GPS receiver** (`ComplexNumbers`, `BitReversal`, `FourierTransform`, `Fft`,
  `CwCapture`): the in-place FFT of `libs/gnsspc/fft.c` in exact arithmetic, and the capture that
  feeds it. The array keeps the layout of the code, one-indexed with real and imaginary parts
  interleaved, and the three loops update it. The library's sine is a parameter with the laws in
  `Fft.SineLaws`: values at pi and pi/2, oddness, the double angle and Pythagoras.
* **SHA-256** (`Fips180`, `Sha256Constants`, `Sha256Words`, `Sha256Compress`, `Sha256`, `Sha256Vectors`): `Fips180`
  writes out FIPS 180-4; `Sha256Constants` derives its constants from the primes, and `Sha256Vectors` takes its "abc"
  through all rounds. The other modules follow `sprdsha.h` and `sprdsha256.c` with their buffers and macros.
* **AT channel** (`AtLines`, `AtLineReader`, `WorkQueue`, `AtText`, `AtReports`, `AtFields`): the line reader over its
  fixed buffer, the linked callback queue, and the field parser that cuts lines in place. `AtLines` and
  `AtText` say on plain strings what the buffers hold.
* **Bluetooth framing** (`H4Framing`, `H4Receiver`): the receive state machine of `libs/libbt/src/sitm.c`
  against the packet format of the Bluetooth Core Specification, Volume 4, Part A, section 2 and Part E,
  section 5.4.
* **Device tree combiner** (`ChipList`, `DtbLayout`, `DtbTool`, `DtbRegister`, `DtbCombine`, `DtbExample`): the doubly
  linked list, registration, the two passes over the list, and the file they produce, from the files of a
  directory to the blob each chip is led to.
* **Signed images** (`Pkcs1`, `SignedImage`, `SignedLayout`, `VerifiedImage`): PKCS#1 blocks (section 8.1 of RFC 2313), the
  header tool, the signing tool with its search for the code in a packed modem image, and the verifier,
  composed. Hash and RSA are parameters here, public decryption undoing private encryption.
* **RSA arithmetic** (`Limbs`, `Residues`, `BigInt`, `BigMod`, `Exponent`, `Lengths`, `ModExp`, `RsaKeys`, `RsaBytes`,
  `Rsa`): the big numbers of `rsa.c`, their division by guessed quotients, and the power modulo n, in place and with
  results that may be operands; exactly which inputs leave the arrays; and why the exponents of two primes undo
  each other.

`Arithmetic`, `Buffers`, `Bytes` and `Options` hold what several modules use.

A loop or an object of the source is a loop or a class here; its contract ties it to a function on
values, and the lemmas are about those functions. `ghost` parameters and fields record what has been
seen, given or registered so far. Where code and specification use the same definition, a lemma says what it comes to
in other terms, or what becomes of a given input.

Where the code and its comments differ, the model follows the code:

* `start.c` says that the first four bytes mark a packed modem image; five are compared, the terminator
  included.
* `sprdsec_header.h` says that the signatures cover the two hashes, or the one; the code also signs and
  compares type and version (72 and 40 bytes).
* `get_rand_bytes` is not random: every byte is 0xAA.
* `start.c` hashes the code inside a packed modem image but records the place where the payload starts, so the
  verifier hashes other bytes (`VerifiedImage.OtherByteHashed` has an image); and a packed image without a header
  that says image or last keeps the signer searching without end (`SignedImage.NeverSigned`).
* `atc.c` says that the cursor behind a line is never behind the text; behind a prompt it is, by one, and what the
  buffer held there before is taken for text by the next call.
* A read in the body of a packet that fails is added to the counters of `sitm.c` as minus one, which takes the byte
  before it back: it is lost.
* `sprd_agps_agent.c` prints a command into 16384 characters; a payload of 8180 bytes or more, which the handler of
  the other direction would take, runs out of them (`AtFields.UplinkOfLargest`).
* In `sitm.c` the IGNORE state is never entered, because the test in front of it compares the receive
  record itself with NULL.
* `item_count` of the work queue is not decreased by pop or delete; nothing is claimed about it.
* `parser.c` has a branch for a field that starts with a newline; spaces are skipped first, and a newline
  is one.

`rsa.c` is not written in UTF-8, so the table below names only its header; its functions (lines of
`signimage/source/common/rsa/src/rsa.c`) are modelled by:

* `BigInt.Cmp` (lines 88-102): by recorded length, then by value;
* `BigInt.AddBigInt` (lines 136-156): the sum, also when the result is an operand;
* `BigInt.SubBigInt` (lines 181-208): the difference without zero limbs on top; fails exactly when equal numbers are recorded with different lengths;
* `BigInt.MulLong` (lines 240-259): the product with one limb, at most one limb longer;
* `BigInt.MovLong` (lines 118-132): a number below 2^64 in one or two limbs;
* `BigMod.GuessBelow` (lines 370-383): the quotient guessed from the highest limbs times the divisor is less than the number, or nothing is taken;
* `BigMod.GuessProgress` (lines 370-383): a round takes something away or drops a zero limb, so the division ends;
* `BigMod.Once` (lines 373-376): equal top limbs and lengths: one subtraction leaves less than the divisor;
* `BigMod.Round` (lines 370-391): one round keeps the remainder and gets on;
* `BigMod.ModBigInt` (lines 362-394): the remainder, exactly unless the number is zero and recorded with more limbs than the divisor has: that input, and no other, leaves the array (`BigMod.DivideNothing` is one);
* `ModExp.MulMod` (lines 485-495): x times y modulo n from the highest limb of y down; it leaves the arrays if and only if a run of len(n) - len(x) + 2 limbs of y brings nothing in on top of a multiple of n;
* `Lengths.FlowsFits` (lines 485-495): that condition on y, against the lengths the loop gives a remainder of zero;
* `Lengths.UnitFlows` (lines 485-495): for a unit x and y below n exactly the highest limbs of y can be such a run;
* `ModExp.BitLength` (lines 477-482): where the search for the highest bit ends;
* `Exponent.ReadIsEffective` (lines 484-497): the bits the loop looks at, shifted out of limbs, make `Effective` of the exponent;
* `Exponent.EffectiveIsValue` (lines 477-484): that is the exponent given if and only if its highest limb is not zero or the limb below has its highest bit set;
* `ModExp.NextBit` (lines 484-511): one bit: square, and multiply if it is set, with the length that the result is recorded with; it stays inside exactly under `StepRuns`;
* `Lengths.UnitRound` (lines 485-511): for a unit that is the case if and only if the numbers multiplied are not zero in as many of their highest recorded limbs as the other factor has to spare, and two more;
* `ModExp.RsaTrans` (lines 470-513): x to the effective exponent modulo n, in `RunLen` limbs, if and only if every round stays inside (`Runs`): both are functions of base, exponent, modulus and their recorded lengths alone;
* `Lengths.RunHolds` (lines 485-511): every power fits the limbs it is recorded with, and those of the modulus;
* `Lengths.TallRuns` (lines 485-511): a unit whose powers along the bits reach the second highest limb stays inside;
* `Lengths.SmallStops` (lines 485-495): a base in all limbs with nothing in the two highest does not, for any exponent above one;
* `RsaKeys.Fermat`, `RsaKeys.KeyPairOfPrimes`: for two different primes and a product of exponents that is one modulo both primes less one, the powers undo each other for every number below the modulus (key generation of section 6 of RFC 2313);
* `RsaKeys.UnitOfPrimes`: the units modulo two primes are what neither divides;
* `RsaBytes.UsedExponentIs` (lines 424-430, 477-484): the exponent in bytes is used as it is if and only if something is in its first four bytes or its fifth has the highest bit set;
* `RsaBytes.HighByteFirst`, `Limbs.LowLimbFirst`: how bytes and limbs make a number, from the other end than their definitions;
* `Residues.PowModSteps`: the power modulo n, one multiplication and remainder after the other;
* `RsaBytes.SetParameterChar` (lines 424-430): the limbs are the number that the bytes make, high byte first, and the bytes come back unchanged;
* `Rsa.HandOut` (lines 576-578): the bytes handed out make the number, high byte first;
* `Rsa.PrvEnc` (lines 559-580): refuses exactly what does not fit or is not below the modulus; otherwise the type 1 block to the private exponent modulo n, done if and only if the run stays inside and its result is recorded with all limbs (`Completes`);
* `Rsa.PubDec` (lines 582-603): the power of the input, and the data in it if and only if it is a type 1 block but for its first byte; done under the same condition;
* `Rsa.FillsCompletes`, `Rsa.OverrunsStops`: what `Completes` comes to for a unit with large powers, and for a base without its two highest limbs;
* `Rsa.CubeFills`, `Rsa.OneLimbCompletes`: numbers that meet the conditions: the cube of 2^33 modulo 2^66 + 1, and the key pair 3 and 7 modulo 33;
* `Rsa.DecryptZeros` (lines 582-603): a signature of zeros leaves the arrays, for every modulus and every exponent above one;
* `Rsa.SignAndRecover` (lines 559-603): with a matching key pair public decryption gives back the data that were encrypted, exactly when both runs complete and for exponents that are used as they are.

## Model

| member | source | states |
|---|---|---|
| Fft.FFT | libs/gnsspc/fft.c:59-109 | for every power of two nn, every input and isign 1 or -1, complex index k holds exactly the sum over t of x(t) times w^(t k), w having the imaginary part sin(theta) and the real part 1 - 2 sin(theta / 2)^2 at theta = 2 pi / (isign nn); nothing outside the nn points is touched |
| Fft.FourPoints | libs/gnsspc/fft.c:59-109 | what four points become, coordinate by coordinate, for both signs |
| Fft.OnePointOfFour | libs/gnsspc/fft.c:59-109 | the points 0, 1, 0, 0 become 1, i, -1, -i for isign 1, and 1, -i, -1, i for isign -1 |
| Fft.ForwardAndBack | libs/gnsspc/fft.c:51-55 | isign 1 followed by isign -1 multiplies every point by nn, which is why the result "has to be manually normalized" |
| Fft.ThereAndBack | libs/gnsspc/fft.c:51-55 | the same as a law of the transform: the two root sequences the code uses invert each other up to the factor nn |
| Fft.Reorder | libs/gnsspc/fft.c:64-81 | the first pass applies exactly the bit-reversal permutation, each pair exchanged once, and its inner loop ends |
| Fft.Advance | libs/gnsspc/fft.c:74-80 | the reversed-carry loop takes j from the reversal of t to the reversal of t + 1 |
| Fft.SwapStep | libs/gnsspc/fft.c:69-73 | exchanging only when j > i is the same as moving every point to its reversed place |
| BitReversal.RevDigits | libs/gnsspc/fft.c:67-81 | the permutation really reverses binary digits: digit d of the image is digit bits-1-d |
| BitReversal.RevInvolution | libs/gnsspc/fft.c:69-73 | the permutation is its own inverse, so swaps of pairs realise it |
| BitReversal.ReverseCarryCounts | libs/gnsspc/fft.c:74-80 | adding one from the top digit down enumerates the reversed numbers in order |
| Fft.ButterflyAt | libs/gnsspc/fft.c:96-102 | one butterfly: (u, v) becomes (u + w v, u - w v), all other points unchanged |
| Fft.StageRoot | libs/gnsspc/fft.c:86-89 | wpr is minus twice the squared sine of half of theta and wpi the sine of theta, which makes 1 + wpr and wpi the root at angle theta |
| Fft.QuarterTurn | libs/gnsspc/fft.c:86-89 | at pi / 2 the root is i, at minus pi / 2 it is -i |
| Fft.NextTwiddle | libs/gnsspc/fft.c:104-105 | the recurrence is multiplication of the running twiddle by the root of the stage |
| Fft.LanePass | libs/gnsspc/fft.c:94-103 | the inner loop finishes exactly one residue class of points of a stage |
| Fft.LanePasses | libs/gnsspc/fft.c:92-106 | the two inner loops together are one whole stage of butterflies on every block |
| Fft.LevelUp | libs/gnsspc/fft.c:85-107 | if every block holds the transform of its decimated subsequence, after one round every block of twice the size does |
| Fft.Combine | libs/gnsspc/fft.c:82-108 | starting from bit-reversed input the stages end with the transform |
| Fft.RootsAreRoots | libs/gnsspc/fft.c:86-89 | the roots made from the sine obey root(l+1)^2 = root(l) and are half turns where the butterflies need it |
| FourierTransform.Decimation | libs/gnsspc/fft.c:83-108 | a polynomial at z splits into its even and odd coefficients at z squared |
| FourierTransform.StageLifts | libs/gnsspc/fft.c:83-108 | the butterflies of stage l turn level l of the decimation tree into level l + 1 |
| FourierTransform.LevelZero | libs/gnsspc/fft.c:64-82 | the lowest level of the decimation tree is the bit-reversed input |
| FourierTransform.FinalButterfly | libs/gnsspc/fft.c:96-102 | transform value p and p + half from the transforms of evens and odds |
| FourierTransform.RootsSumToZero | libs/gnsspc/fft.c:51-55 | the powers of a root that is not one add up to zero over a full turn |
| FourierTransform.Inversion | libs/gnsspc/fft.c:51-55 | transforming with inverse roots gives back every coefficient times the length |
| CwCapture.Capture.Take | libs/gnsspc/fft.c:285-385 | one call: the session moves as the begin and end marks say, indices stay in range, and a frame is transformed exactly when this line completes one; then the array holds the transform of the last 16384 kept, windowed samples |
| CwCapture.Capture.Keep | libs/gnsspc/fft.c:319-365 | saving a line keeps dataCount equal to the kept lines modulo 16384 |
| CwCapture.Capture.Save | libs/gnsspc/fft.c:322-347 | every fifth line is dropped; a kept one becomes the next windowed sample of the frame |
| CwCapture.Capture.TransformIfFull | libs/gnsspc/fft.c:349-354 | a full frame, and no other, is transformed, and counting starts again at zero |
| CwCapture.KeptCount | libs/gnsspc/fft.c:322-325 | of n lines n - n/5 are kept |
| CwCapture.CountNext | libs/gnsspc/fft.c:322-351 | the counter with its reset is the number of kept lines modulo 16384, and it reaches 16384 exactly at a line that completes a frame |
| CwCapture.OneTransformPerFrame | libs/gnsspc/fft.c:349-365 | while n lines of a session come in the transform runs (n - n / 5) / 16384 times |
| CwCapture.Find | libs/gnsspc/fft.c:306-316 | finds whether a mark starts anywhere in the given length |
| CwCapture.MarkedMeans | libs/gnsspc/fft.c:304-317 | that is, in a whole line: whether the mark is somewhere in it |
| CwCapture.Captured | libs/gnsspc/fft.c:304-382 | what is captured starts with the line behind the one that holds the begin mark, and goes on up to one that holds the end mark |
| CwCapture.CaptureEnds | libs/gnsspc/fft.c:304-382 | a line with the end mark ends the capture and is not part of it; one with both marks begins the next |
| CwCapture.KeptIs | libs/gnsspc/fft.c:322-325 | kept line j is line j + j / 4 of the capture |
| CwCapture.FramePoint | libs/gnsspc/fft.c:322-347 | point t of a frame is the sample of its line times the window at t, and which line that is |
| CwCapture.TransformMeans | libs/gnsspc/fft.c:349-354 | what a frame becomes, place by place in the array: the sum with the root at -2 pi / 16384 |
| Sha256.HashInPieces | signimage/source/common/sha256/inc/sprdsha.h:105-139 | init, any number of process calls with pieces of any size, then done: the digest of FIPS 180-4 of the concatenation, so cuts do not matter |
| Sha256.HashState.Process | signimage/source/common/sha256/inc/sprdsha.h:105-139 | after a call the state represents the message so far followed by the new bytes |
| Sha256.HashState.AbsorbBlock | signimage/source/common/sha256/inc/sprdsha.h:116-122 | a whole block straight from the input is absorbed |
| Sha256.HashState.AbsorbPiece | signimage/source/common/sha256/inc/sprdsha.h:124-135 | part of a block goes into the buffer, which is compressed when full |
| Sha256.HashState.constructor | signimage/source/common/sha256/src/sprdsha256.c:225-240 | init represents the empty message |
| Sha256.HashState.Done | signimage/source/common/sha256/src/sprdsha256.c:257-303 | the output is the FIPS 180-4 digest of the message fed, for every message under 2^64 bits |
| Sha256.HashState.AppendPadding | signimage/source/common/sha256/src/sprdsha256.c:271-289 | 0x80, zeros and, when the length does not fit, an extra block: what is left is exactly the last padded block without its length |
| Sha256.HashState.LastBlocks | signimage/source/common/sha256/src/sprdsha256.c:268-293 | the chaining value ends as that of the padded message |
| Sha256.HashState.StoreDigest | signimage/source/common/sha256/src/sprdsha256.c:295-298 | the state words leave high byte first |
| Sha256.Store64H | signimage/source/common/sha256/inc/sprdsha.h:153-157 | the eight shifts give the big-endian 64-bit length |
| Sha256.OneMoreBlock | signimage/source/common/sha256/src/sprdsha256.c:286-293 | with fewer than 56 bytes waiting one more block finishes the padded message |
| Sha256.TwoMoreBlocks | signimage/source/common/sha256/src/sprdsha256.c:278-293 | with 56 to 63 bytes waiting two more blocks do |
| Sha256.HoldsWhole | signimage/source/common/sha256/inc/sprdsha.h:129-135 | compressing a completed block keeps state and length those of the message |
| Sha256.HashState.CompressBlock | signimage/source/common/sha256/src/sprdsha256.c:83-208 | copying in, schedule, rounds and feedback are the compression of section 6.2.2 |
| Sha256Compress.FillSchedule | signimage/source/common/sha256/src/sprdsha256.c:97-105 | the schedule array is the message schedule of section 6.2.2 |
| Sha256Compress.Unrolled | signimage/source/common/sha256/src/sprdsha256.c:127-197 | the 64 unrolled rounds with rotated register names leave the working variables after 64 rounds of the standard |
| Sha256Compress.Shifting | signimage/source/common/sha256/src/sprdsha256.c:108-126 | the plain loop that shifts the registers leaves the same |
| Sha256Compress.EightRows | signimage/source/common/sha256/src/sprdsha256.c:134-141 | eight rounds bring the register names round to where they were |
| Sha256Compress.Rnd | signimage/source/common/sha256/src/sprdsha256.c:128-132 | one round in place, with names rotated by r, is a round on the rotated view |
| Sha256Words.ChMacro | signimage/source/common/sha256/src/sprdsha256.c:70 | the rewritten Ch is the standard's Ch |
| Sha256Words.MajMacro | signimage/source/common/sha256/src/sprdsha256.c:71 | the rewritten Maj is the standard's Maj |
| Sha256Words.S | signimage/source/common/sha256/inc/sprdsha.h:150-151 | the masked shifts rotate right, for every amount the standard uses |
| Sha256Words.R | signimage/source/common/sha256/src/sprdsha256.c:73 | the masked shift is the standard's SHR |
| Sha256Words.Sigma0Macro | signimage/source/common/sha256/src/sprdsha256.c:74 | capital sigma zero of section 4.1.2 |
| Sha256Words.Sigma1Macro | signimage/source/common/sha256/src/sprdsha256.c:75 | capital sigma one of section 4.1.2 |
| Sha256Words.Gamma0Macro | signimage/source/common/sha256/src/sprdsha256.c:76 | small sigma zero of section 4.1.2 |
| Sha256Words.Gamma1Macro | signimage/source/common/sha256/src/sprdsha256.c:77 | small sigma one of section 4.1.2 |
| Sha256Words.Load32H | signimage/source/common/sha256/inc/sprdsha.h:141-145 | four bytes, high first, make the word |
| Fips180.PadLengthIsSmallest | signimage/source/common/sha256/src/sprdsha256.c:274-289 | the number of zero bytes is the smallest that section 5.1.1 allows |
| Sha256Constants.InitialHashRoots | signimage/source/common/sha256/src/sprdsha256.c:231-238 | the eight words init stores are the first 32 bits of the fractional parts of the square roots of the first eight primes (section 5.3.3) |
| Sha256Constants.KRoots0 | signimage/source/common/sha256/src/sprdsha256.c:134-141 | the constants of rounds 0 to 7 are those of the cube roots of primes number 1 to 8 (section 4.2.2) |
| Sha256Constants.KRoots1 | signimage/source/common/sha256/src/sprdsha256.c:142-149 | the constants of rounds 8 to 15 are those of the cube roots of primes number 9 to 16 (section 4.2.2) |
| Sha256Constants.KRoots2 | signimage/source/common/sha256/src/sprdsha256.c:150-157 | the constants of rounds 16 to 23 are those of the cube roots of primes number 17 to 24 (section 4.2.2) |
| Sha256Constants.KRoots3 | signimage/source/common/sha256/src/sprdsha256.c:158-165 | the constants of rounds 24 to 31 are those of the cube roots of primes number 25 to 32 (section 4.2.2) |
| Sha256Constants.KRoots4 | signimage/source/common/sha256/src/sprdsha256.c:166-173 | the constants of rounds 32 to 39 are those of the cube roots of primes number 33 to 40 (section 4.2.2) |
| Sha256Constants.KRoots5 | signimage/source/common/sha256/src/sprdsha256.c:174-181 | the constants of rounds 40 to 47 are those of the cube roots of primes number 41 to 48 (section 4.2.2) |
| Sha256Constants.KRoots6 | signimage/source/common/sha256/src/sprdsha256.c:182-189 | the constants of rounds 48 to 55 are those of the cube roots of primes number 49 to 56 (section 4.2.2) |
| Sha256Constants.KRoots7 | signimage/source/common/sha256/src/sprdsha256.c:190-197 | the constants of rounds 56 to 63 are those of the cube roots of primes number 57 to 64 (section 4.2.2) |
| Sha256Constants.RotrRotates | signimage/source/common/sha256/inc/sprdsha.h:150-151 | Rotr is the rotation of bit vectors to the right, for all ten amounts in use |
| Sha256Constants.ChBit | signimage/source/common/sha256/src/sprdsha256.c:70 | bit by bit, x chooses between y and z |
| Sha256Constants.MajBit | signimage/source/common/sha256/src/sprdsha256.c:71 | bit by bit, what at least two of the three have |
| Sha256Vectors.Abc | signimage/source/common/sha256/src/sprdsha256.c:326-331 | the digest of "abc" is the one that the test of the code expects, byte by byte |
| Sha256Vectors.TestAbc | signimage/source/common/sha256/src/sprdsha256.c:320-350 | the first round of sha256_test: the code gives that digest |
| AtLineReader.ReadText | libs/aGPS/lib/atc.c:422-435 | for lines in order, any newline runs between them and any sizes, failures or interruptions of reads, what comes back before the first NULL is a prefix of the lines, and all of them once everything was read, as long as every line with its newlines stays below the buffer size and none is the prompt; when no read fails and there is one for every character, everything is read |
| AtLineReader.ReadLines | libs/aGPS/lib/atc.c:422-435 | readerLoop stops at the first NULL, which only a last read that failed or returned nothing makes; the lines up to there are exactly those of what was read, where a full buffer drops its text and a text that is the prompt counts as a line, until old text behind a prompt comes into reach |
| AtLineReader.Channel.ReadLine | libs/aGPS/lib/atc.c:144-231 | a call returns the next line of the characters consumed, with the buffers dropped and the prompts met on the way, each only where the buffer was full or held the prompt; NULL only if the last read of the call failed or returned nothing, and then no complete line is left |
| AtLineReader.AllRead | libs/aGPS/lib/atc.c:184-219 | when no read fails and there is one for every character, that reason is that all characters have been read |
| AtLineReader.EnoughReads | libs/aGPS/lib/atc.c:184-219 | as many reads as characters are enough for it, of any sizes but zero |
| AtLineReader.ReadInPieces | libs/aGPS/lib/atc.c:422-435 | two lines that come in four pieces are read as those two |
| AtLineReader.Channel.FirstLook | libs/aGPS/lib/atc.c:156-182 | what an earlier read left is a line, or a partial line moved to the front |
| AtLineReader.Channel.Ditched | libs/aGPS/lib/atc.c:185-191 | the text is dropped exactly when it fills the buffer without a line end |
| AtLineReader.Channel.Refill | libs/aGPS/lib/atc.c:184-219 | one read at the end of the partial line keeps the buffer equal to what is still to be given |
| AtLineReader.Channel.ReadRetry | libs/aGPS/lib/atc.c:193-197 | interrupted reads are repeated, and nothing else is; nothing before the end of the partial line changes |
| AtLineReader.Channel.MoveUp | libs/aGPS/lib/atc.c:170-179 | compaction keeps the text, terminator included |
| AtLineReader.Channel.SkipNewlines | libs/aGPS/lib/atc.c:164-166 | only newlines are dropped |
| AtLineReader.Channel.FindNextEol | libs/aGPS/lib/atc.c:122-133 | the end of the first line, the end of a text that is exactly the prompt, or nothing when there is neither |
| AtLineReader.Channel.Take | libs/aGPS/lib/atc.c:222-230 | the line is cut off in place and the rest stays to be given; behind a prompt the cursor is one past the text, which is lost unless a terminator happens to be there |
| AtLineReader.TextFits | libs/aGPS/lib/atc.c:195-196 | newline runs with their lines below the buffer size keep every prefix of the stream within the buffer |
| AtLineReader.ItemFitsIs | libs/aGPS/lib/atc.c:185-196 | which lines fit: fewer than 8192 characters with the newlines in front, no NUL, and not the prompt |
| AtLines.TextLines | libs/aGPS/lib/atc.c:116-133 | the splitter's reference reading of a text: its non-empty runs between CR and LF, in order |
| AtLines.OnlyChars | libs/aGPS/lib/atc.c:144-231 | as long as every beginning of a stream leaves room and is not the prompt, nothing is dropped and nothing else is taken for a line |
| AtLines.FeedAppend | libs/aGPS/lib/atc.c:144-231 | the reference reading does not depend on where the stream is cut |
| WorkQueue.Queue.Add | libs/aGPS/lib/atc.c:35-56 | a new item goes behind all others |
| WorkQueue.Queue.Pop | libs/aGPS/lib/atc.c:58-74 | the first item's data, and the queue without it; nothing from an empty queue |
| WorkQueue.Queue.Delete | libs/aGPS/lib/atc.c:76-114 | exactly the given item goes, wherever it is, and tail stays the last item; an item that is not there changes nothing |
| WorkQueue.Queue.Locate | libs/aGPS/lib/atc.c:88-101 | the walk ends at the item with the one before it, or at the end when it is not there |
| WorkQueue.Queue.UnlinkAfter | libs/aGPS/lib/atc.c:103-106 | links and tail after taking out an item that is not the first |
| WorkQueue.Register | libs/aGPS/lib/atc.c:437-451 | a registration goes behind those there are |
| WorkQueue.MatchUnsolicited | libs/aGPS/lib/atc.c:386-406 | a line triggers the non-null callbacks whose prefix it starts with, in registration order |
| WorkQueue.CallsAreMatches | libs/aGPS/lib/atc.c:394-398 | a callback is called if and only if it is registered with a prefix of the line |
| WorkQueue.CallsCount | libs/aGPS/lib/atc.c:393-401 | a callback is called exactly once for each registration that has it and a prefix of the line |
| WorkQueue.CallsInOrder | libs/aGPS/lib/atc.c:393-401 | later registrations are called after earlier ones |
| WorkQueue.StartsWith | libs/aGPS/lib/parser.c:19-28 | true exactly for prefixes |
| AtText.FieldsReadBack | libs/aGPS/generic/sprd_agps_agent.c:65-72 | four printed integers and the quoted hex payload are read back as the same numbers and bytes, for all int values and every payload up to the handler's size |
| AtText.DownlinkOfUplink | libs/aGPS/generic/sprd_agps_agent.c:121-160 | the same fields behind any prefix and a colon reach the payload callback unchanged |
| AtText.DownlinkByFields | libs/aGPS/generic/sprd_agps_agent.c:121-160 | refused with fewer than four fields, delivered with more than four, and the length of a missing string taken exactly with four |
| AtText.PlainFields | libs/aGPS/lib/parser.c:81-110 | without quotes the fields are one more than the commas |
| AtText.ReportWithoutData | libs/aGPS/generic/sprd_agps_agent.c:153-160 | a report of four numbers is such a line |
| AtText.ReadDecimal | libs/aGPS/lib/parser.c:117-135 | strtol and the cast to int give back every int that %d printed |
| AtText.ReadHex | libs/aGPS/lib/parser.c:190-205 | decoding gives back every byte string that %02x printed |
| AtText.ByteFromDigits | libs/aGPS/lib/parser.c:158-183 | two printed digits make the byte again |
| AtText.NextNumber | libs/aGPS/lib/parser.c:81-110 | a number in front of a comma is the next field, and the rest starts behind the comma |
| AtText.NextQuoted | libs/aGPS/lib/parser.c:96-100 | a quoted field is what stands between the quotes |
| AtReports.LeadingSpaces | libs/aGPS/lib/parser.c:85-88 | white space in front of a field changes nothing |
| AtReports.SpacedReport | libs/aGPS/generic/sprd_agps_agent.c:117-160 | four numbers and quoted digits, with any white space in front of each, reach the payload callback |
| AtReports.CapitalsAlike | libs/aGPS/lib/parser.c:165-181 | capital digits decode like small ones |
| AtReports.SampleReport | libs/aGPS/generic/sprd_agps_agent.c:117-160 | a line in the documented form, spaces and capitals included, and what becomes of it |
| AtReports.SampleCommand | libs/aGPS/generic/sprd_agps_agent.c:65-72 | a command, character by character |
| AtFields.Strsep | libs/aGPS/lib/parser.c:96-107 | cutting in place: the piece becomes a terminated string, the cursor stands behind the delimiter or is NULL, and nothing in front changes |
| AtFields.GetCurrentTok | libs/aGPS/lib/parser.c:81-110 | the token in the buffer and the new cursor are those of the text reading; the newline branch is never taken |
| AtFields.ParseNextInt | libs/aGPS/lib/parser.c:117-135 | error -1 exactly on a NULL cursor, otherwise the int that strtol reads from the next field |
| AtFields.FindString | libs/aGPS/lib/parser.c:36-55 | the first occurrence, or -1 when there is none |
| AtFields.AtTokStart | libs/aGPS/lib/parser.c:62-73 | the cursor behind the first colon, or an error when there is none |
| AtFields.GsmHexToGsm | libs/aGPS/lib/parser.c:190-205 | as many bytes as pairs and room allow, each from its pair |
| AtFields.HandleDownlink | libs/aGPS/generic/sprd_agps_agent.c:121-168 | the handler's outcome on any line in the buffer is that of the text reading |
| AtFields.Uplink | libs/aGPS/generic/sprd_agps_agent.c:57-79 | the buffer filled through the moving end is the command text, if and only if 18 characters, the digits of the four numbers and two for every byte stay below 16384; otherwise it runs out of the buffer |
| AtFields.UplinkOfLargest | libs/aGPS/generic/sprd_agps_agent.c:57-79 | a message of 8192 bytes does |
| AtText.UplinkRange | libs/aGPS/generic/sprd_agps_agent.c:57-79 | with any ints up to 8164 bytes fit, and from 8180 bytes on none do |
| AtFields.PrintPayload | libs/aGPS/generic/sprd_agps_agent.c:68-71 | the countdown prints two digits for every byte in order |
| H4Receiver.Receive | libs/libbt/src/sitm.c:352-431 | for any packets, with any bytes outside 1..4 between them and reads of any sizes, the frames handed over are a prefix of the packets, and all of them, with the receiver back in BRAND_NEW, once the stream is used up; the buffer holds every stream whose packets have at most 1026 bytes, and no other to its end; when reads fail, the frames are those of the bytes that are left, at most one being lost for every failure |
| H4Receiver.ReceivePackets | libs/libbt/src/sitm.c:352-431 | the same for packets given by their fields: without failing reads and with at most 1026 bytes each they are handed over byte for byte in order, all of them once the stream is used up; with a longer one among them it never is |
| H4Receiver.ReceiveAll | libs/libbt/src/sitm.c:352-431 | over any run the frames handed over are those of the consumed bytes but for the ones lost, and between calls the stored bytes are the prefix of the current packet, unless a packet longer than the buffer was begun |
| H4Receiver.Receiver.ParseFrame | libs/libbt/src/sitm.c:352-431 | one call keeps that invariant and hands over at most one frame, or runs out of the buffer, which only a packet declared longer than it can make it do |
| H4Receiver.Receiver.SwitchHeader | libs/libbt/src/sitm.c:356-390 | a byte outside a body: skipped, start of a packet, or part of its header |
| H4Receiver.Receiver.SwitchBody | libs/libbt/src/sitm.c:391-400 | a body byte and the read behind it; a read that fails takes the byte back |
| H4Receiver.Receiver.FirstByte | libs/libbt/src/sitm.c:356-366 | the header size of the type is what is still to come |
| H4Receiver.TracksHeader | libs/libbt/src/sitm.c:367-388 | when the header is complete the length field decides between BODY and FINISHED |
| H4Receiver.TracksBody | libs/libbt/src/sitm.c:391-399 | bytes_remaining counts down to FINISHED exactly at the end of the packet |
| H4Receiver.StreamFits | libs/libbt/src/sitm.c:375-385 | packets up to the buffer size never overrun it, whatever the reads |
| H4Framing.StreamPackets | libs/libbt/src/sitm.c:354-366 | the reference reading of a stream of packets with noise is the packets |
| H4Framing.PacketForms | libs/libbt/include/sitm.h:32-36 | type, header with the length of the data, and the data make a packet; the length of ACL data is low byte first |
| H4Framing.PacketHasForm | libs/libbt/include/sitm.h:32-36 | every packet is of one of the four forms |
| H4Framing.FeedAppend | libs/libbt/src/sitm.c:352-431 | the reference reading does not depend on how the stream is cut |
| H4Framing.KeptLength | libs/libbt/src/sitm.c:391-399 | with no byte lost the bytes left are the stream |
| H4Framing.FeedBody | libs/libbt/src/sitm.c:391-399 | a body is complete after exactly the declared number of bytes |
| ChipList.List.Add | dtbtool/dtbtool.c:153-198 | the list stays strictly sorted with next and prev inverse to each other; success inserts exactly the new node, refusal happens exactly for a present key and changes nothing |
| ChipList.List.InsertBefore | dtbtool/dtbtool.c:170-182 | links and head after inserting in front of a node |
| ChipList.SortedInsert | dtbtool/dtbtool.c:164-195 | inserting between smaller and greater keys keeps the order and meets no equal key |
| ChipList.LessIsNumeric | dtbtool/dtbtool.c:164-168 | the order is that of the three 32-bit numbers written one behind the other |
| DtbRegister.ChipsOf | dtbtool/dtbtool.c:289-312 | the chips of one file: the first, then the others in reverse order, all with the first as master |
| DtbRegister.RegisterFile | dtbtool/dtbtool.c:392-438 | one file: skipped without chips or contents or when its first id is taken, otherwise every free id of it is registered |
| DtbRegister.AddFurther | dtbtool/dtbtool.c:429-437 | the further chips go in as far as their ids are free, and the count counts them |
| DtbRegister.RegistryMeans | dtbtool/dtbtool.c:392-438 | who owns an id, without going through the files in turn: the first of the files that take part and have it; a file with ids and contents takes part unless its first id belongs to an earlier one |
| DtbCombine.Register | dtbtool/dtbtool.c:373-442 | after all files the list holds exactly the registry, each id with the master of the first file that could claim it, one master a file with name and padded size recorded |
| DtbTool.WriteIndex | dtbtool/dtbtool.c:485-497 | the table is that of the layout, every master has the offset of its blob, and expected is the end of the last blob |
| DtbTool.IndexRound | dtbtool/dtbtool.c:486-496 | one node: a master without offset gets the next place, one with an offset keeps it |
| DtbTool.WriteBlobs | dtbtool/dtbtool.c:505-538 | the blobs of the masters in order of first occurrence; stopped exactly when a file is missing or its padded size changed |
| DtbTool.CopyBlob | dtbtool/dtbtool.c:515-532 | block copy and padding give the contents of the file, then zeros up to the recorded size, or fail exactly when sizes differ |
| DtbTool.WriteImage | dtbtool/dtbtool.c:463-549 | the file is kept exactly when every owning file is unchanged, and then bytes written and bytes expected agree |
| DtbTool.OffsetsPlaced | dtbtool/dtbtool.c:489-495 | offsets given in the index pass are where the blob pass will write |
| DtbTool.EntryLeadsToBlob | dtbtool/dtbtool.c:485-538 | the contents of each master's file are in the image at the offset of the master, page aligned, with zeros behind up to its size; each table entry, read back, says so if and only if its five numbers fit 32 bits |
| DtbTool.BlobsDisjoint | dtbtool/dtbtool.c:489-495 | blobs of different masters do not overlap |
| DtbLayout.MastersComplete | dtbtool/dtbtool.c:505-510 | each master of the list is written, and nothing else |
| DtbLayout.MastersOnce | dtbtool/dtbtool.c:505-510 | each is written once |
| DtbLayout.BlobAt | dtbtool/dtbtool.c:505-538 | blob j lies behind the total size of the blobs before it |
| DtbCombine.Combine | dtbtool/dtbtool.c:336-551 | the whole tool: an image is kept exactly when something was registered and every file that owns an id is still there with its padded size; below 4 GiB it then starts with magic, version and the number of registered ids, its entries are those of the registered ids and no others, in strictly increasing order with an end mark behind, and each leads to the whole padded contents of the file that owns its id |
| DtbCombine.StableMeans | dtbtool/dtbtool.c:524-537 | kept or not, in terms of the directory: every file that owns an id is still there with its padded size; a change of length inside the last page goes unnoticed |
| DtbCombine.StableIs | dtbtool/dtbtool.c:524-537 | the same in pages: every owner is there with as many whole pages as when it was registered |
| DtbCombine.EntryLeads | dtbtool/dtbtool.c:485-538 | the whole contents of the file that owns a node's id are in the image, zeros behind up to the next page; the entry of the node says where if and only if its numbers fit 32 bits |
| DtbCombine.EveryIdLeads | dtbtool/dtbtool.c:416-538 | every registered id has an entry; the whole contents of the file that owns it are in the image, zeros behind up to the next page, and the entry says where if and only if its numbers fit 32 bits |
| DtbCombine.OneBlobPerFile | dtbtool/dtbtool.c:485-510 | ids of one file share one offset; blobs of two files are disjoint |
| DtbExample.CombineTwoIds | dtbtool/dtbtool.c:336-551 | a directory with one device tree for two chips, and the 4096 bytes that the tool writes for it |
| Pkcs1.AddType1 | signimage/source/common/pk1/src/pk1.c:85-107 | accepts exactly the messages up to eleven bytes short of the block, and then writes the type 1 block and nothing behind it |
| Pkcs1.CheckType1 | signimage/source/common/pk1/src/pk1.c:109-153 | accepts a block if and only if it is the type 1 block of some data that fits, and gives exactly those data |
| Pkcs1.AddType2 | signimage/source/common/pk1/src/pk1.c:155-188 | the same for type 2, with the constant fill bytes of get_rand_bytes |
| Pkcs1.CheckType2 | signimage/source/common/pk1/src/pk1.c:190-229 | accepts a block if and only if it is a type 2 block of some data that fits, and gives exactly those data |
| Pkcs1.DataIsUnique | signimage/source/common/pk1/src/pk1.c:109-153 | a block is the block of one message only |
| Pkcs1.SampleBlocks | signimage/source/common/pk1/src/pk1.c:85-188 | a block of each type, byte by byte |
| Pkcs1.ThereAndBack | signimage/source/common/pk1/src/pk1.c:85-229 | check after add gives the message, for both types |
| Pkcs1.BackAndThere | signimage/source/common/pk1/src/pk1.c:85-153 | add on what check accepted rebuilds the block byte for byte |
| Pkcs1.Refused1 | signimage/source/common/pk1/src/pk1.c:115-150 | each way the scan refuses a block means that no message has it |
| Pkcs1.Refused2 | signimage/source/common/pk1/src/pk1.c:195-223 | the same for type 2 |
| Pkcs1.InvertChar | signimage/source/common/pk1/src/pk1.c:64-75 | the first len bytes are reversed in place, the others kept |
| Pkcs1.GetRandBytes | signimage/source/common/pk1/src/pk1.c:77-83 | fills with 0xAA, so the search for non-zero bytes never repeats |
| Rsa.PrvEnc | signimage/source/common/rsa/inc/rsa_sprd.h:31-44 | refuses exactly what does not fit or is not below the modulus; otherwise the type 1 block to the private exponent modulo n, done if and only if the modulus fills its limbs, no product leaves its array and the result is recorded with all limbs, as a function of block, exponent and modulus says |
| Rsa.PubDec | signimage/source/common/rsa/inc/rsa_sprd.h:45-56 | the power of the input, and the data in it if and only if it is a type 1 block but for its first byte; done if and only if the input is below the modulus and the same condition holds for it |
| Rsa.SignAndRecover | signimage/source/common/rsa/inc/rsa_sprd.h:31-56 | with a key pair whose exponents both have something in their first four bytes, or the highest bit of the fifth, public decryption gives back the data that were encrypted; the two runs are done if and only if the data fit and both powers complete; what does not fit is refused |
| Rsa.BlockCompletes | signimage/source/common/rsa/inc/rsa_sprd.h:31-56 | both do for a block that is a unit when its powers and those of the signature reach the second highest limb, and the signature the highest |
| Rsa.DecryptZeros | signimage/source/common/rsa/inc/rsa_sprd.h:45-56 | an input of zeros has no result, for every modulus and every exponent above one |
| RsaKeys.KeyPairOfPrimes | signimage/source/common/rsa/inc/rsa_sprd.h:31-56 | why decryption undoes encryption: for n = p q with different primes and e d = 1 modulo p - 1 and q - 1, every number below n comes back |
| SignedImage.LoadFile | insertheader/source/imgheaderinsert.c:17-49 | the file in a buffer of the next multiple of sixteen bytes, zeros behind |
| SignedImage.InsertHeader | insertheader/source/imgheaderinsert.c:124-155 | the new file is the header with magic, version, padded size and optional hash followed by the padded payload, and the old file becomes the padded payload |
| SignedLayout.HeaderBytes | insertheader/source/imgheaderinsert.c:124-155 | the file with its header, byte by byte |
| SignedImage.SignImg | signimage/source/sign/main/start.c:217-334 | by the start of the name: which certificate, which keys, and the file extended by signing header and certificate; for a packed modem image the code that its headers name is hashed, nothing is written when the search never ends, and unspecified are exactly the images whose headers or code reach beyond them |
| SignedImage.GetModemInfo | signimage/source/sign/main/start.c:94-144 | the search over the eight headers: the first that says image, nothing when a later one says last, no end when there is neither |
| SignedImage.ModemSearchEnds | signimage/source/sign/main/start.c:104-130 | the search ends if and only if a header behind the first says image or one behind the second says last |
| SignedImage.MagicIsFlagged | signimage/source/sign/main/start.c:104-130 | the second pass starts on the magic, whose lowest bit is the image flag, so it never clears the result |
| SignedImage.NeverSigned | signimage/source/sign/main/start.c:104-130 | the magic with nothing but zeros behind, after any header: no end |
| SignedLayout.SignHeaderBytes | signimage/source/common/verify/inc/sprdsec_header.h:51-81 | the signing header, byte by byte, with the size of either certificate |
| SignedLayout.FirstLoaderBytes | signimage/source/sign/main/start.c:257-275 | a first loader: key 0, the hash of key 1, and what is signed, byte by byte |
| SignedLayout.SecondLoaderBytes | signimage/source/sign/main/start.c:277-299 | a second loader: key 1 and the hash of key 2 |
| SignedLayout.TrustedBytes | signimage/source/sign/main/start.c:301-316 | a trusted image: key 1 |
| SignedLayout.ContentBytes | signimage/source/sign/main/start.c:317-332 | any other image: key 2 |
| SignedLayout.FirstLoaderNames | signimage/source/sign/main/start.c:257-258 | the names of first loaders, by their beginning |
| SignedLayout.SecondLoaderNames | signimage/source/sign/main/start.c:277-279 | those of second loaders |
| SignedLayout.TrustedNames | signimage/source/sign/main/start.c:301-305 | those of trusted images |
| SignedLayout.OtherNames | signimage/source/sign/main/start.c:317-318 | a name that starts like none of them is that of any other image |
| SignedLayout.ModemFlags | signimage/source/sign/main/start.c:23-29 | the three flags of a header in a packed image are bits of its first two bytes |
| SignedLayout.ModemRegion | signimage/source/sign/main/start.c:134-144 | offset and length in such a header, with twenty more when a hash is in front |
| VerifiedImage.Found | signimage/source/common/verify/src/sprd_verify.c:146-168 | the three address functions find header, certificate and payload that were written, and the size is that of the code hashed, for every payload, code and role |
| VerifiedImage.SysHeaderFields | signimage/source/common/verify/inc/sprdsec_header.h:24-32 | the header has 512 bytes and the size is at offset 48 |
| VerifiedImage.SignHeaderFields | signimage/source/common/verify/inc/sprdsec_header.h:51-81 | payload size, payload offset, certificate size and certificate offset are read back where the header has them |
| VerifiedImage.HashedLength | signimage/source/common/verify/src/sprd_verify.c:170-182 | the size hashed is the number in the low four bytes of the size field, whatever the high ones hold |
| VerifiedImage.SecMemcmp | signimage/source/common/verify/src/sec_string.c:21-30 | zero exactly when the bytes are equal |
| VerifiedImage.PubDec | signimage/source/common/verify/src/sprd_verify.c:87-91 | data come out of a signature exactly when its power is a type 1 block |
| VerifiedImage.VerifyKeySignature | signimage/source/common/verify/src/sprd_verify.c:87-99 | a key certificate's signature is good exactly when it covers the 72 bytes from the data hash on |
| VerifiedImage.VerifyContentSignature | signimage/source/common/verify/src/sprd_verify.c:117-129 | a content certificate's signature is good exactly when the recovered bytes are those from the data hash on |
| VerifiedImage.ContentCovered | signimage/source/common/verify/src/sprd_verify.c:117-129 | an accepted content certificate speaks for all of its 40 bytes if and only if the signature recovers that many |
| VerifiedImage.EmptyBlockAccepted | signimage/source/common/verify/src/sprd_verify.c:117-129 | with a signature of an empty block a content certificate is accepted on its two hashes alone |
| VerifiedImage.VerifyCert | signimage/source/common/verify/src/sprd_verify.c:66-139 | accepts exactly: data hash equal, for content certificates key hash equal, and signature good |
| VerifiedImage.AcceptedIs | signimage/source/common/verify/src/sprd_verify.c:66-139 | what acceptance means, place by place in the certificate: the two types and no others, the two hashes, and the bytes the signature covers |
| VerifiedImage.VerifyImg | signimage/source/common/verify/src/sprd_verify.c:170-182 | accepts exactly when the certificate found accepts the hash of the payload found |
| VerifiedImage.KeyCertVerifies | signimage/source/sign/main/start.c:260-271 | a key certificate as the signer fills it is accepted whatever key hash is handed over, and carries the next key's hash |
| VerifiedImage.ContentCertVerifies | signimage/source/sign/main/start.c:307-312 | a content certificate as the signer fills it is accepted if and only if the key hash is that of its key |
| VerifiedImage.CertificateFor | signimage/source/common/verify/src/sprd_verify.c:66-139 | a certificate made for some code accepts other bytes if and only if they have the same hash, and for content certificates the key hash is right |
| VerifiedImage.SignedVerifies | signimage/source/sign/main/start.c:224-330 | insert header, sign, verify: accepted if and only if the certificate is a key certificate or the key hash handed over is that of the signing key, and the bytes at the start of the payload hash like the code; those are the same for every image that is not a packed modem |
| VerifiedImage.RehashedIsCode | signimage/source/sign/main/start.c:233-243 | the verifier hashes what the signer hashed if the image is not a packed modem or its code starts where the payload does |
| VerifiedImage.OtherByteHashed | signimage/source/sign/main/start.c:233-243 | a packed image, after any header, of which the signer hashes one byte and the verifier another |
| VerifiedImage.InsertSignVerify | signimage/source/common/verify/src/sprd_verify.c:170-182 | the three programs run one after the other on any file, with that verdict whenever the signer writes, and which it does exactly when the code is found inside the image |
| VerifiedImage.Chain | signimage/source/sign/main/start.c:257-330 | with one key directory the key hash in a first loader's certificate makes a trusted image verify, a second loader's a content image, exactly when the image's code is where the verifier looks |
| VerifiedImage.KeysChain | signimage/source/sign/main/start.c:257-330 | from loader to loader as well: the key hash in a first loader's certificate is the hash of the key in the certificate of a second loader or a trusted image, the one in a second loader's that of a content image |

## Left out

- Fft.FFT: exact arithmetic; rounding of `double` and the accuracy of the library's sine are not modelled.
- CwCapture.Capture.Take: the conversion of a line to a sample and the window are parameters; magnitudes, SNR and the report after the transform are not modelled, and the line counter is unbounded.
- Sha256Compress.Unrolled: sums are 32 bits wide, as the registers are; on a host with wider intermediate types the upper halves are cut off at the stores.
- Sha256.HashState.Done: messages of 2^64 bits and more are outside FIPS 180-4; the length counter wraps in the model as in the code.
- AtLineReader.Channel.ReadLine: NUL bytes are excluded; what old text behind a prompt turns into is not modelled.
- WorkQueue.Queue.Delete: nothing is said about `item_count`, and freed items are not modelled.
- AtFields.Uplink: what happens behind the end of the buffer is not modelled; longs have 64 bits.
- AtText.Downlink: what the code does with a report of exactly four fields, where it takes the length of a NULL string, is not specified; `AtText.DownlinkByFields` says which reports those are.
- AtText.FieldsReadBack: payloads are at most 8192 bytes, the handler's buffer.
- H4Receiver.Receiver.ParseFrame: what happens behind the end of the buffer is not modelled.
- DtbRegister.ChipsOf: the decompiler's output and its scan for the tag are a parameter: the ids found, in order.
- DtbTool.WriteImage: every write is taken to complete, and numbers are unbounded except where an entry is read back; the file is opened without being cut off, so an older, longer one keeps its tail behind the image, which the model does not show.
- DtbCombine.Combine: what the table of an output of 4 GiB or more says is left to `DtbCombine.EntryLeads`, entry by entry.
- SignedImage.SignImg: an image that ends within five bytes of its payload's start is taken as not packed; writes complete and key files are readable.
- VerifiedImage.VerifyCert: bytes outside the image or the recovered data give the verdict Unspecified, which is not acceptance; key lengths other than 2048 bits are covered by the verifier's model but made by no signer.
- SignedImage.Lawful: that hashes have 32 bytes and that public decryption undoes private encryption of every block is assumed here. `Sha256` proves the first; for `rsa.c` the second holds for the blocks that stay inside the arrays (`Rsa.SignAndRecover`) with the exponents of `RsaKeys.KeyPairOfPrimes`.
- ModExp.RsaTrans: the two temporaries are taken anew for every product; `ModExp.MulMod` shows that it does not matter what they hold.
- Rsa.PrvEnc: a modulus with a zero limb on top, which its bit length rules out, and a result with fewer limbs than the modulus, which leaves bytes unwritten, count as unspecified; number bytes are taken from a copy, which the code turns round in place and back.
- Rsa.PubDec: an input that is not below the modulus leaves the block unwritten and counts as unspecified.
- Key generation, primality, long division and the general product in `rsa.c`, and the debug certificates in `sprd_verify.c`.
- `DataSwap`, `FindMax` and the noise figures in `fft.c`.
- Threads, locks, timeouts and the request and response matching in `atc.c`.
- Files, sockets, terminals, mounts, properties and processes: only the bytes moved are modelled.
- The remaining libraries, patches and services of the repository, which are device glue or small tables.
