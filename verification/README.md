# Mbed TLS numbers, modes and codecs

A Dafny model of three parts of the Mbed TLS library, with proofs of what each part is for.

**Multi-precision integers.** `Mpis.Mpi` is a sign and a little-endian buffer of limbs; its meaning is sign times the
value of the limbs in base 2^32 or 2^64 (the width is a constant without a value, so everything holds for both). The
routines update these objects and the proofs go bottom-up: carries and borrows, schoolbook multiplication, shifts,
division of two limbs by one (algorithm D on half limbs), long division with quotient correction, Montgomery
multiplication, sliding-window exponentiation, binary gcd and modular inverse, and Miller-Rabin with Fermat's little
theorem proved from the binomial theorem. Numerals in radix 2 to 16 and big-endian byte strings are the two outside
forms.

**Block-cipher constructions.** A block function under a fixed key is any function on blocks; decryption results ask
for an inverse. XTS with ciphertext stealing, CBC behind the buffering layer with its paddings, CCM, ARIA and Camellia
with their reversed schedules, ChaCha20 with Poly1305, and CMAC. The streaming results hold for every cutting of the
input into calls.

**Codecs.** DER elements written backwards and read forwards, and base64 in two passes.

Layout: `Numbers`, `Digits`, `Bits`, `NumberTheory`, `Fermat`, `Blocks`, `Words` and `BigEndian` hold the arithmetic
and byte-string facts; every other module follows one source file or one part of it. Each routine of the source that
changes things in place is a method proved against a function of its inputs; what the routine promises is proved about
that function. Methods that only carry one loop or one step of a longer routine have their contracts in the files and
no row below.

Things the proofs brought out, each stated below as an exact condition or with the input that shows it:

- `mbedtls_mpi_gcd(A, 0)` gives 0.
- `mbedtls_mpi_mod_int` is right about all numbers exactly for divisors up to half a limb and powers of two.
- `mbedtls_mpi_exp_mod` with a negative base gives N instead of 0 when the exponent is odd and N divides the power.
- `aria_rot128` by a multiple of 32 is not a rotation; the schedule never asks for one.
- CCM formatting is not prefix-free for an empty tag, because the flags then no longer show the additional data. For
  all other inputs it is.
- Zero padding cannot be undone after a trailing zero byte, unless the message was whole blocks.
- `asn1_write_tagged_int` keeps only the low byte of a negative number; `mbedtls_asn1_write_mpi` drops the sign, and
  writes a zero with empty content unless its sign is positive and the byte behind the cursor is 80 or more.
- The DER parser takes length octets longer than needed.
- The base64 decoder takes texts that are not whole groups of four and drops the incomplete group.

The multiplication step MULADDC is taken as the exact two-limb step its callers rely on. Arguments the source calls
back for (random draws, the block function, the one-block ChaCha20 function, Poly1305, the callback of a traversal)
are parameters. Where a comment in the source and its code differ, the code is followed:

- `mbedtls/library/ccm.c:172` announces additional data shorter than 2^16 - 2^8; line 184 accepts that length too.
- `mbedtls/library/bignum.c:2192` and `:2262` speak of the powers wsize - 1 and wsize; the code squares that often.
- `mbedtls/library/bignum.c:2021` asks for a nonzero B; the reduction is right for zero as well.

## Model

| member | source | states |
|---|---|---|
| Mpis.Grow | mbedtls/library/bignum.c:121-146 | Growing pads with zero limbs; value and sign stay. |
| Mpis.Shrink | mbedtls/library/bignum.c:152-188 | Shrinking keeps every significant limb and never goes below the limbs asked for. |
| Mpis.Copy | mbedtls/library/bignum.c:193-230 | The copy has the value of the original, also when both are one object; the exact limb count that results. |
| Mpis.Swap | mbedtls/library/bignum.c:235-244 | Sign and limbs change places. |
| Mpis.Lset | mbedtls/library/bignum.c:332-346 | The number becomes z; higher limbs are cleared. |
| Mpis.CmpAbs | mbedtls/library/bignum.c:1104-1131 | The answer is the sign of the difference of the magnitudes. |
| Mpis.CmpMpi | mbedtls/library/bignum.c:1136-1166 | The answer is the sign of the difference of the values, so the two zeros compare equal. |
| Mpis.CmpInt | mbedtls/library/bignum.c:1272-1284 | Comparison with a machine word, as a sign of the difference. |
| MpiAdd.AddAbs | mbedtls/library/bignum.c:1289-1343 | The sum of the magnitudes, with X aliasing A, B or both; the carry loop grows the buffer when it has to. |
| MpiAdd.SubHlp | mbedtls/library/bignum.c:1360-1374 | Limb-wise subtraction: difference minus the borrow out times base^n. |
| MpiAdd.SubAbs | mbedtls/library/bignum.c:1379-1429 | The difference of the magnitudes, and NEGATIVE_VALUE exactly if it would be negative. |
| MpiAdd.AddMpi | mbedtls/library/bignum.c:1434-1464 | The exact signed sum under every aliasing of X, A and B. |
| MpiAdd.SubMpi | mbedtls/library/bignum.c:1469-1499 | The exact signed difference under every aliasing. |
| MpiAdd.AddInt | mbedtls/library/bignum.c:1504-1517 | Sum with a machine word. |
| MpiAdd.SubInt | mbedtls/library/bignum.c:1522-1535 | Difference with a machine word. |
| MpiMul.MulHlp | mbedtls/library/bignum.c:1548-1607 | d += b * s * base^off; the carry loop without bound stops inside d whenever the sum fits in d. |
| MpiMul.MulMpi | mbedtls/library/bignum.c:1612-1647 | value(X) = value(A) * value(B) for all signs, with X aliasing A or B; the carries of every row end inside the i + j limbs. |
| MpiMul.MulInt | mbedtls/library/bignum.c:1652-1665 | Product with a limb. |
| MpiShift.BitlenOf | mbedtls/library/bignum.c:431-445 | The number of bits in the binary form of the magnitude. |
| MpiShift.SizeOf | mbedtls/library/bignum.c:450-453 | The number of bytes those bits need. |
| MpiShift.Lsb | mbedtls/library/bignum.c:397-408 | The magnitude is an odd number times 2 to the result. |
| MpiShift.ShiftL | mbedtls/library/bignum.c:1009-1055 | Multiplication by a power of two, and the limb count that results: nothing is lost. |
| MpiShift.ShiftR | mbedtls/library/bignum.c:1060-1099 | Division by a power of two, rounded down. |
| IntDiv.CorrectedDigit | mbedtls/library/bignum.c:1731-1752 | Algorithm D: the corrected estimate is the exact quotient digit, after at most two corrections, with every wrapped product and difference justified. |
| IntDiv.DivHalves | mbedtls/library/bignum.c:1671-1761 | The half-limb path gives the exact quotient and remainder of u1 * base + u0 by d whenever u1 < d, and all ones otherwise. |
| IntDiv.DivDouble | mbedtls/library/bignum.c:1671-1705 | The double-width path has the same specification as the half-limb path, so the two agree. |
| MpiDiv.AtMostOneTooLarge | mbedtls/library/bignum.c:1829-1851 | An estimate that passes the three-by-two-limb comparison is at most one above the true digit, though the divisor is normalised one bit short of full. |
| MpiDiv.DigitPassesTest | mbedtls/library/bignum.c:1841-1851 | The true digit always passes that comparison, so the correction never goes below it. |
| MpiDiv.CorrectEstimate | mbedtls/library/bignum.c:1837-1851 | The correction loop ends with the true digit or one more. |
| MpiDiv.AddBack | mbedtls/library/bignum.c:1857-1863 | One addition of the shifted divisor repairs an estimate that was one too large. |
| MpiDiv.DivideRound | mbedtls/library/bignum.c:1827-1864 | One round: the digit stored is the true one, and old X = digit * shifted Y + new X with new X below shifted Y. |
| MpiDiv.DivMpi | mbedtls/library/bignum.c:1766-1889 | Q and R are the truncated quotient and the remainder with the sign of A, under the aliasing the source allows; division by zero is an error that changes nothing. |
| MpiDiv.DivisionLaw | mbedtls/library/bignum.c:1763-1889 | A = Q * B + R, |R| < |B|, R has the sign of A. |
| MpiDiv.DivInt | mbedtls/library/bignum.c:1894-1908 | The same for a machine-word divisor. |
| MpiDiv.ModMpi | mbedtls/library/bignum.c:1913-1934 | R = A mod B in [0, B) for positive B; the errors for zero and negative B. |
| MpiModInt.ModInt | mbedtls/library/bignum.c:1939-1993 | A mod b for every divisor for which shifting in half limbs is exact; for the others, what the loop computes. |
| MpiModInt.RightExactly | mbedtls/library/bignum.c:1970-1981 | The loop is right about every number if and only if b is at most 2^biH or divides the base. |
| MpiModInt.LostCarry | mbedtls/library/bignum.c:1970-1981 | For every other divisor: the number 2^biH * base, whose remainder the loop reports as zero. |
| Montgomery.NewtonStep | mbedtls/library/bignum.c:2006-2007 | x becomes x(2 - mx): the inverse modulo n becomes one modulo n squared. |
| Montgomery.MontgInit | mbedtls/library/bignum.c:1998-2010 | mm * N = -1 modulo the base, for every odd N, with all products wrapping. |
| Montgomery.StaysBelow | mbedtls/library/bignum.c:2046-2058 | The running value stays below B + N from round to round. |
| Montgomery.MontStep | mbedtls/library/bignum.c:2046-2058 | One round divides exactly by the base after clearing the low limb, inside the limbs of T. |
| Montgomery.SafeCondAssign | mbedtls/library/bignum.c:252-260 | The masked copy is a conditional assignment. |
| Montgomery.FinalReduce | mbedtls/library/bignum.c:2060-2078 | The selector is 0 or 1 and picks the value reduced once by N exactly if it is not below N. |
| Montgomery.MontMul | mbedtls/library/bignum.c:2034-2079 | A * B * R^-1 mod N, fully reduced, for any A of n limbs and any B up to N. |
| Montgomery.MontRed | mbedtls/library/bignum.c:2086-2096 | A * R^-1 mod N, fully reduced. |
| ExpMod.SquaredRadix | mbedtls/library/bignum.c:2158-2171 | R^2 mod N, freshly computed or out of the cache: the same number both ways, and the cache is filled for next time. |
| ExpMod.BuildTable | mbedtls/library/bignum.c:2189-2212 | W[1] and every W[i] of the upper half hold A^i * R mod N; these are the entries that get read. |
| ExpMod.ScanExponent | mbedtls/library/bignum.c:2214-2276 | The accumulator always holds A to the exponent bits consumed, times R mod N; window entries read are initialised. |
| ExpMod.FinishBits | mbedtls/library/bignum.c:2278-2289 | The bits left over after the last full window are taken one by one. |
| ExpMod.PowerOfNonnegative | mbedtls/library/bignum.c:2173-2294 | A^E mod N in [0, N) for a base with positive sign. |
| ExpMod.ExpModMpi | mbedtls/library/bignum.c:2101-2313 | For odd N > 0 and E >= 0, with and without a cached R^2: X is congruent to the power of the signed base and lies in [0, N], and is N exactly if the base has a negative sign, E is odd and N divides the power; bad input otherwise. |
| ExpMod.ExpectedIs | mbedtls/library/bignum.c:2296-2300 | The value the routine is specified to return is congruent to the power, lies in [0, N], and is N in exactly that case. |
| ExpMod.NegativeBase | mbedtls/library/bignum.c:2296-2300 | An odd power of a negative base: N - x is the residue, except that 0 becomes N. |
| MpiGcd.GcdMpi | mbedtls/library/bignum.c:2318-2369 | G is the greatest common divisor for a nonzero second argument and 0 for a zero one, with every aliasing. |
| MpiGcd.GcdCorrectExactly | mbedtls/library/bignum.c:2344-2362 | So the result is the greatest common divisor if and only if B is nonzero or A is zero. |
| MpiGcd.GcdRound | mbedtls/library/bignum.c:2346-2358 | One round keeps the common divisors of odd numbers and makes TA + TB smaller. |
| MpiGcd.HalveWhileEven | mbedtls/library/bignum.c:2446-2458 | Every halving keeps U1 * TA + U2 * TB = TU, for even and odd moduli. |
| MpiGcd.SubtractRow | mbedtls/library/bignum.c:2474-2485 | Every subtraction keeps the combination. |
| MpiGcd.InverseLoop | mbedtls/library/bignum.c:2444-2487 | The loop ends with V1 * TA + V2 * TB = 1 for coprime numbers. |
| MpiGcd.InvModMpi | mbedtls/library/bignum.c:2411-2504 | X * A = 1 mod N with 0 <= X < N exactly if gcd(A, N) = 1; NOT_ACCEPTABLE otherwise, BAD_INPUT for N <= 1, and X unchanged on errors. |
| MpiGcd.InverseNeedsCoprime | mbedtls/library/bignum.c:2426-2432 | No inverse exists in the rejected case. |
| MpiGcd.InverseUnique | mbedtls/library/bignum.c:2489-2495 | The inverse in [0, N) is unique. |
| Fermat.LittleTheorem | mbedtls/library/bignum.c:2616-2648 | a^(p-1) = 1 mod p for prime p, by way of the binomial theorem. |
| Fermat.SquareRootsOfOne | mbedtls/library/bignum.c:2625-2638 | Modulo a prime only 1 and -1 have square 1. |
| MillerRabin.PrimePasses | mbedtls/library/bignum.c:2616-2648 | Every base below a prime passes the witness test. |
| MillerRabin.DrawBase | mbedtls/library/bignum.c:2595-2614 | The base taken is the masked draw and lies strictly between 1 and X - 1; giving up means 31 unusable draws in a row. |
| MillerRabin.FitsExactly | mbedtls/library/bignum.c:2602-2606 | The shift count of the mask is not negative if and only if the candidate has no zero limbs on top. |
| MillerRabin.Round | mbedtls/library/bignum.c:2616-2648 | One round accepts exactly if the base to the power X - 1 is 1 and every element of the chain of squares whose square is 1 is itself 1 or -1. |
| MillerRabin.StrongExactly | mbedtls/library/bignum.c:2616-2648 | The strong test means just that: the power is 1 and the chain of squares meets no square root of 1 but 1 and -1. |
| MillerRabin.FactorFails | mbedtls/library/bignum.c:2616-2648 | A base that shares a factor with the number never passes. |
| MillerRabin.Decompose | mbedtls/library/bignum.c:2584-2591 | X - 1 = 2^s * r with r odd. |
| MillerRabin.Test | mbedtls/library/bignum.c:2569-2657 | Acceptance means the number of rounds was done, every base to the power X - 1 was 1 and no base led to a square root of 1 but 1 and -1, nor shared a factor with X; rejection means a witness or a starved generator. |
| MillerRabin.TestPrime | mbedtls/library/bignum.c:2569-2657 | A prime is never rejected for any base drawn in any round; only starvation can reject it. |
| MillerRabin.CheckSmallFactors | mbedtls/library/bignum.c:2542-2564 | No prime is rejected, and with a table of all odd primes up to its last entry a certain answer is a prime; otherwise no entry divides the number. |
| MillerRabin.LargerPrime | mbedtls/library/bignum.c:2551-2560 | With such a table, an odd number below the square of the last entry that no entry divides is a prime. |
| MillerRabin.IsPrimeExt | mbedtls/library/bignum.c:2662-2691 | Every prime is accepted unless 31 draws in a row are unusable. With such a table the answer is exact up to the last entry, and below its square only primes are accepted. |
| MpiString.ReadString | mbedtls/library/bignum.c:475-544 | The value of a numeral in radix 2 to 16, and an error for exactly the strings that are none. |
| MpiString.ReadHex | mbedtls/library/bignum.c:491-512 | The radix-16 path puts the digits into limbs from the end. |
| MpiString.DigitsAre | mbedtls/library/bignum.c:458-470 | The digits are 0 to 9 and A to F, read in either case and written in capitals; no other character is one. |
| MpiString.MagnitudeCons | mbedtls/library/bignum.c:521-530 | A digit in front weighs the radix to the number of digits behind it. |
| MpiString.WriteHlp | mbedtls/library/bignum.c:549-583 | Digits from the end by repeated division: the right numeral without leading zeros, or the buffer was too small for it. |
| MpiString.WriteHex | mbedtls/library/bignum.c:632-651 | The radix-16 path writes whole bytes without leading zero bytes. |
| MpiString.WriteString | mbedtls/library/bignum.c:588-670 | The text is a numeral of the value, ends in a zero character and always fits the size computed beforehand; a smaller buffer is refused and the size reported. |
| MpiString.SpaceCovers | mbedtls/library/bignum.c:602-615 | The size computed leaves room for sign, digits and terminator in radices below 16. |
| MpiString.SpaceIs | mbedtls/library/bignum.c:602-615 | It is even, and three or four more than the bits divided by 1, 2 or 4. |
| MpiString.SpaceCoversHex | mbedtls/library/bignum.c:602-615 | In radix 16 as well, and tightly for bit lengths of 8k + 1. |
| MpiString.RoundTrip | mbedtls/library/bignum.c:475-670 | Reading what was written gives the number back, in every radix. |
| MpiBinary.ReadBinary | mbedtls/library/bignum.c:882-919 | The magnitude the bytes stand for, through padding to whole limbs and swapping bytes and limbs in place. |
| MpiBinary.BigEndianToHost | mbedtls/library/bignum.c:759-772 | Swapping the bytes of one limb. |
| MpiBinary.BigEndianLimbs | mbedtls/library/bignum.c:817-844 | Exchanging limbs from both ends while swapping their bytes. |
| MpiBinary.WriteBinary | mbedtls/library/bignum.c:963-1004 | The magnitude in exactly the bytes given, zeros in front; failure exactly if it does not fit, and then nothing is written. |
| MpiBinary.RoundTrip | mbedtls/library/bignum.c:882-1004 | Reading what was written gives the magnitude. |
| Xts.TimesXCoeff | mbedtls/library/aes.c:1178-1191 | The doubling step is multiplication by x modulo x^128 + x^7 + x^2 + x + 1 (section 5.2 of IEEE Std 1619-2007), coefficient by coefficient. |
| Xts.CoeffsDecide | mbedtls/library/aes.c:1178-1191 | A block is determined by its coefficients, so the former is a full specification. |
| Xts.Gf128MulX | mbedtls/library/aes.c:1178-1191 | The two 64-bit words with carry and conditional xor compute that product. |
| Xts.StealRoundTrip | mbedtls/library/aes.c:1231-1297 | Ciphertext stealing with the last two tweaks exchanged is undone by the decrypting side. |
| Xts.RoundTrip | mbedtls/library/aes.c:1196-1300 | Decryption undoes encryption for every length from 16 bytes on, over any invertible block function. |
| Xts.CryptXts | mbedtls/library/aes.c:1196-1300 | The first tweak is the encrypted data unit number and each next one x times it, by coefficients; every block is masked with its own tweak before and after the block function; a partial block is stolen for with the last two tweaks in order, or exchanged to decrypt. In place too when there is no partial block; lengths below 16 or above 2^24 are refused. |
| Xts.XtsIsDataUnit | mbedtls/library/aes.c:1225-1297 | The definition the round trips are about is this account of a data unit, block by block. |
| CbcMode.CryptCbc | mbedtls/library/aes.c:1068-1134 | CBC in both directions and in place, with the chaining value left for the next call; lengths that are not whole blocks are refused. |
| CbcMode.CbcAt | mbedtls/library/aes.c:1100-1131 | Each block is the block function of data and the ciphertext block before it, or to decrypt the block function and then the ciphertext before it, the initial value before the first. |
| CbcMode.ChainLast | mbedtls/library/aes.c:1100-1131 | The chaining value left is the last block of ciphertext. |
| CbcMode.CbcRoundTrip | mbedtls/library/aes.c:1068-1134 | CBC decryption undoes CBC encryption. |
| CbcMode.CbcConcat | mbedtls/library/aes.c:1068-1134 | Two calls in a row are one call on the concatenation. |
| Aria.AriaA | mbedtls/library/aria.c:207-229 | The word-level diffusion is the 16-by-16 binary matrix of section 2.4.3 of RFC 5794. |
| Aria.DiffusedBytes | mbedtls/library/aria.c:207-229 | Its sixteen rows are the sixteen equations of that section. |
| Aria.DiffusedTwice | mbedtls/library/aria.c:207-229 | That matrix is its own inverse. |
| Aria.DiffusedLinear | mbedtls/library/aria.c:207-229 | It is linear over xor. |
| Aria.AriaSl | mbedtls/library/aria.c:239-260 | The substitution layer looks up every byte in its table. |
| Aria.SubstituteBytes | mbedtls/library/aria.c:239-260 | Each of the four tables meets every fourth byte of the state. |
| Aria.SubLayerInverse | mbedtls/library/aria.c:239-260 | The two substitution layers undo each other, given tables that do. |
| Aria.RoundTrip | mbedtls/library/aria.c:545-597 | Encryption under the transformed round keys undoes encryption, for any round keys and any even number of rounds. |
| Aria.AriaContext.CryptEcb | mbedtls/library/aria.c:545-597 | The round loop with its merged last rounds computes the cipher of section 2.3 of RFC 5794: keys, tables and diffusion in each round, the tables of odd and even rounds different, and keys, tables and keys in the last. |
| Aria.AriaContext.DiffuseInner | mbedtls/library/aria.c:532-537 | The inner round keys are diffused in place, the outer two untouched. |
| Aria.AriaContext.FlipKeys | mbedtls/library/aria.c:521-537 | Reversing in place and diffusing gives the decryption schedule. |
| AriaKeys.Rot128 | mbedtls/library/aria.c:419-440 | The word loop computes a xor the turned b. |
| AriaKeys.RotationExactly | mbedtls/library/aria.c:425-435 | What it computes is the 128-bit rotation if and only if n is not a multiple of 32 or all words of b are equal. |
| AriaKeys.RotatedRotates | mbedtls/library/aria.c:425-439 | For any other amount the words computed are the 128-bit rotation by it. |
| AriaKeys.AmountsRotate | mbedtls/library/aria.c:491-499 | Every amount the key schedule uses is such an amount. |
| AriaKeys.KeyWords | mbedtls/library/aria.c:464-489 | The four key words of section 2.2 of RFC 5794, each from the one before through layer and diffusion with a constant the key size selects. |
| AriaKeys.ConstantBytes | mbedtls/library/aria.c:449-454 | The masks hold the bytes of the constants C1, C2 and C3 of that section. |
| AriaKeys.KeyRightBytes | mbedtls/library/aria.c:470-480 | The second half is the rest of the key and zeros. |
| AriaKeys.SetkeyEnc | mbedtls/library/aria.c:445-505 | On 128-bit numbers the round keys are the key words xored with the next one turned by 19 and 31 to the right, 61, 31 and 19 to the left, for 12, 14 or 16 rounds by key size; other sizes are refused. |
| AriaKeys.SetkeyDec | mbedtls/library/aria.c:510-540 | The decryption schedule is the transformed encryption schedule. |
| AriaKeys.EncryptDecrypt | mbedtls/library/aria.c:445-597 | For every key size, key and block: the decryption context undoes the encryption context. |
| Camellia.FLRoundTrip | mbedtls/library/camellia.c:274-284 | FL and its inverse layer undo each other under any subkey. |
| Camellia.LayersOnWords | mbedtls/library/camellia.c:274-284 | The layers are those of section 2.4.2 of RFC 3713: a masked word turned by one bit, and an or. |
| Camellia.FBytes | mbedtls/library/camellia.c:303-326 | The round function is that of section 2.4.1 of RFC 3713, byte by byte: which table each byte goes through, and which are summed into each byte of the result. |
| Camellia.Feistel | mbedtls/library/camellia.c:303-326 | One round on two words of the state, in place. |
| Camellia.CamelliaContext.CryptEcb | mbedtls/library/camellia.c:505-567 | Whitening, rounds on the halves in turn with FL on the left and its inverse on the right half after every six, the final swap and whitening: the cipher of section 2.3 of RFC 3713 as one walk along the subkeys. |
| Camellia.CamelliaContext.ReverseFrom | mbedtls/library/camellia.c:475-494 | Copying the encryption schedule backwards gives the subkeys in reverse order with whitening keys exchanged. |
| Camellia.RunBack | mbedtls/library/camellia.c:528-564 | Walking the reversed subkeys undoes the walk step by step. |
| Camellia.RoundTrip | mbedtls/library/camellia.c:505-567 | The cipher under a reversed schedule undoes the cipher, for any subkeys, any substitution tables and any number of groups. |
| Camellia.EncryptDecrypt | mbedtls/library/camellia.c:454-567 | A context reversed from an encryption context decrypts what that one encrypts. |
| Paddings.GetPkcs | mbedtls/library/cipher.c:765-788 | Accepts exactly the blocks that are PKCS7 padded (section 6.3 of RFC 5652), and finds the data length. |
| Paddings.GetOneAndZeros | mbedtls/library/cipher.c:806-827 | Accepts exactly the blocks padded with 80 00 ... 00, and finds the data length. |
| Paddings.GetZerosAndLen | mbedtls/library/cipher.c:845-867 | Accepts exactly the blocks padded with zeros and a length, and finds the data length. |
| Paddings.GetZeroFill | mbedtls/library/cipher.c:883-901 | The data length is what is left without trailing zeros. |
| Paddings.PadsAtOnce | mbedtls/library/cipher.c:755-867 | A block is padded in one way only, for the three reversible paddings. |
| Paddings.ZeroFillExactly | mbedtls/library/cipher.c:874-901 | Zero padding is undone if and only if the data is empty or does not end in a zero byte. |
| Paddings.AddPkcs | mbedtls/library/cipher.c:755-763 | Fills the block with PKCS7 padding behind the data. |
| Paddings.AddOneAndZeros | mbedtls/library/cipher.c:795-804 | Fills the block with a one bit and zeros behind the data. |
| Paddings.AddZerosAndLen | mbedtls/library/cipher.c:834-843 | Fills the block with zeros and the padding length behind the data. |
| Paddings.AddZeroFill | mbedtls/library/cipher.c:874-881 | Fills the block with zeros behind the data. |
| Paddings.PaddedBytes | mbedtls/library/cipher.c:755-881 | What the four paddings put behind the data, byte by byte. |
| CipherLayer.CipherContext.Update | mbedtls/library/cipher.c:569-661 | The unprocessed bytes, the chaining value and all output so far are what the whole input fed so far determines, however it was cut; the errors change nothing. |
| CipherLayer.CipherContext.Finish | mbedtls/library/cipher.c:967-1014 | The last block: padded and encrypted, or decrypted and its padding removed; with no padding only whole messages are accepted. |
| CipherLayer.StateExtends | mbedtls/library/cipher.c:575-661 | The state after two calls is the state after one call with both inputs. |
| CipherLayer.EncryptMessage | mbedtls/library/cipher.c:575-661 | For any cutting of a message, the outputs together are one CBC encryption of the padded message; without padding, of the message itself if it is whole blocks, and an error otherwise. |
| CipherLayer.DecryptMessage | mbedtls/library/cipher.c:575-661 | For any cutting of a ciphertext, the outputs are its CBC decryption without the padding, if there is one; which error is reported when. |
| CipherLayer.PaddingRoundTrip | mbedtls/library/cipher.c:967-1014 | Removing the padding of a padded message gives the message. |
| CipherLayer.ZeroFillRoundTrip | mbedtls/library/cipher.c:967-1014 | With zero padding it does if and only if the message is whole blocks or does not end in a zero byte. |
| CipherLayer.RoundTrip | mbedtls/library/cipher.c:575-1014 | Encrypting in any pieces and decrypting in any other pieces gives the message: always for the three reversible paddings, exactly if zero padding can be undone for that one, and for whole blocks without padding. |
| CipherLayer.BackExactly | mbedtls/library/cipher.c:967-1014 | Which padded messages come back, for every padding. |
| Ccm.PrefixFree | mbedtls/library/ccm.c:201-251 | Formatted blocks of two inputs are a prefix of one another only if the inputs are equal (appendix A of NIST SP 800-38C), for all nonces, lengths and tag lengths except one confusable kind of pair. |
| Ccm.NotPrefixFreeWithoutTag | mbedtls/library/ccm.c:201-251 | With tag length zero, which the star variant allows, it fails: for every nonce and every nonempty additional data there are two such messages. |
| Ccm.PrefixFreeExactly | mbedtls/library/ccm.c:201-251 | Two messages whose formatting clashes exist if and only if both tags are empty, the nonces equal, and only the second input has additional data. |
| Ccm.FlagsInjective | mbedtls/library/ccm.c:201-204 | With nonempty tags the flags byte determines tag length, presence of additional data and length of the length field. |
| Ccm.EmptyTagTold | mbedtls/library/ccm.c:201-204 | The flags of an empty tag differ from all others and still determine the length field. |
| Ccm.FlagsNumber | mbedtls/library/ccm.c:186-204 | The flags are 64 for additional data, 8 times half the tag length less one, and the field length less one; an empty tag gives 248 and the field length less one. |
| Ccm.FormatLayout | mbedtls/library/ccm.c:186-251 | Where nonce, lengths, additional data, message and zeros stand in the formatted blocks (section A.2 of NIST SP 800-38C). |
| Ccm.WriteFirst | mbedtls/library/ccm.c:201-212 | The first block, and the check that the message length fits its field. |
| Ccm.NextCounter | mbedtls/library/ccm.c:302-308 | Counting up byte by byte is adding one modulo 256^q, with the nonce untouched. |
| Ccm.CtrDistinct | mbedtls/library/ccm.c:263-308 | Different counts give different counter blocks. |
| Ccm.CounterFlags | mbedtls/library/ccm.c:254-266 | The first byte of a counter block has its five upper bits clear and the three lower ones of the flags. |
| Ccm.CountersNeverRepeat | mbedtls/library/ccm.c:263-317 | Within one call no counter block is used twice, that of the tag included. |
| Ccm.AuthAdd | mbedtls/library/ccm.c:219-251 | The additional data goes into the MAC with its length in front and zeros behind, block by block. |
| Ccm.CryptMessage | mbedtls/library/ccm.c:274-309 | Encrypting or decrypting while authenticating the plaintext, with a partial last block. |
| Ccm.MacStep | mbedtls/library/ccm.c:126-131 | One block more in the CBC-MAC: the block function of the value so far xored with the block. |
| Ccm.AuthCrypt | mbedtls/library/ccm.c:154-321 | Byte k of the output is byte k of the input xored with byte k mod 16 of the block function of the byte 14 less the nonce length, the nonce and the count 1 + k / 16; the tag is the MAC of the formatted plaintext xored with the block of count 0; accepted exactly for the lengths stated. |
| Ccm.EncryptAndTag | mbedtls/library/ccm.c:326-359 | The two encrypting entries: only the star one allows an empty tag. |
| Ccm.AuthDecrypt | mbedtls/library/ccm.c:364-420 | Success exactly if the tag is the right one for the decrypted data, which is then the output; otherwise the output is cleared. |
| Ccm.SealOpen | mbedtls/library/ccm.c:326-420 | Decrypting what was encrypted succeeds and gives the plaintext. |
| ChaCha20.StreamedBytes | mbedtls/library/chacha20.c:256-319 | Each byte is xored with one of the key stream block its position lies in; the block counter wraps at 2^32. |
| ChaCha20.StreamedConcat | mbedtls/library/chacha20.c:256-319 | The keystream of a whole is the keystreams of its parts. |
| ChaCha20.StreamedTwice | mbedtls/library/chacha20.c:256-319 | Applying the keystream twice gives the data. |
| ChaCha20.ChaCha20Context.Starts | mbedtls/library/chacha20.c:233-254 | The keystream begins at the counter given, nothing of it used. |
| ChaCha20.ChaCha20Context.Update | mbedtls/library/chacha20.c:256-319 | However the data is cut, byte i is xored with byte i of the one keystream; left-over keystream is used first; the 32-bit counter wraps. |
| ChaChaPoly.ChaChaPolyContext.Starts | mbedtls/library/chachapoly.c:135-173 | The one-time key is the first 32 bytes of the keystream at counter 0; data begins at counter 1. |
| ChaChaPoly.ChaChaPolyContext.UpdateAad | mbedtls/library/chachapoly.c:175-188 | Additional data is accepted before any other data only. |
| ChaChaPoly.ChaChaPolyContext.Update | mbedtls/library/chachapoly.c:190-239 | Data is streamed on from counter 1 and its ciphertext authenticated after the padded additional data; refused outside the two phases. |
| ChaChaPoly.ChaChaPolyContext.Finish | mbedtls/library/chachapoly.c:241-296 | The tag is that of aad, pad16, ciphertext, pad16 and the two lengths (section 2.8 of RFC 7539), for every way the calls were cut. |
| ChaChaPoly.LengthBytesLE | mbedtls/library/chachapoly.c:272-287 | The sixteen shifted bytes are the two lengths in little-endian order. |
| ChaChaPoly.MacInputLayout | mbedtls/library/chachapoly.c:241-296 | Where additional data, ciphertext, zeros and the two lengths stand in the string the authenticator is given. |
| ChaChaPoly.CryptAndTag | mbedtls/library/chachapoly.c:298-326 | The one-call form has the same output and tag; byte i meets byte i mod 64 of the key stream block with counter 1 + i / 64, and the one-time key is the first half of block 0. |
| ChaChaPoly.AuthDecrypt | mbedtls/library/chachapoly.c:349-387 | Success exactly if the tag is right; otherwise the output is cleared. |
| ChaChaPoly.SealOpen | mbedtls/library/chachapoly.c:135-387 | Sealing in pieces and opening in one call gives the plaintext, for any block function and any authenticator. |
| Cmac.TimesUCoeff | mbedtls/library/cmac.c:84-130 | Doubling is multiplication by u in GF(2^128) or GF(2^64), coefficient by coefficient (section 2.3 of RFC 4493). |
| Cmac.MultiplyByU | mbedtls/library/cmac.c:84-130 | The byte loop with its overflow mask computes it; other block sizes are refused. |
| Cmac.CmacContext.Subkeys | mbedtls/library/cmac.c:137-165 | Both subkeys, out of the encrypted zero block. |
| Cmac.KeysCoeff | mbedtls/library/cmac.c:137-165 | The first subkey is u times the encrypted zero block and the second u times the first, coefficient by coefficient. |
| Cmac.Pad | mbedtls/library/cmac.c:185-201 | The last block with a one bit and zeros. |
| Cmac.CmacContext.Update | mbedtls/library/cmac.c:243-309 | State and held bytes are what the whole message so far determines, however it was cut; a full last block stays held. |
| Cmac.HoldsExtends | mbedtls/library/cmac.c:243-309 | Two updates are one update with both inputs. |
| Cmac.CmacContext.Finish | mbedtls/library/cmac.c:311-370 | The tag is the CMAC of the whole message (section 2.4 of RFC 4493), and the context is ready for another. |
| Cmac.MacParts | mbedtls/library/cmac.c:311-370 | The steps of that section: which blocks are chained, what the last one is padded with and which subkey masks it. |
| Cmac.CmacContext.Reset | mbedtls/library/cmac.c:372-389 | Nothing of an earlier message is left. |
| Cmac.MacOf | mbedtls/library/cmac.c:203-370 | For any cutting of a message the result is the MAC of the whole. |
| DerWrite.WriteLen | mbedtls/library/asn1write.c:43-105 | The length octets of sections 8.1.3 and 10.1 of X.690 in front of the cursor, or too small a buffer; lengths of 2^32 and more are refused. |
| Der.LengthOctets | mbedtls/library/asn1write.c:43-105 | The octets are those of sections 8.1.3 and 10.1 of X.690: one up to 127, above that a count and the length without a leading zero. |
| DerWrite.WriteTag | mbedtls/library/asn1write.c:107-115 | One tag byte. |
| DerWrite.WriteRawBuffer | mbedtls/library/asn1write.c:117-130 | The bytes in front of the cursor; the result is their number cast to int. |
| DerWrite.WriteNull | mbedtls/library/asn1write.c:170-181 | A NULL element. |
| DerWrite.WriteTagged | mbedtls/library/asn1write.c:274-287 | An element around given content; too small a buffer exactly if the whole element does not fit. |
| DerWrite.WriteOid | mbedtls/library/asn1write.c:183-195 | An OBJECT IDENTIFIER element. |
| DerWrite.WriteAlgorithmIdentifier | mbedtls/library/asn1write.c:197-216 | Identifier and NULL parameters, or the header of an identifier whose parameters already stand behind the cursor; the result counts them. |
| DerWrite.HeaderThenParams | mbedtls/library/asn1write.c:197-216 | That header followed by the parameters is the whole encoding. |
| Der.LenRead | mbedtls/library/asn1parse.c:51-107 | The length octets written for a length are read as that length, whatever follows. |
| Der.ElementRead | mbedtls/library/asn1parse.c:109-122 | An element written is the element found, with exactly its content. |
| Der.TruncatedElement | mbedtls/library/asn1parse.c:51-122 | An element cut short anywhere is reported as out of data. |
| Der.MinimalExactly | mbedtls/library/asn1parse.c:51-107 | The parser takes longer length forms too; what it takes is what is written if and only if the octets are a short form, 81 with 80 or more behind, or a longer form whose first digit is not zero. |
| Der.PaddedLengthAccepted | mbedtls/library/asn1parse.c:64-70 | One such length: 81 01. |
| DerParse.GetLen | mbedtls/library/asn1parse.c:51-107 | Length, cursor and error code for every input. |
| DerParse.GetTag | mbedtls/library/asn1parse.c:109-122 | The same with a tag in front. |
| DerSequence.TraverseSequenceOf | mbedtls/library/asn1parse.c:254-300 | The calls made, the error and the cursor for every input, masks and callback; it always ends. |
| DerSequence.ListVisited | mbedtls/library/asn1parse.c:254-300 | A written list: items are taken in order until a tag is not accepted or the callback objects. |
| DerSequence.AllTaken | mbedtls/library/asn1parse.c:276-297 | Items with accepted tags are reported once each, in order. |
| DerSequence.PlacesHold | mbedtls/library/asn1parse.c:276-297 | Each report points at the content of its item. |
| DerSequence.SuccessTiles | mbedtls/library/asn1parse.c:276-297 | On any input: success with everything reported means the elements fill the bytes without gap or overlap. |
| DerSequence.GetSequenceOf | mbedtls/library/asn1parse.c:373-383 | Succeeds exactly on lists of elements with the tag, and returns those elements. |
| DerSequence.WholeListVisited | mbedtls/library/asn1parse.c:373-383 | A written list of one kind of element comes back whole. |
| DerSequence.GetAlg | mbedtls/library/asn1parse.c:385-427 | Identifier and parameters, or the error, for every input. |
| DerSequence.GetAlgNull | mbedtls/library/asn1parse.c:429-445 | Parameters other than NULL or none are refused. |
| DerSequence.AlgRead | mbedtls/library/asn1parse.c:385-427 | An identifier written is read as the same identifier and the same parameter element. |
| DerSequence.AlgRoundTrip | mbedtls/library/asn1write.c:197-216 | Writing with NULL parameters and reading: the same identifier, and as many bytes read as written. |
| DerNumbers.WriteTaggedInt | mbedtls/library/asn1write.c:235-262 | The digits of an int with a zero in front if the top bit is set; of a negative int only the low byte. |
| DerNumbers.IntShortest | mbedtls/library/asn1write.c:235-262 | The content holds the int, or the low byte of a negative one, with a clear top bit and no needless zero. |
| DerNumbers.GetTaggedInt | mbedtls/library/asn1parse.c:143-185 | Succeeds exactly on content that is not empty, has a clear top bit and is below 2^31, and gives its value. |
| DerNumbers.IntRead | mbedtls/library/asn1write.c:235-262 | An int written is read as the same int if and only if it is not negative. |
| DerNumbers.IntRoundTrip | mbedtls/library/asn1parse.c:143-185 | The whole way through a buffer, with as many bytes read as written. |
| DerNumbers.WriteMpi | mbedtls/library/asn1write.c:133-167 | Magnitude with a zero in front of a positive number whose top bit is set; for zero the byte behind the cursor decides. |
| DerNumbers.MpiShortest | mbedtls/library/asn1write.c:133-160 | The content holds the magnitude, with a zero in front only to keep a positive number from reading as negative. |
| DerNumbers.GetMpi | mbedtls/library/asn1parse.c:202-217 | The magnitude the content stands for. |
| DerNumbers.MpiRoundTrip | mbedtls/library/asn1parse.c:202-217 | Reading back gives the magnitude, so the number itself if and only if it is not negative. |
| DerNumbers.EmptyExactly | mbedtls/library/asn1write.c:133-160 | The content is empty if and only if the number is zero, unless its sign is positive and the byte behind the cursor is 80 or more. |
| DerNumbers.NativeExactly | mbedtls/library/asn1parse.c:143-185 | The parser for native integers takes what was written for a multi-precision one if and only if it fits, is no empty zero, and a magnitude that fills its top byte has a positive sign. |
| DerBits.WriteBitstring | mbedtls/library/asn1write.c:350-381 | The count of unused bits and the bits, the unused ones cleared. |
| DerBits.WriteNamedBitstring | mbedtls/library/asn1write.c:307-348 | The same without trailing zero bits. |
| DerBits.NamedCanonical | mbedtls/library/asn1write.c:307-348 | Two named bit lists have the same encoding if and only if the same bits are set. |
| DerBits.GetBitstring | mbedtls/library/asn1parse.c:220-248 | Unused bits and bytes, or the error; the element has to reach to the end. |
| DerBits.BitsRoundTrip | mbedtls/library/asn1parse.c:220-248 | As many bits read as written and each the same, zeros where none is used. |
| Base64.Encode | mbedtls/library/base64.c:77-139 | The encoding and a terminator, or the size needed, which saturates at the largest size_t. |
| Base64.EncMapIsAlphabet | mbedtls/library/base64.c:44-53 | The table is the alphabet of table 1 of RFC 4648. |
| Base64.FourNumber | mbedtls/library/base64.c:114-117 | Four characters stand for the 24 bits of three bytes, six at a time and most significant first. |
| Base64Decode.FirstPass | mbedtls/library/base64.c:151-187 | Accepts exactly the valid texts: spaces before line ends only, no lone carriage return, digits and then at most two padding characters. |
| Base64Decode.SecondPass | mbedtls/library/base64.c:208-225 | The bytes of the whole groups of four, with a 32-bit accumulator that is never cleared. |
| Base64Decode.Decode | mbedtls/library/base64.c:144-228 | Refuses exactly invalid texts; otherwise writes the decoded bytes, no more than the length asked for, and leaves the rest of the buffer. |
| Base64Decode.DecodedLength | mbedtls/library/base64.c:194-225 | For every accepted text the second pass writes at most the length the first computed, and exactly that if and only if the padding covers the incomplete group. |
| Base64Decode.EncodedDecodes | mbedtls/library/base64.c:77-228 | Decoding an encoding gives the bytes back, for every byte string. |
| Base64Decode.AnyLayoutDecodes | mbedtls/library/base64.c:144-228 | So does decoding any valid layout of it with line breaks and spaces, and the room asked for is exact (section 5.2 of RFC 1521). |
| Base64Decode.EncodedPlain | mbedtls/library/base64.c:77-228 | The encoding as it stands is such a layout. |
| Base64Decode.InsertBreak | mbedtls/library/base64.c:151-187 | A line break put in anywhere keeps the layout valid and the characters the same. |
| Base64Decode.Reencoded | mbedtls/library/base64.c:144-228 | Encoding what was decoded gives the same characters if and only if they were whole groups with zeros in the unused bits. |

## Left out

- Memory: allocation failure, the limit on the number of limbs, clearing of secrets and constant-time behaviour.
- Mpis.Copy: limb buffers are sequences held in a field, so two objects never share a buffer; aliasing of whole objects is modelled.
- Mpis.CmpMpi: `mbedtls_mpi_lt_mpi_ct`, the constant-time comparison, is not modelled beside it.
- MpiAdd.SubAbs: needs the limbs of the subtrahend inside the destination, because `mpi_sub_hlp` is handed that many limbs unchecked.
- MpiDiv.DivMpi: Q may be A only without R and for a positive A, and Q may be B only for a positive B; the source reads the signs after writing Q.
- MpiDiv.ModMpi: R must not be B. The source takes that call, but after the division both names stand for the remainder, and the loop at `mbedtls/library/bignum.c:1928` compares a number with itself and never ends (or the one at line 1925 doubles a negative one for ever).
- MpiModInt.ModInt: b = 2 needs a limb, because the source reads the lowest one unchecked.
- ExpMod.ExpModMpi: X must not be E or N, the base needs at least one limb, and a cache that is not empty must hold R^2 mod N for this N, as the library's documentation asks.
- MillerRabin.Test: no draw may need a mask that `mbedtls/library/bignum.c:2605` cannot form: `k - (A.n - 1) * biL - 1` is negative when the candidate has zero limbs on top and a draw has more bits than X - 1, and the source then shifts by a wrapped count. Draws that need no mask are covered. The generator is an arbitrary sequence of limb buffers, and no probability is stated.
- MillerRabin.CheckSmallFactors: the table of small primes is a parameter; that the source's table lists all odd primes up to 997 is a hypothesis where it matters.
- MillerRabin.IsPrimeExt: larger composite numbers may be accepted; the chance of that is not bounded here, and `mbedtls_mpi_gen_prime` is not modelled.
- MpiString.WriteString: radix 2 needs a limb; reading and writing files is not modelled.
- MpiBinary.ReadBinary: the portable byte swap is modelled; compiler intrinsics and the little-endian variants are not.
- Xts.CryptXts: with a partial last block input and output are different buffers, because the source reads input it would have overwritten; overlapping parts of one buffer are not modelled. The AES rounds and key setup are behind the block function.
- CFB and CTR loops of the AES, ARIA and Camellia files: single xor streams that would only add easier members beside CBC, XTS and ChaCha20.
- Aria.AriaSl: the tables are parameters with the inverse relations they satisfy; the source's table contents are not part of this model.
- Camellia.CamelliaContext.CryptEcb: subkeys and tables are arbitrary; `mbedtls_camellia_setkey_enc` is not modelled.
- CipherLayer.CipherContext.Update: CBC mode only, blocks below 256 bytes; AEAD, stream and XTS dispatch, key setup and the PSA branches are not modelled.
- CipherLayer.CipherContext.Finish: the output buffer holds a block, as the documentation asks; overlapping buffers other than identical ones are not modelled.
- Ccm.AuthCrypt: the block cipher does not fail.
- ChaCha20.ChaCha20Context.Update: the quarter rounds are behind the block function; the source's unrolling by eight is one xor.
- ChaChaPoly.ChaChaPolyContext.Finish: Poly1305 is an arbitrary function of a key and the bytes absorbed; the tag of a second call after finishing is not specified.
- Cmac.CmacContext.Update: `mbedtls_cipher_cmac_starts` and the PRF built on it are not modelled.
- DerWrite.WriteTagged: buffers are below 2^31 bytes, so that the lengths returned are ints; the same holds for the other DER writers.
- DerNumbers.WriteMpi: needs a byte behind the cursor for the positive zero, because the source looks at it.
- DerSequence.GetSequenceOf: the linked list of the source is a sequence of the same elements in the same order.
- DerSequence.TraverseSequenceOf: the callback is a function of the elements it has been given; a null callback is one that always returns 0.
- Boolean elements, named data lists, entropy, CTR_DRBG, RC4 and Blowfish.
