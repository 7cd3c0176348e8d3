# Big numbers and ciphers of bcmcrypto, modelled in Dafny

A Dafny 4.11 project that models the cryptographic core of the driver, `0.2.6/src/bcmcrypto`, and
proves what it is meant to compute. Every routine of the source that works in place on words or
bytes is a method over arrays or over a class with the source's fields, proved against a
mathematical statement; the statements are then connected by lemmas.

## What is modelled

- **Big numbers (bn.c, bn_lcl.h).** Word operations from half words, the word loops, products and
  squares by rows, by columns and by Karatsuba's recursion, shifts, bit operations, signed sums,
  Knuth's long division, Montgomery reduction and contexts, sliding-window exponentiation and its
  variant for bases of one word, both algorithms for modular inverses, conversion from and to bytes.
  `Big` is the number with its words `d`, length `top` and sign `neg`; `Mont` is the Montgomery
  context. Operands that are the same object are allowed wherever the source allows them.
- **Diffie-Hellman (dh.c).** The `DH` object with its cached context, and the agreement of both
  parties on the bytes of the key.
- **Rijndael (rijndael-alg-fst.c, aes.c).** Key schedules for all three key sizes in both
  directions, the table-driven rounds, and the generation of the tables, against FIPS 197, for any
  S-box with an inverse.
- **AES-CCM and counter mode (aes.c)**, **key wrap (aeskeywrap.c)**, the **hash collector
  (md32_common.h)** with **SHA-256 and SHA-224 (sha256.c)**, the **resumable password hash
  (passhash.c)** and **TKIP key mixing (tkhash.c)**.

The files follow the source's layers: `words`, `wordops`, `kernels`, `columns`, `multiply`,
`karatsuba`, `square`, `magnitude`, `shift` (arrays of words); `bignum`, `product`; `digits`,
`window`, `longdiv`, `division`; `modular`, `redc`, `montgomery`; `solutions`, `inverse`; `power`,
`modexp`, `modexpword`; `bytes`, `dh`; `bits`, `field`, `fips197`, `aestables`, `rijndael`,
`keysetup`, `ccm`, `keywrap`; `md32`, `sha256`, `sha2`; `passhash`, `tkip`.

## Configuration and conventions

- The configuration is the one that `0.2.6/src/include/bcmcrypto/bn.h` (lines 83-190) selects:
  words of 32 bits, `BN_RECURSION`, `BN_MUL_COMBA` and `BN_SQR_COMBA`, no double-word type. C
  operators that wrap are written with explicit residues; bitwise operators on operands that share
  no bit are written as sums; `<<`, `>>` and masks as products, quotients and residues.
- A 32-bit word of Rijndael is its four bytes. Words of SHA are integers below 2^32.
- Unrolled code (the columns of the comba routines, register renaming, macros) is written once, as
  a loop or a method called with the arguments of each line.
- Memory allocation always succeeds. A number taken from the source's pool of temporaries is an
  object of its own with unknown contents, since the pool hands out what its last user left.
- What the source calls but does not define deterministically is a parameter: random bytes,
  `hmac_sha1`, the block cipher of CCM and key wrap, the S-boxes.
- Constants, byte orders and formats that the code and its specification share have statements of
  their own, in integers or bit by bit: the constants of SHA are roots of primes, those of the AES key
  schedule powers in the field, and so on (`Sha2.KIsRoot`, `KeySetup.RconIsPowerOfTwo`,
  `Ccm.TagOfData`, `PassHash.KeyBits`, `KeyWrap.WrapOfOne`, `Tkip.PartsAre`).
- In the table below a member's contract is what is proved; methods that change state say which
  locations change and what they hold afterwards.

## What was found

- **BN_div** keeps the sign of `num` for the remainder, but reads it after `dv` may have replaced
  it: with `dv` and `num` the same object the equation fails exactly for a negative divisor and a
  remainder that is not zero (`Division.AliasedQuotient`).
- **BN_nnmod** gives |d| for a zero with a minus sign, and zero for every negative number if the result
  is the modulus object (`Division.NNMod`). **BN_sqr** of zero keeps the sign the result had
  (`Product.Sqr`), and **BN_add_word** of zero to zero leaves a leading zero word
  (`Bignum.Big.AddWord`).
- **BN_mod_exp_mont** returns 1 for an exponent of zero even modulo 1 (`ModExp.PowerIsReduced`), so
  key agreement can fail for p = 1 and only there (`DiffieHellman.AgreementModuloOne`, `DiffieHellman.AllAgree`).
- The comment on **bn_mul_recursive** asks for 2 * n2 words of scratch space; the recursion uses more
  than that exactly from 32 words on (`Karatsuba.ScratchAsked`), but never more than the 4 * n2 words
  that BN_mul provides (`Karatsuba.Scratch`).
- The repair of **bn_div_words** for a remainder that became negative cannot be reached: the
  subtraction before it stays in a word without (`WordOps.DivWords`).
- **DH_generate_key** returns zero both for a failure and for a public key of zero
  (`DiffieHellman.DH.GenerateKey`).
- **aes_wrap** adds its step counter to one byte only, so it is RFC 3394 exactly up to 42 registers
  (`KeyWrap.ExactlyRfc`), and **aes_unwrap** likewise (`KeyWrap.ExactlyRfcDown`); wrapping and
  unwrapping still fit each other for every length (`KeyWrap.WrapUnwrap`).
- **aes_ccm_encrypt** accepts messages of 65536 bytes and more, whose length the first block cannot
  hold (`Ccm.LengthTold`); at 65536 blocks the last one shares the counter of the tag
  (`Ccm.TagHasItsCounter`). Decryption accepts what it sealed all the same.
- **init_passhash** accepts ssids that passhash refuses, and cuts them to 32 bytes
  (`PassHash.State.GetPasshash`).

## Model

| member | source | states |
|---|---|---|
| `WordOps.Mul64` | 0.2.6/src/bcmcrypto/bn_lcl.h:362-378 | the two words are the whole product of two words given by halves; no sum on the way wraps |
| `WordOps.Sqr64` | 0.2.6/src/bcmcrypto/bn_lcl.h:382-395 | the two words are the square of the word |
| `WordOps.MulAdd` | 0.2.6/src/bcmcrypto/bn_lcl.h:399-414 | low word and carry are exactly r + a * w + c: two words are always enough |
| `WordOps.Mul` | 0.2.6/src/bcmcrypto/bn_lcl.h:417-429 | low word and carry are exactly a * w + c |
| `WordOps.DivWords` | 0.2.6/src/bcmcrypto/bn.c:535-593 | the quotient of a two-word number by a normalised divisor, from single-word operations; all ones for zero; no half digit is too large and the repair branch of the source is never needed |
| `WordOps.LowerEstimate` | 0.2.6/src/bcmcrypto/bn.c:563-573 | a half-digit estimate is lowered only when it is too large for the divisor, so the lowered one is still not too low |
| `Kernels.AddWords` | 0.2.6/src/bcmcrypto/bn.c:636-683 | sum and carry are exact, also when result and operand are the same words or the result lies below; nothing else changes |
| `Kernels.SubWords` | 0.2.6/src/bcmcrypto/bn.c:686-726 | difference and borrow are exact, with the same overlaps |
| `Kernels.MulAddWords` | 0.2.6/src/bcmcrypto/bn.c:445-470 | r + w * a, exactly, with the carry word that is returned |
| `Kernels.MulWords` | 0.2.6/src/bcmcrypto/bn.c:472-497 | w * a, exactly, with the carry word that is returned |
| `Kernels.SqrWords` | 0.2.6/src/bcmcrypto/bn.c:499-523 | the squares of the words, each in its two words |
| `Kernels.CmpWords` | 0.2.6/src/bcmcrypto/bn.c:3080-3096 | the sign of the difference of two numbers of one length |
| `Kernels.Propagate` | 0.2.6/src/bcmcrypto/bn.c:3722-3739 | a carry propagated upwards adds exactly that carry and stops inside the words whose value leaves room for it |
| `Columns.ColumnsAreProduct` | 0.2.6/src/bcmcrypto/bn.c:823-931 | the column sums of all pairs of words, each column in its place, are the product of the two numbers, for every length |
| `Columns.MulComba` | 0.2.6/src/bcmcrypto/bn.c:823-977 | adding up the columns in a three-word accumulator writes the product of two numbers of up to eight words; the accumulator never overflows |
| `Multiply.MulNormal` | 0.2.6/src/bcmcrypto/bn.c:4180-4211 | rows of multiply-and-add give the product for all lengths |
| `Karatsuba.KaratsubaIdentity` | 0.2.6/src/bcmcrypto/bn.c:3616-3740 | a product from the products of the halves, with the middle term in its place |
| `Karatsuba.Differences` | 0.2.6/src/bcmcrypto/bn.c:3636-3670 | the nine cases of the switch: the sizes of the differences of the halves, and whether their product is negative or zero |
| `Karatsuba.MiddleOfHalves` | 0.2.6/src/bcmcrypto/bn.c:3701-3721 | the half products plus or minus the product of the differences are the middle term in every sign case; it stays below twice the power of its words, and with it the whole is the product and fits 2 * n2 words |
| `Karatsuba.AddMiddle` | 0.2.6/src/bcmcrypto/bn.c:3721-3739 | adding the middle term with a carry from -1 to 2 gives exactly the sum, and the carry stops inside the result |
| `Karatsuba.Scratch` | 0.2.6/src/bcmcrypto/bn.c:3616-3740 | the scratch space of all levels together is at most the 4 * n2 words that BN_mul provides |
| `Karatsuba.ScratchAsked` | 0.2.6/src/bcmcrypto/bn.c:3603-3740 | the 2 * n2 words that the comment asks for hold all levels exactly below 32 words |
| `Karatsuba.MulRecursive` | 0.2.6/src/bcmcrypto/bn.c:3616-3740 | bn_mul_recursive writes the product for every power of two as length, within its result and scratch words, all three recursive calls included |
| `Square.SqrNormal` | 0.2.6/src/bcmcrypto/bn.c:4785-4819 | triangle, doubled, plus the squares of the words is the square for every length; both additions said not to carry do not; no word is read before it is written |
| `Square.NoCarry` | 0.2.6/src/bcmcrypto/bn.c:4811-4817 | a sum that fits the words leaves no carry |
| `Square.SqrComba` | 0.2.6/src/bcmcrypto/bn.c:979-1098 | the columns with doubled terms give the square of up to eight words |
| `Square.MiddleOfSquare` | 0.2.6/src/bcmcrypto/bn.c:4860-4895 | the middle term of a square from the square of the difference of the halves |
| `Square.SqrRecursive` | 0.2.6/src/bcmcrypto/bn.c:4832-4914 | bn_sqr_recursive writes the square for every power of two, within its result and scratch words |
| `Product.PowerOfTwoBits` | 0.2.6/src/bcmcrypto/bn.c:4149-4153 | the comparison with 1 << (BN_num_bits_word(l) - 1) recognises exactly the powers of two |
| `Product.ProductFits` | 0.2.6/src/bcmcrypto/bn.c:4085-4176 | a product needs no more words than its factors have together |
| `Product.SquareTop` | 0.2.6/src/bcmcrypto/bn.c:4773-4775 | of the words of a square only the top one can be zero |
| `Product.Mul` | 0.2.6/src/bcmcrypto/bn.c:4085-4176 | BN_mul: r is a * b as signed integers, whichever algorithm the lengths select, also when r is an operand; zero has no sign; the operands keep their words in use |
| `Product.Sqr` | 0.2.6/src/bcmcrypto/bn.c:4707-4781 | BN_sqr: r is a * a; zero keeps the sign the result had, so the result is proper exactly if the operand is not zero or the result had no sign |
| `Magnitude.FixTop` | 0.2.6/src/include/bcmcrypto/bn.h:490-497 | no leading zero word is left and the value stays |
| `Magnitude.Compare` | 0.2.6/src/bcmcrypto/bn.c:2949-2969 | the order of two canonical numbers, by length and then by words |
| `Magnitude.UAdd` | 0.2.6/src/bcmcrypto/bn.c:199-254 | a + b in words, carry and copied rest included, is canonical, also in place |
| `Magnitude.USub` | 0.2.6/src/bcmcrypto/bn.c:257-327 | a - b in words, borrow and copied rest included, without leading zero words, also in place |
| `Magnitude.AddWord` | 0.2.6/src/bcmcrypto/bn.c:4966-4996 | the carry of an added word runs as far as it must; at most one word is gained |
| `Magnitude.SubWord` | 0.2.6/src/bcmcrypto/bn.c:4999-5030 | the borrow of a subtracted word runs as far as it must |
| `Shift.LShift` | 0.2.6/src/bcmcrypto/bn.c:4627-4658 | the words moved up have the value times two to the shift, also in place |
| `Shift.RShift` | 0.2.6/src/bcmcrypto/bn.c:4661-4702 | the words moved down have the value divided by two to the shift, also in place, with the word past the end that the loop reads or writes |
| `Shift.Double` | 0.2.6/src/bcmcrypto/bn.c:4572-4597 | twice the value, with the carry |
| `Shift.Halve` | 0.2.6/src/bcmcrypto/bn.c:4600-4623 | half the value, rounded down |
| `Shift.NumBitsWord` | 0.2.6/src/bcmcrypto/bn.c:2479-2550 | the number of bits of a word |
| `Shift.BitsAbove` | 0.2.6/src/bcmcrypto/bn.c:2553-2565 | the bits of a number are those of its top word and 32 for every other |
| `Shift.BitOfWord` | 0.2.6/src/bcmcrypto/bn.c:3048-3057 | bit n of a number is bit n % 32 of word n / 32 |
| `Shift.SetWordBit` | 0.2.6/src/bcmcrypto/bn.c:3014-3030 | setting a bit of a word that is not set adds that power of two to the number |
| `Bignum.Big.UCmp` | 0.2.6/src/bcmcrypto/bn.c:2949-2969 | BN_ucmp: the order of the absolute values |
| `Bignum.Big.UAdd` | 0.2.6/src/bcmcrypto/bn.c:199-254 | BN_uadd: the sum of the absolute values, r may be an operand |
| `Bignum.Big.USub` | 0.2.6/src/bcmcrypto/bn.c:257-327 | BN_usub: the difference of the absolute values, r may be an operand |
| `Bignum.Big.Add` | 0.2.6/src/bcmcrypto/bn.c:158-196 | BN_add: the signed sum in every sign case, r may be an operand |
| `Bignum.Big.Sub` | 0.2.6/src/bcmcrypto/bn.c:330-372 | BN_sub: the signed difference in every sign case, r may be an operand |
| `Bignum.Big.Copy` | 0.2.6/src/bcmcrypto/bn.c:2774-2805 | BN_copy: words, length and sign of b |
| `Bignum.Big.SetWord` | 0.2.6/src/bcmcrypto/bn.c:2870-2894 | BN_set_word: the value of one word, no sign |
| `Bignum.Big.LShift` | 0.2.6/src/bcmcrypto/bn.c:4627-4658 | BN_lshift: times a power of two, with growth and without leading zero words |
| `Bignum.Big.RShift` | 0.2.6/src/bcmcrypto/bn.c:4661-4702 | BN_rshift: divided by a power of two, towards zero; a shift past the end gives zero |
| `Bignum.Big.LShift1` | 0.2.6/src/bcmcrypto/bn.c:4572-4597 | BN_lshift1: doubled |
| `Bignum.Big.RShift1` | 0.2.6/src/bcmcrypto/bn.c:4600-4623 | BN_rshift1: halved towards zero |
| `Bignum.Big.NumBits` | 0.2.6/src/bcmcrypto/bn.c:2553-2565 | BN_num_bits: the number is at least two to one bit less and below two to the bits |
| `Bignum.Big.IsBitSet` | 0.2.6/src/bcmcrypto/bn.c:3048-3057 | BN_is_bit_set: bit n of the absolute value, for any n |
| `Bignum.Big.SetBit` | 0.2.6/src/bcmcrypto/bn.c:3014-3030 | BN_set_bit: gains two to the n unless the bit is set, growing if it must |
| `Bignum.Big.MulWord` | 0.2.6/src/bcmcrypto/bn.c:5033-5050 | BN_mul_word: times a word |
| `Bignum.Big.AddWord` | 0.2.6/src/bcmcrypto/bn.c:4966-4996 | BN_add_word: a signed sum; zero plus zero is the one case that leaves a leading zero word |
| `Bignum.Big.SubWord` | 0.2.6/src/bcmcrypto/bn.c:4999-5030 | BN_sub_word: a signed difference, with the same exception |
| `Bignum.Big.WExpand` | 0.2.6/src/include/bcmcrypto/bn.h:486-487 | bn_wexpand: room for the words asked for and one more, the words in use kept |
| `Bignum.Expanded` | 0.2.6/src/bcmcrypto/bn.c:2621-2691 | bn_expand_internal: the words in use are copied and the ones above cleared, but for the spare word |
| `Digits.Estimate` | 0.2.6/src/bcmcrypto/bn.c:1362-1427 | from three words of the window and two of the divisor: all ones when the leading words are equal, otherwise the largest digit that the leading words allow, exactly, in spite of the words that wrap |
| `Digits.EstimateClose` | 0.2.6/src/bcmcrypto/bn.c:1362-1427 | whatever the words below are, such an estimate is the digit or one more |
| `Digits.AllOnesClose` | 0.2.6/src/bcmcrypto/bn.c:1362-1365 | all ones is the digit or one more when the leading words are equal |
| `Digits.DigitClose` | 0.2.6/src/bcmcrypto/bn.c:1362-1427 | the estimate for any window below B times the divisor, for divisors of one word and of more, is the digit or one more |
| `Window.SubtractDigit` | 0.2.6/src/bcmcrypto/bn.c:1431-1451 | one subtraction and at most one addition of the divisor leave quotient digit and remainder exactly |
| `Window.Round` | 0.2.6/src/bcmcrypto/bn.c:1354-1453 | a round: B * remainder + next word is digit * divisor + new remainder, which is again below the divisor |
| `LongDivision.First` | 0.2.6/src/bcmcrypto/bn.c:1344-1352 | the subtraction before the first round accounts for a quotient top of one |
| `LongDivision.Rounds` | 0.2.6/src/bcmcrypto/bn.c:1354-1453 | all rounds: the quotient words and the window account for the words of the dividend that were passed |
| `LongDivision.Divide` | 0.2.6/src/bcmcrypto/bn.c:1344-1453 | quotient and remainder words of the normalised dividend, the quotient without leading zero words |
| `Division.Normalise` | 0.2.6/src/bcmcrypto/bn.c:1307-1317 | the shifts leave a divisor with its top bit set and a dividend scaled alike, one word longer, with a zero below |
| `Division.Div` | 0.2.6/src/bcmcrypto/bn.c:1275-1469 | BN_div for every num and divisor: it fails exactly for zero; dv and rm are quotient and remainder of the absolute values, with these signs; each result may be an operand or missing |
| `Division.TruncatedDivision` | 0.2.6/src/bcmcrypto/bn.c:1267-1274 | with those signs dv * divisor + rm == num and the remainder is smaller than the divisor, provided dv is not num |
| `Division.AliasedQuotient` | 0.2.6/src/bcmcrypto/bn.c:1455-1463 | when dv is num the same equation holds exactly for a divisor that is not negative or a remainder of zero |
| `Division.NNMod` | 0.2.6/src/bcmcrypto/bn.c:3130-3142 | BN_nnmod: the remainder from 0 up, for every sign; only a zero with a minus sign gives |d|; with r and d the same object it is right exactly for m >= 0 or a multiple of d |
| `Modular.CancelUp` | 0.2.6/src/bcmcrypto/bn.c:3347-3477 | for an odd modulus words by which both sides of a congruence were moved up can be cancelled, so a Montgomery result is unique |
| `Reduction.LowWordCleared` | 0.2.6/src/bcmcrypto/bn.c:3395-3422 | the multiple chosen with n0 makes the low word zero |
| `Reduction.RoundRoom` | 0.2.6/src/bcmcrypto/bn.c:3395-3422 | in every round there is room for another multiple: no carry leaves the nl + nl + 1 words |
| `Reduction.ClearWord` | 0.2.6/src/bcmcrypto/bn.c:3395-3422 | one pass: a multiple of the modulus is added, its word becomes zero, those below stay, and the carry stays in the words |
| `Reduction.Reduce` | 0.2.6/src/bcmcrypto/bn.c:3385-3423 | all passes: what is left above is below twice the modulus and, moved up, is the number plus a multiple of the modulus |
| `Montgomery.FromMontgomery` | 0.2.6/src/bcmcrypto/bn.c:3347-3477 | BN_from_montgomery: for every a below N * R the result is below N and R times it is congruent to a; one subtraction is enough |
| `Montgomery.WordQuotient` | 0.2.6/src/bcmcrypto/bn.c:3540-3554 | from an inverse of B modulo the low word, the quotient by that word is an n0 that cancels |
| `Montgomery.CancelWord` | 0.2.6/src/bcmcrypto/bn.c:3530-3555 | n0 exists exactly for an odd low word, one included, and then N * n0 is -1 modulo B |
| `Montgomery.Set` | 0.2.6/src/bcmcrypto/bn.c:3516-3582 | BN_MONT_CTX_set: succeeds exactly for odd moduli; N is the modulus, n0 cancels and RR is R * R reduced |
| `Montgomery.ModMul` | 0.2.6/src/bcmcrypto/bn.c:3323-3343 | BN_mod_mul_montgomery: below N, and R times the result is congruent to a * b, whenever a * b is below N * R; r may be a or b |
| `Montgomery.OddModulus` | 0.2.6/src/bcmcrypto/bn.c:3540-3554 | a modulus whose low word can be cancelled is odd |
| `Solutions.SolvesHalf` | 0.2.6/src/bcmcrypto/bn.c:2197-2231 | modulo an odd number what solves an even number can be halved to solve its half, made even first with the modulus |
| `Solutions.WithinLess` | 0.2.6/src/bcmcrypto/bn.c:2242-2254 | taking a multiple of one number from the other brings in no new common divisor |
| `Solutions.InverseMeansCoprime` | 0.2.6/src/bcmcrypto/bn.c:2140-2387 | a number that has an inverse shares no divisor but one with the modulus |
| `Solutions.EndIsCommon` | 0.2.6/src/bcmcrypto/bn.c:2357-2383 | if the reduction ends with a number other than one the two are not coprime |
| `Solutions.OddIsCoprime` | 0.2.6/src/bcmcrypto/bn.c:3540-3554 | a number is coprime to B exactly if it is odd |
| `Inverse.DivideTwos` | 0.2.6/src/bcmcrypto/bn.c:2197-2231 | the loops that divide out the twos keep what X solves, and end with an odd number |
| `Inverse.Binary` | 0.2.6/src/bcmcrypto/bn.c:2189-2255 | the binary algorithm ends, with B zero, and keeps both equations modulo n and the common divisors |
| `Inverse.QuotientStep` | 0.2.6/src/bcmcrypto/bn.c:2268-2299 | D and M are quotient and remainder of A and B, with the shortcuts for 1, 2 and 3 and with BN_div |
| `Inverse.EuclidStep` | 0.2.6/src/bcmcrypto/bn.c:2301-2353 | a step of Euclid's algorithm with its coefficients keeps -sign * X * a == B, sign * Y * a == A (mod n) and the common divisors |
| `Inverse.EuclidRound` | 0.2.6/src/bcmcrypto/bn.c:2259-2354 | a round does that step for the numbers behind the five names, which stay apart |
| `Inverse.Euclid` | 0.2.6/src/bcmcrypto/bn.c:2259-2354 | the loop ends, and Y with the sign solves the common divisor that is left in A |
| `Inverse.TakeSign` | 0.2.6/src/bcmcrypto/bn.c:2365-2368 | n - Y for a negative sign solves the same |
| `Inverse.ModInverse` | 0.2.6/src/bcmcrypto/bn.c:2140-2387 | BN_mod_inverse: succeeds exactly if n is not zero and coprime to a, and then R is in [0, |n|) with a * R == 1 (mod |n|), for odd and even moduli of any length and any a |
| `Power.ExpAdd` | 0.2.6/src/bcmcrypto/bn.c:1707-1834 | powers: the exponents of a product add up |
| `Power.PowerProduct` | 0.2.6/src/bcmcrypto/bn.c:1760-1818 | a Montgomery product of two powers in Montgomery form is the power to the sum of the exponents |
| `Power.FirstPower` | 0.2.6/src/bcmcrypto/bn.c:1757-1757 | the product with RR brings the base into Montgomery form |
| `Power.PowerValue` | 0.2.6/src/bcmcrypto/bn.c:1826-1826 | and the last reduction brings a power out of it, as the residue of the power |
| `Power.AboveStep` | 0.2.6/src/bcmcrypto/bn.c:1780-1825 | the exponent bits above k are twice those above k + 1, plus bit k |
| `ModExp.Fill` | 0.2.6/src/bcmcrypto/bn.c:1760-1769 | the table holds the odd powers, entry i the power to 2i + 1, each with words of its own |
| `ModExp.ScanOne` | 0.2.6/src/bcmcrypto/bn.c:1800-1804 | a set bit that the scan meets extends the window value by the bits up to it |
| `ModExp.Scan` | 0.2.6/src/bcmcrypto/bn.c:1795-1805 | the window: its value is odd, below two to the window size, and is the bits of the exponent from wstart to wstart - wend |
| `ModExp.OneWindow` | 0.2.6/src/bcmcrypto/bn.c:1795-1824 | a window multiplies r from the power to the bits before it to the power to the bits with it; the index stays in the table |
| `ModExp.Exponentiate` | 0.2.6/src/bcmcrypto/bn.c:1771-1825 | the loop ends, and r is the power to the whole exponent in Montgomery form |
| `ModExp.WindowBits` | 0.2.6/src/bcmcrypto/bn_lcl.h:180-184 | window sizes from 1 to 6 |
| `ModExp.TableSize` | 0.2.6/src/bcmcrypto/bn_lcl.h:180-184 | a table for such a window has at most the 32 entries reserved |
| `ModExp.ModExpMont` | 0.2.6/src/bcmcrypto/bn.c:1707-1834 | BN_mod_exp_mont: fails exactly for even moduli, otherwise rr is a to the p modulo m for every a and p, with or without a context at hand, and 1 for an exponent of zero |
| `ModExp.PowerIsReduced` | 0.2.6/src/bcmcrypto/bn.c:1725-1729 | that value is the reduced power exactly if m > 1 or p > 0 |
| `ModExpWord.OverflowTest` | 0.2.6/src/bcmcrypto/bn.c:1903-1904 | next_w / w differs from w exactly if the word product overflowed |
| `ModExpWord.SquareStep` | 0.2.6/src/bcmcrypto/bn.c:1902-1916 | squaring r * w, with or without moving w into r, doubles the exponent |
| `ModExpWord.MultiplyStep` | 0.2.6/src/bcmcrypto/bn.c:1918-1931 | multiplying r * w by a adds one to the exponent |
| `ModExpWord.Accumulate` | 0.2.6/src/bcmcrypto/bn.c:1895-1932 | after all bits r * w stands for a to the p, r carrying a Montgomery factor unless it was never used |
| `ModExpWord.ModExpMontWord` | 0.2.6/src/bcmcrypto/bn.c:1837-1954 | BN_mod_exp_mont_word: the same value as BN_mod_exp_mont for every base of one word |
| `Bytes.Bin2Bn` | 0.2.6/src/bcmcrypto/bn.c:2898-2932 | BN_bin2bn: the value of the bytes, most significant first, without leading zero words |
| `Bytes.Bn2Bin` | 0.2.6/src/bcmcrypto/bn.c:2935-2946 | BN_bn2bin: the bytes of the value without leading zeros, and no byte behind them |
| `Bytes.NumBytes` | 0.2.6/src/include/bcmcrypto/bn.h:332-332 | BN_num_bytes: as many bytes as the value needs |
| `Bytes.BytesRoundTrip` | 0.2.6/src/bcmcrypto/bn.c:2897-2946 | bytes that are read and written back are the same but for leading zero bytes |
| `Bytes.BytesOfValue` | 0.2.6/src/bcmcrypto/bn.c:2897-2946 | bytes without a leading zero are exactly those of their value |
| `DiffieHellman.DhModExp` | 0.2.6/src/bcmcrypto/dh.c:606-617 | the power, whichever of the two exponentiations the length of the base selects |
| `DiffieHellman.PowerOfPower` | 0.2.6/src/bcmcrypto/dh.c:547-593 | the power of a reduced power is the reduced power to the product of the exponents |
| `DiffieHellman.KeyAgreement` | 0.2.6/src/bcmcrypto/dh.c:489-593 | for p > 1 both parties compute the same key bytes from each other's public key, for all g and all private keys |
| `DiffieHellman.NoAgreementModuloOne` | 0.2.6/src/bcmcrypto/dh.c:489-593 | for p = 1 they can differ, since a private key of zero gives one |
| `DiffieHellman.AgreementModuloOne` | 0.2.6/src/bcmcrypto/dh.c:489-593 | modulo one a pair of private keys agrees exactly if both are zero or neither is |
| `DiffieHellman.AllAgree` | 0.2.6/src/bcmcrypto/dh.c:489-593 | all pairs of private keys agree exactly if p > 1 |
| `DiffieHellman.DH.constructor` | 0.2.6/src/bcmcrypto/dh.c:594-604 | DH_init: p from its bytes, g from a word, no keys and no context yet |
| `DiffieHellman.DH.GenerateKey` | 0.2.6/src/bcmcrypto/dh.c:489-545 | DH_generate_key: keys are made once and kept; the public key is g to the private one and its bytes and their number are given out; no keys for an even p; the answer is zero with keys exactly if the public key is |
| `DiffieHellman.DH.ComputeKeyBn` | 0.2.6/src/bcmcrypto/dh.c:547-583 | DH_compute_key_bn: fails exactly without a private key or for an even p, otherwise the bytes of the peer's number to the private key |
| `DiffieHellman.DH.ComputeKey` | 0.2.6/src/bcmcrypto/dh.c:585-593 | DH_compute_key: the shared key for the peer's bytes |
| `Field.XtimeBit` | 0.2.6/src/include/bcmcrypto/aes.h:267-273 | the bits of XTIME: those of the byte one place up, with the polynomial added for a lost one |
| `Field.XtimeIs` | 0.2.6/src/include/bcmcrypto/aes.h:267-273 | XTIME is multiplication by x modulo x^8 + x^4 + x^3 + x + 1, bit by bit |
| `Field.XtimeXor` | 0.2.6/src/include/bcmcrypto/aes.h:267-273 | doubling is linear over exclusive or |
| `Field.Multiples` | 0.2.6/src/bcmcrypto/aes.c:829-888 | the multiples in both matrices as sums of repeated doublings |
| `Field.MixColumnIs` | 0.2.6/src/bcmcrypto/rijndael-alg-fst.c:1024-1048 | each byte of a mixed column is the double of one, the threefold of the next and the two others |
| `Field.Unmixed` | 0.2.6/src/bcmcrypto/rijndael-alg-fst.c:852-876 | InvMixColumns undoes MixColumns and the other way round, on every column |
| `Fips197.CipherUndone` | 0.2.6/src/bcmcrypto/rijndael-alg-fst.c:880-1113 | the inverse cipher of section 5.3 of FIPS 197 undoes the cipher of 5.1 and the other way round, for any number of rounds and any round keys |
| `Fips197.EquivalentInverse` | 0.2.6/src/bcmcrypto/rijndael-alg-fst.c:1116-1348 | the equivalent inverse cipher of section 5.3.5 with its own round keys is the inverse cipher |
| `Fips197.ShiftRowsIs` | 0.2.6/src/bcmcrypto/rijndael-alg-fst.c:1024-1048 | row r of the state is turned by r places, and back by the inverse |
| `Fips197.RconIsPower` | 0.2.6/src/bcmcrypto/rijndael-alg-fst.c:713-718 | the constants of the key expansion are the powers of two in the field |
| `AesTables.EncEntry` | 0.2.6/src/bcmcrypto/aes.c:839-860 | an entry of Te0 is S[k] times 2, 1, 1 and 3 in the field |
| `AesTables.DecEntry` | 0.2.6/src/bcmcrypto/aes.c:845-876 | an entry of Td0 is Si[k] times 14, 9, 13 and 11 |
| `AesTables.GenTables` | 0.2.6/src/bcmcrypto/aes.c:829-888 | of the ten tables those for which there is a place, each entry by entry, for any S and Si |
| `Rijndael.TableRow` | 0.2.6/src/bcmcrypto/rijndael-alg-fst.c:1024-1048 | four entries of four tables, exclusive-ored, are the column that the matrix makes of four bytes |
| `Rijndael.TablesDoRounds` | 0.2.6/src/bcmcrypto/rijndael-alg-fst.c:1019-1113 | the look-ups in the generated tables are the rounds of the standard, full and last ones, for both directions and any S-box |
| `Rijndael.StateOfIs` | 0.2.6/src/bcmcrypto/rijndael-alg-fst.c:727-738 | the bytes of a block go down the columns of the state |
| `Rijndael.EncFull` | 0.2.6/src/bcmcrypto/rijndael-alg-fst.c:1019-1079 | the loop of two rounds a turn does Nr - 1 full rounds and ends at the last round key |
| `Rijndael.DecFull` | 0.2.6/src/bcmcrypto/rijndael-alg-fst.c:1255-1315 | the same for the equivalent inverse cipher |
| `Rijndael.Encrypt` | 0.2.6/src/bcmcrypto/rijndael-alg-fst.c:880-1113 | rijndaelEncrypt writes the cipher's bytes, also over its input |
| `Rijndael.Decrypt` | 0.2.6/src/bcmcrypto/rijndael-alg-fst.c:1116-1348 | rijndaelDecrypt writes the bytes of the equivalent inverse cipher |
| `KeySetup.RconIs` | 0.2.6/src/bcmcrypto/rijndael-alg-fst.c:713-718 | the constants of the program are those of the key expansion in their order |
| `KeySetup.RconIsPowerOfTwo` | 0.2.6/src/bcmcrypto/rijndael-alg-fst.c:713-718 | constant i of the program is the i-th power of two in the field |
| `KeySetup.RoundsIs` | 0.2.6/src/bcmcrypto/rijndael-alg-fst.c:750-832 | figure 4 of FIPS 197: 32 bits a word, and six rounds more than words |
| `KeySetup.WordAfterKey` | 0.2.6/src/bcmcrypto/rijndael-alg-fst.c:757-768 | the first word after the key, byte by byte: turned, substituted, with one in its first byte |
| `KeySetup.KeySetupEnc` | 0.2.6/src/bcmcrypto/rijndael-alg-fst.c:750-832 | rijndaelKeySetupEnc: the words of the key expansion of section 5.2 for 128, 192 and 256 bits and the number of rounds; no rounds for other sizes; words behind the schedule stay |
| `KeySetup.Reverse` | 0.2.6/src/bcmcrypto/rijndael-alg-fst.c:845-851 | the exchanges put the round keys into the other order |
| `KeySetup.UnmixKeys` | 0.2.6/src/bcmcrypto/rijndael-alg-fst.c:852-876 | all round keys but the first and the last are transformed |
| `KeySetup.KeySetupDec` | 0.2.6/src/bcmcrypto/rijndael-alg-fst.c:838-878 | rijndaelKeySetupDec: the round keys of the equivalent inverse cipher |
| `KeySetup.InvKeysAre` | 0.2.6/src/bcmcrypto/rijndael-alg-fst.c:838-878 | those are the encryption keys reversed, the inner ones through InvMixColumns |
| `KeySetup.DecryptionUndoes` | 0.2.6/src/bcmcrypto/rijndael-alg-fst.c:1116-1348 | decryption under the decryption schedule undoes encryption, for every S-box with an inverse, every key of 128, 192 or 256 bits and every block |
| `KeySetup.EncryptionUndoes` | 0.2.6/src/bcmcrypto/rijndael-alg-fst.c:880-1113 | and the other way round |
| `KeySetup.InversesForKeyWrap` | 0.2.6/src/bcmcrypto/aeskeywrap.c:79-228 | so the two block functions meet what key wrap needs of them |
| `KeySetup.AesEncrypt` | 0.2.6/src/bcmcrypto/aes.c:105-110 | aes_encrypt: schedule and block in one |
| `KeySetup.AesDecrypt` | 0.2.6/src/bcmcrypto/aes.c:114-119 | aes_decrypt: likewise |
| `Ccm.CountersDiffer` | 0.2.6/src/bcmcrypto/aes.c:285-294 | counter blocks repeat after 65536 increments and not before |
| `Ccm.CounterIs` | 0.2.6/src/bcmcrypto/aes.c:285-294 | the i-th increment of the first counter block is A_(i + 1) of section 2.3 of RFC 3610 |
| `Ccm.CryptTwice` | 0.2.6/src/bcmcrypto/aes.c:272-303 | counter mode undoes itself |
| `Ccm.CtrCrypt` | 0.2.6/src/bcmcrypto/aes.c:272-303 | aes_ctr_crypt: every byte with its byte of the key stream, partial last block included, also in place; refused exactly above 65536 blocks, with nothing written |
| `Ccm.FeedByte` | 0.2.6/src/bcmcrypto/aes.c:346-369 | the chain byte by byte is the chain block by block |
| `Ccm.FeedEnd` | 0.2.6/src/bcmcrypto/aes.c:363-386 | a last block that is not full is encrypted as if padded with zeros |
| `Ccm.Mac` | 0.2.6/src/bcmcrypto/aes.c:312-393 | aes_ccm_mac: the first eight bytes of the CBC-MAC over the blocks of section 2.2 of RFC 3610; refused exactly for more than 0xfeff bytes of additional data |
| `Ccm.TagOfNothing` | 0.2.6/src/bcmcrypto/aes.c:331-345 | without message and additional data the tag is the block of 0x19, nonce and two zeros encrypted |
| `Ccm.TagOfMessage` | 0.2.6/src/bcmcrypto/aes.c:331-393 | the tag of a message of one block, from its bytes and its length |
| `Ccm.TagOfData` | 0.2.6/src/bcmcrypto/aes.c:331-369 | the tag of additional data of one block: 0x59 in the first block, then the length of the data and the data |
| `Ccm.LengthTold` | 0.2.6/src/bcmcrypto/aes.c:336-337 | the length in the first block is the length of the message exactly below 65536 bytes |
| `Ccm.TagHasItsCounter` | 0.2.6/src/bcmcrypto/aes.c:403-439 | message blocks and tag use different counters exactly up to 65535 blocks |
| `Ccm.CcmEncrypt` | 0.2.6/src/bcmcrypto/aes.c:403-439 | aes_ccm_encrypt: message and tag sealed, wherever the output lies, nothing else changed; when refused for too many blocks the tag is written and the output range stays, for too much additional data nothing is written |
| `Ccm.SealedInPlace` | 0.2.6/src/bcmcrypto/aes.c:403-439 | data and tag side by side, as the callers have them, are the message sealed |
| `Ccm.SealedBytes` | 0.2.6/src/bcmcrypto/aes.c:415-439 | byte k of a message goes with byte k % 16 of S_(k / 16 + 1) and the tag with S_0 |
| `Ccm.CcmDecrypt` | 0.2.6/src/bcmcrypto/aes.c:450-492 | aes_ccm_decrypt: accepts exactly what opens and leaves the message; a length below that of the tag is refused; what a rejected ciphertext leaves behind |
| `Ccm.SealedOpens` | 0.2.6/src/bcmcrypto/aes.c:403-492 | a ciphertext opens to a message exactly if it is that message sealed |
| `Sha256.NextIs` | 0.2.6/src/bcmcrypto/sha256.c:226-229 | the sum of four words of the sixteen-word window is the next word of the 64-word schedule |
| `Sha256.NextWord` | 0.2.6/src/bcmcrypto/sha256.c:199-229 | storing it over the oldest word moves the window on |
| `Sha256.RoundInPlace` | 0.2.6/src/bcmcrypto/sha256.c:244-247 | ROUND_00_15 is a round whose results stand in the registers d and h |
| `Sha256.EightRounds` | 0.2.6/src/bcmcrypto/sha256.c:267-322 | eight rounds with turned register names are eight rounds of the standard, and the names are back in place |
| `Sha256.SmallBlock` | 0.2.6/src/bcmcrypto/sha256.c:191-234 | one block of the small version: 64 rounds of section 6.2.2 of FIPS 180-2 |
| `Sha256.UnrolledBlock` | 0.2.6/src/bcmcrypto/sha256.c:264-322 | one block of the unrolled version: the same 64 rounds |
| `Sha256.Small` | 0.2.6/src/bcmcrypto/sha256.c:183-240 | any number of blocks, from bytes or words, for every state |
| `Sha256.Unrolled` | 0.2.6/src/bcmcrypto/sha256.c:255-328 | the same function of the same input |
| `Sha256.BlocksAreAbsorbed` | 0.2.6/src/bcmcrypto/sha256.c:338-342 | that function is what the collector does with whole blocks |
| `Sha256.MakeString` | 0.2.6/src/bcmcrypto/sha256.c:116-135 | the digest: refused exactly for lengths above 32, otherwise the whole words that fit |
| `Sha256.DigestWords` | 0.2.6/src/bcmcrypto/sha256.c:116-135 | every word can be read back from the digest |
| `Sha256.HashIsBlocks` | 0.2.6/src/bcmcrypto/md32_common.h:531-577 | so the hash of the padded message is the block function over all its blocks, with nothing left over |
| `Sha2.RotateIs` | 0.2.6/src/bcmcrypto/sha256.c:168-176 | left rotations by 32 - n are n single-bit right rotations |
| `Sha2.ChIs` | 0.2.6/src/bcmcrypto/sha256.c:178-178 | Ch takes each bit from y or z as x says |
| `Sha2.MajIs` | 0.2.6/src/bcmcrypto/sha256.c:179-179 | Maj is the majority of each three bits |
| `Sha2.SumBits` | 0.2.6/src/bcmcrypto/sha256.c:173-174 | every bit of the two sums from three bits of the operand, at the places of section 4.1.2 of FIPS 180-2 |
| `Sha2.SigmaBits` | 0.2.6/src/bcmcrypto/sha256.c:175-176 | and of the two functions of the schedule, zero where bits are shifted out |
| `Sha2.ChoiceBits` | 0.2.6/src/bcmcrypto/sha256.c:178-179 | every bit of Ch and Maj |
| `Sha2.ScheduleIs` | 0.2.6/src/bcmcrypto/sha256.c:221-229 | the words of the schedule as sums modulo 2^32 of those 2, 7, 15 and 16 places before |
| `Sha2.RoundIs` | 0.2.6/src/bcmcrypto/sha256.c:229-233 | the registers after a round: six move on, two are sums modulo 2^32 |
| `Sha2.SumsAre` | 0.2.6/src/bcmcrypto/sha256.c:236-237 | the chaining value after a block: sums modulo 2^32 with the registers |
| `Sha2.KIsRoot` | 0.2.6/src/bcmcrypto/sha256.c:150-166 | each of the 64 constants is the first 32 bits of the fractional part of the cube root of its prime |
| `Sha2.MixIsStandard` | 0.2.6/src/bcmcrypto/sha256.c:149-328 | with the program's functions and constants a block is mixed as with those of the standard |
| `Sha2.StartIsRoot` | 0.2.6/src/bcmcrypto/sha256.c:62-71 | SHA-256 starts with the fractional parts of the square roots of the first eight primes |
| `Sha2.ShortStartIsRoot` | 0.2.6/src/bcmcrypto/sha256.c:51-60 | SHA-224 with the second 32 bits of those of the next eight |
| `Sha2.InParts` | 0.2.6/src/bcmcrypto/sha256.c:51-95 | SHA-224 and SHA-256 of a message in any number of parts is the digest of the whole |
| `Collector.AbsorbTail` | 0.2.6/src/bcmcrypto/md32_common.h:394-508 | full blocks and rest of a longer message from those of a shorter one |
| `Collector.LongerBy` | 0.2.6/src/bcmcrypto/md32_common.h:403-409 | the two length words with their carries hold the length in bits of the longer message |
| `Collector.PackIs` | 0.2.6/src/bcmcrypto/md32_common.h:303-307 | four bytes are a word with the most significant one first |
| `Collector.TrueLength` | 0.2.6/src/bcmcrypto/md32_common.h:403-409 | they hold the true length exactly below 2^64 bits |
| `Collector.Ctx.Update` | 0.2.6/src/bcmcrypto/md32_common.h:394-508 | HASH_UPDATE: the context after m and then d is the one after m + d: chaining value, waiting bytes packed in words, length |
| `Collector.PaddedIsBlocks` | 0.2.6/src/bcmcrypto/md32_common.h:531-577 | the padded message is a whole number of blocks, for every message |
| `Collector.PaddedIs` | 0.2.6/src/bcmcrypto/md32_common.h:531-577 | the padded message is the message, 0x80, the fewest zeros that fill blocks, and the length in bits as a number of 64 bits |
| `Collector.Ctx.Final` | 0.2.6/src/bcmcrypto/md32_common.h:531-577 | HASH_FINAL: the hash of the padded message of section 5.1.1 of FIPS 180-2, for one last block or two |
| `Collector.OfParts` | 0.2.6/src/bcmcrypto/md32_common.h:394-577 | however a message is cut into updates, the hash is that of the message |
| `PassHash.F` | 0.2.6/src/bcmcrypto/passhash.c:41-76 | the exclusive or of all iterated digests of section 5.2 of RFC 2898 |
| `PassHash.IntIs` | 0.2.6/src/bcmcrypto/passhash.c:58-61 | four bytes of the block number, the most significant first |
| `PassHash.Digests` | 0.2.6/src/bcmcrypto/passhash.c:55-68 | the first digest is that of the salt with 0, 0, 0 and 1 or 2, each other that of the one before |
| `PassHash.Passhash` | 0.2.6/src/bcmcrypto/passhash.c:87-96 | passhash: the 40 bytes of the derived key, refused exactly for lengths out of range, with nothing written |
| `PassHash.KeyBits` | 0.2.6/src/bcmcrypto/passhash.c:87-96 | a bit of the key is set exactly if it is set in an odd number of the 4096 digests of its block |
| `PassHash.InitPasshash` | 0.2.6/src/bcmcrypto/passhash.c:146-161 | init_passhash: refused exactly for a password length out of range; longer ssids are accepted |
| `PassHash.State.DoPasshash` | 0.2.6/src/bcmcrypto/passhash.c:163-188 | do_passhash, for any number of rounds, none included: a call does the rounds asked for but stops at the end of a block, and answers 0 exactly when it finishes |
| `PassHash.EveryRunEnds` | 0.2.6/src/bcmcrypto/passhash.c:163-188 | every sequence of positive step counts finishes, and of any calls exactly one answers 0 if they finish |
| `PassHash.State.GetPasshash` | 0.2.6/src/bcmcrypto/passhash.c:190-198 | get_passhash: after the end, and only then, the bytes of the one-shot key for the ssid cut to 32 bytes |
| `PassHash.InSteps` | 0.2.6/src/bcmcrypto/passhash.c:138-198 | init_passhash, any do_passhash calls and get_passhash: the key of passhash exactly if the calls reach the end, which 8192 of them with positive counts always do; every call's answer |
| `KeyWrap.AesWrap` | 0.2.6/src/bcmcrypto/aeskeywrap.c:79-147 | aes_wrap computes the wrapping, also over its input; refused exactly as the function says |
| `KeyWrap.AesUnwrap` | 0.2.6/src/bcmcrypto/aeskeywrap.c:154-228 | aes_unwrap computes the unwrapping, and writes nothing when it refuses |
| `KeyWrap.FirstSteps` | 0.2.6/src/bcmcrypto/aeskeywrap.c:120-139 | the first two steps for two registers: one after the other, with 1 and 2 in the last byte of A |
| `KeyWrap.WrapOfOne` | 0.2.6/src/bcmcrypto/aeskeywrap.c:112-147 | with the identity for a cipher eight bytes are wrapped to seven bytes 0xa6, one 0xa1, and the input |
| `KeyWrap.WrapUnwrap` | 0.2.6/src/bcmcrypto/aeskeywrap.c:79-228 | unwrapping accepts c with p exactly if wrapping p gives c, for every cipher with an inverse and every length |
| `KeyWrap.SameSteps` | 0.2.6/src/bcmcrypto/aeskeywrap.c:120-139 | while the step counter fits a byte the steps are those of section 2.2.1 of RFC 3394 |
| `KeyWrap.ExactlyRfc` | 0.2.6/src/bcmcrypto/aeskeywrap.c:79-147 | a length is wrapped as in RFC 3394 for all ciphers exactly if 6 * n <= 255 |
| `KeyWrap.ExactlyRfcDown` | 0.2.6/src/bcmcrypto/aeskeywrap.c:154-228 | and unwrapped as in section 2.2.2 of RFC 3394 for the same lengths |
| `Tkip.Phase1` | 0.2.6/src/bcmcrypto/tkhash.c:169-192 | tkhash_phase1: eight rounds on the block of address and high counter |
| `Tkip.Phase2` | 0.2.6/src/bcmcrypto/tkhash.c:216-257 | tkhash_phase2: the sixteen key bytes from the two sweeps |
| `Tkip.PartsAre` | 0.2.6/src/bcmcrypto/tkhash.c:39-43 | the halves of words and the rotation as equations of integers |
| `Tkip.SIs` | 0.2.6/src/bcmcrypto/tkhash.c:152-152 | the lookup is the exclusive or of that of the low byte and that of the high byte |
| `Tkip.StartIs` | 0.2.6/src/bcmcrypto/tkhash.c:175-179 | the starting block: the high counter and the address as little-endian words |
| `Tkip.RoundIs` | 0.2.6/src/bcmcrypto/tkhash.c:183-191 | a round of phase 1 and the bytes of the key that it uses |
| `Tkip.Phase1Is` | 0.2.6/src/bcmcrypto/tkhash.c:183-191 | phase 1 is the eight rounds in their order |
| `Tkip.MixedIs` | 0.2.6/src/bcmcrypto/tkhash.c:226-232 | the sweep with the S-box and the bytes of the key that it uses |
| `Tkip.RotatedIs` | 0.2.6/src/bcmcrypto/tkhash.c:234-240 | the final sweep with its rotations and the last words of the key |
| `Tkip.NotWeakBits` | 0.2.6/src/bcmcrypto/tkhash.c:248-248 | the second byte is the first with bit 5 set and bit 7 clear |
| `Tkip.KeyBytes` | 0.2.6/src/bcmcrypto/tkhash.c:246-256 | the bytes of the key: the low counter in clear, and the words with their low bytes first |
| `Tkip.RoundsPermute` | 0.2.6/src/bcmcrypto/tkhash.c:183-191 | the rounds of phase 1 can be run backwards, on both sides |
| `Tkip.Phase1Bijective` | 0.2.6/src/bcmcrypto/tkhash.c:169-192 | different addresses or high counters give different phase 1 keys, for any S-box and temporal key |
| `Tkip.Phase1Onto` | 0.2.6/src/bcmcrypto/tkhash.c:169-192 | and every block of 80 bits is the phase 1 key of one of them |
| `Tkip.Phase2Injective` | 0.2.6/src/bcmcrypto/tkhash.c:216-257 | phase 2 keeps different phase 1 keys or low counters apart |
| `Tkip.KeysUnique` | 0.2.6/src/bcmcrypto/tkhash.c:241-244 | no two packets under one temporal key get the same last twelve key bytes, as the comment claims |

## Left out

- The variants of other configurations: inline assembly, double-word types, words of other sizes, the
  unrolled alternative of the Rijndael rounds, MSVC byte swaps.
- Everything under NOT_NEEDED_FOR_DH in bn.c (gcd, reciprocal and simple exponentiation, quick modular
  operations), bn_mul_part_recursive, bn_mul_low_* and bn_mul_high, which BN_mul never calls.
- Random numbers, prime generation and primality tests, and the checks of DH parameters, which are
  probabilistic or input.
- Allocation failures, flags (static data), clearing and freeing of memory, debug output, test
  programs; pointers that are NULL where the source would fail on them.
- Product.CtxGet: does not model the limit of the pool of temporaries nor the reuse of one object by
  several users; each temporary is separate, with unknown contents.
- Inverse.ModInverse: requires a result that is not the modulus object; the source's last reduction
  would read the modulus after it has been overwritten.
- WordOps.DivWords: requires a divisor of zero or with its top bit set, as all callers give one; for
  others the source's assertion on the operands is not part of this model.
- Montgomery.Set: requires a modulus with words; the source reads the low word of a modulus of zero,
  which need not exist.
- ModExp.ModExpMont: requires a modulus with words, for the same reason.
- DiffieHellman.DhModExp: requires a modulus with words, for the same reason, and a base that is not
  negative, as all bases are that come from bytes or a word.
- DiffieHellman.DH.ComputeKeyBn: requires a peer's number that is not negative, as those from bytes are.
- PassHash.State.DoPasshash: takes a number of rounds that is not negative; the source accepts negative
  ones, which make it lose count of the rounds done.
- KeyWrap.AesUnwrap: requires some input if the key length is accepted; without any the source would
  copy far more bytes than there are.
- Collector.Ctx.Update: takes the block function as a mathematical function; that sha256_block computes
  one is Sha256.Small, Sha256.Unrolled and Sha256.BlocksAreAbsorbed. The little-endian variant of the
  collector is not modelled.
- CBC mode and its paddings, CMAC, CCMP headers, the other ciphers and hashes (DES, RC4, SMS4, MD4, MD5,
  SHA-1, Michael) and the pseudo-random functions over hmac_sha1: repeats of what is here, or dependent
  on headers and tables that are data.
- The S-boxes as tables of constants: every statement holds for any S-box, with an inverse where one is
  needed.
