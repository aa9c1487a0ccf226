# Proofs about nftables

This project models two layers of nftables and proves what they are for.

**The bignum engine** (`src/mini-gmp.c`, driven through `src/gmputil.c`). Every
address, mask, range end and set key is an `mpz_t`. Limbs are integers below
B = 2^64 with explicit wrap-around, arrays of them are heap arrays that the
methods rewrite in place, and a number is the value `Limbs.Val` of its limbs
with a sign. The main results: the reciprocal is exact, division through
normalisation, estimate, correction and add-back is exact for all sizes and
rounding modes, products, extended and plain gcd, integer roots, two's-complement
logic on sign-magnitude numbers, text in every base and back, bytes and back.

**The rule compiler.** Expressions are rewritten (`src/evaluate.c`), lowered to
instructions for a register machine of 16 slots (`src/netlink_linearize.c`), and
set keys are laid out as bytes and read back (`src/netlink.c`,
`src/expression.c`, `src/datatype.c`). The main results: running the code that is
emitted for a rule is judging its statements one by one, a prefix is compared
right exactly under a condition on the bits of both sides, a chain of bit
operations is one mask and one exclusive-or, moving an operation to the other
side keeps a relation exactly under stated conditions, the rule that evaluation and
compilation make of a bit field decides in every packet as the bits of the field do,
reading and writing bit fields obey the lens laws, and keys, type ids, prefixes and
times survive the round trip.

Two stateful parts go with it: the cache that is filled by several dumps from a
kernel that changes meanwhile (`src/cache.c`, `src/mnl.c`), and the merge sort
that relinks a circular list in place (`src/mergesort.c`, `include/list.h`).

## Layout

| files | what they hold |
|---|---|
| Arith, Limbs, PowerOfTwo, Bits, WordOps, Digits, Lengths, Bytes | numbers, words, bits, digits and bytes |
| Mpn, Product, Reciprocal, MpnDivision | loops over limb arrays |
| Mpz (module `MpzObject`), MpzDivision, Logic | numbers as objects |
| Gcd, BinaryGcd, RootRem | algorithms on numbers |
| Radix, RadixBits, NumberText, ByteIO, RawBytes | text and bytes of numbers |
| Machine, Terms, Linearize, Rules, Generator, BinopFold | the compiler and its target |
| BitTests, Shortened, PrefixExact, PrefixRules | comparisons with prefixes |
| PacketBits, PayloadBits, BinopTransfer, BinopExact | evaluation of expressions |
| FieldRules, NetworkShift, WideConstants | evaluation and compilation together: bit fields and moved shifts |
| SetKeys, SetLookup, TypeIds, Prefixes, TimeFormat | encodings |
| Netlink, Cache | the cache |
| ListHead, MergeSort, SortValue, SortOrder | the sort |

## Assumptions that the statements carry

- The kernel's instructions are part of the model (`Machine.Exec`): comparison is
  `memcmp`, writes are zero-padded to whole slots, a shift works on a host-order
  number cut to its bytes, a field is there as a whole or not at all, the hash is
  a function of its parameters and input. The host is little-endian.
- A rule is what evaluation leaves behind (`Terms.WellTyped`,
  `Rules.RelationTyped`): a mask may be wider than its node, as a moved right shift
  leaves it, and a field shorter or longer than its load when a mask cuts it; other
  operands have the length of their node. Constants have the order of the left side
  and as many bytes, or in host order more within the slots of the value; order
  comparisons and ranges are big-endian, chains have at most 15 operations, prefixes
  cleared low bits. `FieldRules` shows that what expr_evaluate_bits and
  binop_transfer build for the bit fields of headers is like that.
- A rule with prefixes runs as it is judged if they agree
  (`Rules.RulePrefixesAgree`); `PrefixRules.ShortStmtExact` and
  `Shortened.MaskExact` say when they do.
- The cache is about kernels whose generation numbers do not come back during the
  call: they are 16 bits wide in messages, so fewer than 2^16 commits and no
  number zero (`Netlink.Socket.Valid`), and about rules that belong to chains of
  their table (`Cache.Sound`).

## What was found

- A prefix of whole bytes is compared by shortening the left side, whatever it is.
  Over a plain field in host order or not of whole bytes, and over bit operations
  whose mask is cut to its low bits, the rule compares something else
  (`PrefixRules.MaskedSourceFails`, `PrefixRules.MarkPrefixFails`);
  `PrefixExact.PlainExact`, `PrefixExact.ChainExact` and `Shortened.ShortExact`
  say exactly when it is right.
- A right shift that is moved to the other side is always right as a relation
  between numbers (`BinopExact.RightShiftKept`), but it leaves a constant longer
  by the shift. In host order the code is right for all values and all register
  contents if and only if that constant ends within the slots of the value, or has a
  byte there that cannot be met (`WideConstants.MovedWideExact`,
  `WideConstants.SmallFits`). The 40 bits of `meta mark >> 8 == 1` do neither: with
  the mark 0x100 and another byte than zero behind it the rule does not match
  (`WideConstants.MarkShiftFails`).
- A shift that binop_transfer does not remove (the key of a named set, a
  concatenation) is done on the bytes of a field in network order as if they were in
  host order. That reads the field in every packet if and only if it touches one
  byte or there is nothing to shift (`NetworkShift.NetworkShiftExact`).
- An exclusive-or can be moved to the other side of an order comparison only if
  its operand is zero (`BinopExact.XorOrderExact`), and of a range only under the
  condition of `BinopExact.XorRangeExact`; the code moves it always.
- `range_expr_to_prefix` does not look at the low bits of the low end: 1-2 becomes
  1/30 (`Prefixes.UnalignedRange`). `Prefixes.PrefixMeansRange` says exactly when its
  answer denotes the range.
- Keys with a component whose width is not a multiple of eight are not read back,
  in either order (`SetKeys.ByteMultipleExact`), and more than five type ids may
  not fit the word (`TypeIds.TypeRoundTrip`).
- A slot number above the register file may be read back as another one
  (`Machine.RegisterRoundTrip`).
- The sort turns equal elements round (`SortOrder.SortedOf`,
  `MergeSort.EqualPairIsReversed`); it keeps their order exactly when there are
  none (`SortOrder.StableExactly`).
- The comment at src/mini-gmp.c:2977 promises |s| < |u| / 2g, which fails for 3
  and 7 (`Gcd.CommentedBoundFails`). What the code arranges is a bound by the
  other operand, and not strict: 2|s|g <= |v|, or the same for t and u when the
  operands were swapped (`Gcd.GcdExt`). The commented bound follows for |v| < |u|
  with |u| > 2g (`Gcd.CommentedBoundHolds`).
- The list functions of `src/netlink.c` report a dump that failed otherwise than
  by EINTR as an empty list and success (`Netlink.Socket.List`), and a chain dump
  failing so ends the initialisation of the cache with success. The cache then
  counts as up to date without its chains (`Cache.ChainsLost`,
  `Cache.NftCache.BareShows`). A failing dump of sets, elements, rules, flowtables or
  objects leaves that list empty, for rules all chains of the table without them, and
  the rest as it is in the kernel; what is left shows the kernel exactly if the list
  is empty there too (`Cache.NftCache.PartialShows`). Without failures of the socket
  nothing is lost (`Cache.NftCache.CacheUpdate`).

## Model

| member | source | states |
|---|---|---|
| `WordOps.Umul` | src/mini-gmp.c:114-137 | Four half-word products with wrapping carries give the exact double-word product of any two limbs. |
| `WordOps.AddPair` | src/mini-gmp.c:98-104 | The sum of two double words, with exactly the overflow of the double word dropped. |
| `WordOps.SubPair` | src/mini-gmp.c:106-112 | The difference of two double words modulo the square of the limb base. |
| `Mpn.Clz` | src/mini-gmp.c:79-89 | For any non-zero limb, the one shift below 64 that brings its highest bit to the top. |
| `Mpn.AddN` | src/mini-gmp.c:415-432 | Sum and carry of two arrays of equal length as numbers; the destination may be an operand; no word outside the window changes. |
| `Mpn.SubN` | src/mini-gmp.c:468-484 | Difference and borrow of two arrays as numbers, under the same aliasing. |
| `Mpn.Add1` | src/mini-gmp.c:396-413 | Adding one word to a window of an array: value with carry. |
| `Mpn.Sub1` | src/mini-gmp.c:447-466 | Subtracting one word from a window of an array: value with borrow. |
| `Mpn.SubMul1` | src/mini-gmp.c:548-572 | Multiply-and-subtract of a window: new value minus outgoing borrow equals old value minus the product. |
| `Mpn.LShift` | src/mini-gmp.c:609-637 | Left shift as multiplication by a power of two with the bits shifted out returned, and what each word becomes. |
| `Mpn.RShift` | src/mini-gmp.c:639-664 | Right shift as exact division with the dropped bits returned at the top of a word. |
| `Mpn.Cmp` | src/mini-gmp.c:355-364 | The sign of the result is the order of the two numbers, both directions. |
| `Mpn.NormalizedSize` | src/mini-gmp.c:375-381 | The size without leading zero limbs, the value unchanged. |
| `Product.Mul1` | src/mini-gmp.c:499-520 | Product of an array by a word: value and high limb, in place or not. |
| `Product.AddMul1` | src/mini-gmp.c:522-546 | Multiply-and-add of a window: the carry out of two wrapping additions is exact. |
| `Product.Mul` | src/mini-gmp.c:574-595 | Schoolbook product: un+vn limbs whose value is the product of the two operand values; the top limb is returned. |
| `Product.MpzMul` | src/mini-gmp.c:2054-2090 | For all signs and zeros, and r being u or v or both, r becomes the product and is normalised. |
| `Reciprocal.Invert3by2` | src/mini-gmp.c:735-839 | For every normalised u1 and every u0 the result is exactly floor((B^3-1)/(B*u1+u0)) - B, through the half-limb steps and the three corrections. |
| `Reciprocal.InvertLimb` | include/mini-gmp.h:117 | With a zero low word the same routine gives floor((B^2-1)/u1) - B. |
| `Reciprocal.RestNotMinusOne` | src/mini-gmp.c:829-835 | The remainder that would make the strict and the non-strict final test differ cannot occur, so the strict one is right. |
| `Reciprocal.UdivQr3by2` | src/mini-gmp.c:158-183 | With the exact inverse, one step gives the exact quotient limb and a remainder below the divisor, despite wrapping estimates and both corrections. |
| `Reciprocal.UdivQrnndPreinv` | src/mini-gmp.c:139-153 | The same for a double word by a normalised word. |
| `Reciprocal.ThreeByTwo` | src/mini-gmp.c:158-183 | The bounds on the estimated remainder that make one mask correction and one rare second correction enough. |
| `MpnDivision.DivQr1Invert` | src/mini-gmp.c:851-861 | Shift, normalised divisor and exact inverse for a one-limb divisor. |
| `MpnDivision.DivQr2Invert` | src/mini-gmp.c:863-880 | The same for two limbs. |
| `MpnDivision.DivQrInvert` | src/mini-gmp.c:882-911 | The same for any length: the two top limbs of the shifted divisor, the third one feeding the bits shifted in. |
| `MpnDivision.DivQr1Preinv` | src/mini-gmp.c:915-946 | n = q*d + r with r < d for one limb, quotient stored only if wanted. |
| `MpnDivision.DivQr2Preinv` | src/mini-gmp.c:978-1027 | n = q*d + r with r < d for two limbs, the remainder shifted back. |
| `MpnDivision.StepSubtract` | src/mini-gmp.c:1081-1089 | The 3/2 quotient estimate, the row subtracted from the window and the borrow it leaves: an exact identity. |
| `MpnDivision.DivStep` | src/mini-gmp.c:1071-1096 | One quotient limb of schoolbook division: the window becomes the remainder of window divided by divisor, through add-back and through the q = B-1 case. |
| `MpnDivision.DivQrPi1` | src/mini-gmp.c:1042-1103 | For a normalised divisor of more than two limbs: n = q*d + r and r < d. |
| `MpnDivision.DivQrManyPreinv` | src/mini-gmp.c:1105-1137 | Normalisation around it: shifted numerator, high limb carried in, remainder shifted back. |
| `MpnDivision.DivQr` | src/mini-gmp.c:1139-1158 | For any divisor with a non-zero top limb, of one, two or more limbs: the numerator is quotient times divisor plus the remainder left in place, which is below the divisor; other words keep their values. |
| `MpzObject.Realloc` | src/mini-gmp.c:1453-1468 | The buffer has at least n words, is new or the old one, and old words survive. |
| `MpzObject.AddArrays` | src/mini-gmp.c:434-445 | Sum of arrays of unequal length, with carry. |
| `MpzObject.SubArrays` | src/mini-gmp.c:486-497 | Difference of arrays of unequal length, with borrow. |
| `MpzObject.Cmp4` | src/mini-gmp.c:366-373 | Order of two normalised arrays of any lengths, the length deciding first. |
| `MpzObject.Set` | src/mini-gmp.c:1500-1515 | r takes the value of x, also when they are one object. |
| `MpzObject.AbsAdd` | src/mini-gmp.c:1942-1962 | The buffer stores the sum of the magnitudes, normalised, also when r is a or b. |
| `MpzObject.AbsSub` | src/mini-gmp.c:1964-1987 | The buffer stores the difference of the magnitudes; the returned size has its sign. |
| `MpzObject.Add` | src/mini-gmp.c:1989-2000 | Signed addition of objects, r possibly an operand: integer sum, normalised. |
| `MpzObject.Sub` | src/mini-gmp.c:2002-2013 | Signed subtraction of objects, r possibly an operand: integer difference, normalised. |
| `MpzObject.AddUi` | src/mini-gmp.c:1915-1922 | Signed number plus a word. |
| `MpzObject.SubUi` | src/mini-gmp.c:1924-1931 | Signed number minus a word. |
| `MpzDivision.DivQr` | src/mini-gmp.c:2171-2281 | For every n and d != 0 and each mode, with q and r optional and possibly n or d: n = q*d + r, abs(r) < abs(d), the remainder with the sign the mode asks for, and the result tells whether r is non-zero. |
| `MpzDivision.RoundedIsQuotient` | src/mini-gmp.c:2171-2281 | That relation determines q as n/d rounded by floor, ceiling or truncation, over the reals. |
| `MpzDivision.TruncDivide` | src/mini-gmp.c:2224-2252 | The truncated quotient and remainder before rounding, on copies, normalised and signed. |
| `MpzDivision.CorrectRounding` | src/mini-gmp.c:2254-2267 | The correction by one quotient and one divisor gives the rounding asked for. |
| `MpzDivision.DivQrShort` | src/mini-gmp.c:2196-2223 | A numerator shorter than the divisor: 0 or plus or minus one as the mode asks. |
| `Gcd.MakeOdd` | src/mini-gmp.c:2745-2756 | x is the odd result times two to the returned shift. |
| `Gcd.Reduce` | src/mini-gmp.c:2915-2948 | Subtract-and-shift ends, and both inputs stay combinations of the current pair with determinant two to the accumulated power. |
| `Gcd.OddGcd` | src/mini-gmp.c:2951-2960 | The last pair divides both inputs, and the cofactors combine them to the gcd times two to the power. |
| `Gcd.RemovePower` | src/mini-gmp.c:2957-2975 | Every factor of two is removed from the cofactors exactly, the identity kept. |
| `Gcd.GcdExt` | src/mini-gmp.c:2821-3001 | For all integers, zeros and signs included: g is the non-negative gcd, s*u + t*v = g, one cofactor is at most half of the other number over g, and abs(s) < abs(u) / 2g when 0 < abs(v) < abs(u) and abs(u) > 2g. |
| `Gcd.GcdUnique` | src/mini-gmp.c:2758-3001 | Any two greatest common divisors are equal, so both gcd routines agree. |
| `Gcd.BezoutIsGcd` | src/mini-gmp.c:2821-3001 | A common divisor that is an integer combination is the greatest. |
| `Gcd.CommentedBoundFails` | src/mini-gmp.c:2977-2988 | The comment says abs(s) < abs(u) / 2g; for 3 and 7 every result that the contract of GcdExt allows is s = -2, which is not, while the bound by the other number holds. |
| `Gcd.CommentedBoundHolds` | src/mini-gmp.c:2977-2988 | If abs(v) < abs(u) and abs(u) > 2g the commented bound does hold, whichever of the two cofactors is the small one. |
| `Gcd.TwiceGcdReached` | src/mini-gmp.c:2977-2988 | With abs(u) = 2g it need not: cofactors that the arrangement allows reach abs(u) / 2g. |
| `BinaryGcd.MpzGcd` | src/mini-gmp.c:2758-2819 | For all integers the result is their non-negative gcd: common power of two, binary loop on odd parts, single-word end. |
| `BinaryGcd.GcdLoop` | src/mini-gmp.c:2793-2815 | The loop ends and returns the gcd of any positive number and an odd one, whether it ends by equality or on one limb. |
| `BinaryGcd.GcdWords` | src/mini-gmp.c:2679-2720 | The gcd of two words that are not both zero. |
| `BinaryGcd.ShiftKeeps` | src/mini-gmp.c:2797 | Next to an odd number a power of two can be dropped without changing any greatest common divisor. |
| `BinaryGcd.PowersBack` | src/mini-gmp.c:2774-2818 | Only the smaller power of two belongs to the gcd, and multiplying it back is exact. |
| `RootRem.RootRem` | src/mini-gmp.c:3214-3273 | For z >= 1, and y < 0 only for odd z: x is the z-th root truncated toward zero and r = y - x^z; the iteration ends. |
| `RootRem.NewtonAbove` | src/mini-gmp.c:3239-3260 | A Newton step from any positive number never goes below the true root. |
| `RootRem.NewtonStops` | src/mini-gmp.c:3239-3260 | When a step does not decrease, the current number is not above the root. |
| `RootRem.Iterate` | src/mini-gmp.c:3253-3260 | The loop for any z, with signs, ends at the root of the magnitude. |
| `RootRem.IterateSquare` | src/mini-gmp.c:3240-3245 | The same for the square root loop. |
| `RootRem.RootUnique` | src/mini-gmp.c:3214-3273 | Root and remainder are determined by the specification. |
| `Logic.Logic` | src/mini-gmp.c:3630-3842 | and, or, exclusive-or of sign-magnitude objects, all signs, lengths and aliasings: the infinite two's-complement operation, normalised. |
| `Logic.CommonLimbs` | src/mini-gmp.c:3670-3682 | The streamed +1 carries over the common limbs: result so far plus rest is the wanted magnitude. |
| `Logic.RemainingLimbs` | src/mini-gmp.c:3685-3693 | The same over the limbs of the longer operand. |
| `Bits.BitwiseTestBit` | src/mini-gmp.c:3473-3493 | Every two's-complement bit of the result is the operation on the bits of the operands. |
| `Bits.SameBits` | src/mini-gmp.c:3473-3493 | Two integers with the same bits are equal. |
| `Radix.GetBaseInfo` | src/mini-gmp.c:1187-1200 | The largest power of the base that fits a limb, and its exponent. |
| `Radix.LimbGetStr` | src/mini-gmp.c:1243-1262 | The digits of one word, lowest first, no leading zero. |
| `Radix.NextChunk` | src/mini-gmp.c:1282-1293 | One division by the big base moves digits to the buffer without changing the number that digits and rest stand for, and the rest decreases. |
| `Radix.GetStrOther` | src/mini-gmp.c:1264-1306 | Digits whose value in the base is the number, the first not zero. |
| `Radix.SetStrOther` | src/mini-gmp.c:1361-1397 | The limbs stand for the value of the digits, normalised, first chunk possibly short. |
| `RadixBits.BaseBitsPower` | src/mini-gmp.c:1162-1177 | Recognised are exactly the first eight powers of two, each with its exponent. |
| `RadixBits.LimbSize` | src/mini-gmp.c:1202-1210 | Bit length of a word. |
| `RadixBits.GetStrBits` | src/mini-gmp.c:1212-1239 | Bit packing across limb borders gives digits with the value of the number, first not zero. |
| `RadixBits.SetStrBits` | src/mini-gmp.c:1328-1357 | The packed limbs store the value of the digits, normalised. |
| `RadixBits.PackDigit` | src/mini-gmp.c:1336-1353 | One digit placed: inside a limb, filling it, or split over two, high bits lost from one limb found in the next. |
| `NumberText.SizeInBase` | src/mini-gmp.c:4005-4056 | For bases 2 to 36 exactly the number of digits of the magnitude, one for zero. |
| `NumberText.GetStr` | src/mini-gmp.c:4058-4121 | Text of the number in the base and letter case asked for, as many digits as counted, no leading zero, u unchanged; none for an unsupported base. |
| `NumberText.SetStr` | src/mini-gmp.c:4123-4225 | Spaces, sign, base prefix and digits read as specified; -1 and zero for malformed text. |
| `NumberText.TextRoundTrip` | src/mini-gmp.c:4058-4225 | For every integer and base 2 to 36, in either case, reading the text gives the number back. |
| `NumberText.DecimalRoundTrip` | src/mini-gmp.c:4058-4225 | Decimal text also reads back with the base left to be detected. |
| `Digits.CountOfDigits` | src/mini-gmp.c:4005-4121 | Digits without a leading zero are exactly as many as divisions by the base it takes to reach zero. |
| `Digits.DigitsUnique` | src/mini-gmp.c:4058-4225 | Digits of a given length are determined by their value. |
| `ByteIO.MpzImport` | src/mini-gmp.c:4257-4323 | For every count, word size, word order and byte order (the host order detected): the number whose bytes from the low end on are those of the words from the least significant one on; normalised, source unchanged. |
| `ByteIO.SameOrder` | src/mini-gmp.c:4257-4323 | Words and bytes in the same order are the bytes of one number in that order, whatever the word size. |
| `ByteIO.MpzExport` | src/mini-gmp.c:4325-4412 | As many words as the number needs and no more, in a given or a new buffer, in every word and byte order: reading them back from the low end gives the digits of the magnitude; zero writes nothing, and nothing behind the words changes. |
| `ByteIO.WordCountBounds` | src/mini-gmp.c:4355-4364 | The words counted from the bytes of the top limb hold the number, and one less would not. |
| `ByteIO.ExportData` | src/gmputil.c:90-111 | The bytes of the number in len bytes, zero included, or in as many full words of len bytes as a longer number takes, with the rest of the buffer unchanged. |
| `ByteIO.ImportData` | src/gmputil.c:113-132 | Exactly the number of the bytes. |
| `ByteIO.SwitchByteorder` | src/gmputil.c:134-140 | The bytes of the new number are those of the old one reversed. |
| `ByteIO.SwitchTwice` | src/gmputil.c:134-140 | Switching twice gives the number back. |
| `Bytes.ImportExport` | src/gmputil.c:90-132 | Import after export is the identity on numbers below 256^len, in either order. |
| `Bytes.ExportImport` | src/gmputil.c:90-132 | Export after import is the identity on byte strings, in either order. |
| `Bytes.MemcmpBig` | src/netlink_linearize.c:409-460 | Comparing big-endian bytes is comparing numbers; the reason range and order comparisons are big-endian. |
| `Bytes.ExportBitwise` | src/netlink_linearize.c:614-682 | Bitwise operations commute with export in either order. |
| `BinopFold.OnesBit` | src/gmputil.c:22-27 | mpz_bitmask has exactly the low bits of the width set. |
| `BinopFold.CombineStep` | src/netlink_linearize.c:578-585 | Adding one operation to a mask/xor pair keeps its meaning for every input of the width; the operand of an And may be wider than that. |
| `BinopFold.FoldIsNested` | src/netlink_linearize.c:614-682 | For every chain of and, or, exclusive-or, with masks of any width and other constants of the width, the single (x & mask) ^ xor equals the nested evaluation on every input of the width. |
| `BinopFold.FoldModulo` | src/netlink_linearize.c:614-682 | For any input the fold is the nested operations modulo the width, exactly them whenever their value has the width. |
| `BinopFold.FoldExact` | src/netlink_linearize.c:614-682 | For such a chain and any input, wider ones included: the fold equals the nested operations if and only if the masks of the chain let none of the bits above the width through. |
| `BinopFold.KeptNarrow` | src/netlink_linearize.c:614-682 | With all operands of the width nothing is let through if and only if nothing is above it or one of the operations is an And. |
| `BinopFold.WiderInputLosesBits` | src/netlink_linearize.c:639 | A wider input at which it does not: an exclusive-or on one bit more than the width. |
| `Machine.RegisterRoundTrip` | src/netlink_linearize.c:56-69 | A slot survives the conversion to compatible register numbers and back (src/netlink_delinearize.c:49-62) if and only if it is one of the 16 slots or not the first of a quadruple. |
| `Terms.EvalIsNested` | src/netlink_linearize.c:614-682 | The value of a chain is its constant operations applied one by one to the operand below the chain. |
| `Linearize.FoldRuns` | src/netlink_linearize.c:614-682 | The one bitwise instruction leaves the image of the whole chain where its operand was, also for masks wider than the node and for a field shorter than the bytes loaded for it, when a mask cuts it. |
| `Linearize.ShiftRuns` | src/netlink_linearize.c:587-612 | The shift instruction leaves the shifted value, cut to the width. |
| `Linearize.SwapRuns` | src/netlink_linearize.c:711-737 | The byte-order instruction leaves the same value in the other order. |
| `Linearize.HashRuns` | src/netlink_linearize.c:153-179 | The key is computed in registers above the low mark, and only the hash is left, in the destination. |
| `Linearize.ValueRuns` | src/netlink_linearize.c:739-769 | An immediate leaves the padded bytes of the constant. |
| `Linearize.PartsRuns` | src/netlink_linearize.c:119-129 | Components land one after the other, each padded to whole slots. |
| `Linearize.TermRuns` | src/netlink_linearize.c:785-832 | For every well-typed expression the emitted code leaves exactly its image at the destination, nothing else below the low register changes, and it stops the rule exactly when a field is absent. |
| `Linearize.ExprRuns` | src/netlink_linearize.c:785-832 | The same for concatenations. |
| `Shortened.PrefixMaskKeeps` | src/gmputil.c:35-39 | The prefix mask keeps exactly the leading bits. |
| `BitTests.SameOnExact` | src/netlink_linearize.c:505-576 | A mask and a value are a test of bits; two tests accept the same numbers of a width if and only if within it they have the same mask and value, or neither can hold. |
| `RawBytes.RawDataWritten` | src/netlink.c:215-221 | The data of an instruction, when the number is longer than they are: the most significant word of that length in network order, the low bytes in host order. |
| `RawBytes.GenRawData` | src/netlink.c:215-221 | The exporting method leaves exactly these bytes in front. |
| `Shortened.ShortRuns` | src/netlink_linearize.c:541-552 | With its node shortened to the whole bytes of a prefix, a field, a chain, a shift, a swap, a hash or a constant leaves the bytes that the model gives for it, and stops the rule exactly when a field is absent. |
| `Shortened.ShortIsTest` | src/netlink_linearize.c:541-552 | Comparing them with the leading bytes of the constant is one test of bits of the operand, through the fold at the short length, the shift or the byte order. |
| `Shortened.ShortExact` | src/netlink_linearize.c:541-552 | Over any left side that test is the comparison of prefixes for all values that the bytes of the operand can hold if and only if the two tests have the same bits with the same values, or neither can hold. |
| `Shortened.MaskExact` | src/netlink_linearize.c:382-407 | A prefix by a mask of as many whole bytes as the type has: right for all values if and only if the mask in effect, with the byte left over, is the prefix mask, or neither can hold. |
| `Shortened.WholeBytesRight` | src/netlink_linearize.c:382-407 | For types of whole bytes and a cleared base it is right for every value. |
| `PrefixExact.PlainExact` | src/netlink_linearize.c:547-552 | Over a plain field: right for all values if and only if it is whole bytes in network order, the prefix is that of a string, or it is the whole field. |
| `PrefixExact.ChainExact` | src/netlink_linearize.c:547-552 | Over a chain of bit operations in network order: right for all values and all bases if and only if the mask and the exclusive-or folded at the length of the prefix are the leading parts of those folded in full. |
| `Rules.ConstPasses` | src/netlink_linearize.c:505-576 | Comparison with a constant, of as many bytes or longer within the zeros that fill up the slots of a value in host order, and the mask of a flag test (lines 462-503): the rule goes on exactly when the relation holds. |
| `Rules.RangePasses` | src/netlink_linearize.c:409-460 | Two comparisons for a range, one for its negation: exactly membership. |
| `Rules.MaskPasses` | src/netlink_linearize.c:382-407 | A prefix by masking goes on exactly when the masked test holds. |
| `Rules.ShortMatch` | src/netlink_linearize.c:541-576 | A prefix of whole bytes goes on exactly when the test of the shortened left side holds, and stops when a field is absent. |
| `Rules.SetPasses` | src/netlink_linearize.c:335-359 | A lookup, plain or inverted: exactly membership of the key bytes. |
| `SetLookup.ImageIsKey` | src/netlink_linearize.c:119-129 | The bytes of a concatenation are those that netlink_gen_concat_data (src/netlink.c:260-275) writes for a key of its values. |
| `SetLookup.KeysSame` | src/netlink.c:260-275 | Keys of one list of types have the same bytes if and only if every component ends at the same number, whatever bits its bytes have. |
| `SetLookup.LookupDecides` | src/netlink_linearize.c:335-359 | In a set filled with keys, looking a concatenation up decides whether its values are those of one of the keys, inverted for a negation. |
| `Rules.MatchRuns` | src/netlink_linearize.c:505-576 | A relational statement decides as its direct meaning if and only if, where it has a prefix, the emitted test comes out as the comparison of prefixes; in any case it ends by going on or by not matching. |
| `Rules.TypedGenerates` | src/netlink_linearize.c:505-576 | What evaluation lets through is translated, except exactly for a masked prefix of a type of less than a byte. |
| `PrefixRules.ShortStmtExact` | src/netlink_linearize.c:541-576 | A statement with a prefix of whole bytes over a field or one operation on it decides right for every value of the field if and only if the two tests of bits are the same. |
| `PrefixRules.FieldStmtExact` | src/netlink_linearize.c:541-576 | The same over a plain field, with the condition on its order and length. |
| `PrefixRules.MaskStmtAgrees` | src/netlink_linearize.c:382-407 | A masked prefix of a type of whole bytes always decides right. |
| `PrefixRules.MaskedSourceFails` | src/netlink_linearize.c:541-552 | ip saddr & 255.255.0.0 == 10.0.0.0/8 from 10.1.2.3: the code ends without a match, the relation holds. |
| `PrefixRules.MarkPrefixFails` | src/netlink_linearize.c:541-552 | meta mark 0x10000000/8 with the mark 0x10000001: likewise. |
| `Rules.VmapRuns` | src/netlink_linearize.c:297-333 | A verdict map agrees with looking its key up directly; a missing key ends the rule. |
| `Rules.RuleRuns` | src/netlink_linearize.c:1609-1616 | For every typed rule that the generator accepts and whose prefixes agree, running the emitted code from any registers gives the same outcome as judging the statements one by one. |
| `Generator.Ctx.GetRegister` | src/netlink_linearize.c:71-104 | Refused exactly when the 16 slots would be exceeded; otherwise the slots from the old low mark on. |
| `Generator.Ctx.ReleaseRegister` | src/netlink_linearize.c:85-113 | Refused exactly when more would be released than taken; otherwise the mark goes back. |
| `Generator.CollectBinops` | src/netlink_linearize.c:631-637 | The chain is stored from the outside in, within the array of 16, with the operand at the end. |
| `Generator.FoldBinops` | src/netlink_linearize.c:639-661 | The loop over the array computes the mask and xor of the fold. |
| `Generator.Ctx.GenBitwise` | src/netlink_linearize.c:614-682 | Appends the code of the chain, with the folded constants, and restores the low mark. |
| `Generator.Ctx.GenHash` | src/netlink_linearize.c:153-179 | Takes and gives back registers for the key around its code. |
| `Generator.Ctx.GenConcat` | src/netlink_linearize.c:119-129 | Appends the code of the components at advancing slots. |
| `Generator.Ctx.GenExpr` | src/netlink_linearize.c:785-832 | Appends exactly the code of the expression, the low mark as before; stops exactly when the registers do not suffice. |
| `Generator.Ctx.GenShort` | src/netlink_linearize.c:541-552 | The same for a node whose length has been changed to that of a prefix. |
| `Generator.Ctx.GenRelational` | src/netlink_linearize.c:505-576 | Stops exactly when the statement cannot be translated or needs more than 16 slots; otherwise appends its code, the registers of a shortened or full left side released. |
| `Generator.Ctx.GenVmap` | src/netlink_linearize.c:297-333 | The same for verdict maps. |
| `Generator.Ctx.LinearizeRule` | src/netlink_linearize.c:1609-1616 | The program of a rule: stops exactly when a statement cannot be translated or needs more than 16 slots; otherwise the low mark is back at its start, the rule is the code of the statements, and if their prefixes agree it runs as they are judged. |
| `PayloadBits.ExprOffsetShift` | src/evaluate.c:451-465 | The load covers exactly the touched bytes, and the shift is what lies below the field. |
| `PayloadBits.EvaluateBits` | src/evaluate.c:467-521 | For every offset, length and packet, loading the touched bytes, masking and shifting gives exactly the bits of the field. |
| `FieldRules.MovedRuns` | src/evaluate.c:1769-1859 | A statement whose right shift has been moved, with the uncut mask in its place, decides as the shifted value of any left side compares with the constants that were written. |
| `FieldRules.EvaluateFieldMatch` | src/evaluate.c:467-521 | From a field of any place and length and a comparison with a value or a range to a statement, through mask, shift and transfer (lines 1845-1859): in every packet and from all register contents its code decides as the bits of the field compare with the original constants. |
| `FieldRules.ShiftedFieldRuns` | src/evaluate.c:467-521 | The same for a field above other bits, for whatever right side the transfer leaves. |
| `FieldRules.LastFieldRuns` | src/evaluate.c:467-521 | The same for a field at the end of its bytes, which may be shorter than the load. |
| `FieldRules.LiteralShifted` | src/evaluate.c:1796-1843 | In a literal set every member becomes the shifted one, also below an element and on the left of a mapping. |
| `FieldRules.FieldLookupRuns` | src/netlink_linearize.c:335-359 | In a set that holds the shifted members, looking the masked bytes up decides whether the bits of the field are one of the values that were written, inverted for a negation. |
| `FieldRules.FieldVmapRuns` | src/netlink_linearize.c:297-333 | In a verdict map over the shifted members (the transfer is at src/evaluate.c:1539), the rule ends with the verdict of the value that the bits of the field are, or without a match. |
| `NetworkShift.ShiftedCodeRuns` | src/netlink_linearize.c:587-612 | Where the shift stays, its code leaves the bytes of the masked field shifted as a number in host order. |
| `NetworkShift.ShiftFails` | src/evaluate.c:499-513 | For every field over two or more bytes with a shift, a packet for which these are not the bytes of the field. |
| `NetworkShift.NetworkShiftExact` | src/evaluate.c:499-513 | They are those of the field in every packet if and only if the field touches one byte or there is nothing to shift. |
| `PayloadBits.MungeWrites` | src/evaluate.c:2398-2481 | (bytes & mask) ^ (val << shift) stored back makes the field val and changes no other bit of the packet. |
| `PayloadBits.PayloadStmt.Evaluate` | src/evaluate.c:2373-2484 | The rewritten statement is byte-aligned, of even length when a checksum is kept, with the extra byte before or after, and writes exactly the field in every packet it reaches. |
| `PayloadBits.MaskConstant` | src/evaluate.c:2398-2481 | The mask survives its way through a register-sized host-order buffer. |
| `PayloadBits.WriteUnique` | src/evaluate.c:2373-2484 | What is written is determined: two writes of the same value give the same packet. |
| `PayloadBits.WriteRead` | src/evaluate.c:467-521 | Writing what was read changes nothing. |
| `PayloadBits.WriteTwice` | src/evaluate.c:2373-2484 | Of two writes the second counts. |
| `BinopTransfer.Scan1Clear` | src/evaluate.c:1688-1724 | The scan test holds exactly when the low bits are clear. |
| `BinopTransfer.MaskForShift` | src/evaluate.c:1769-1794 | The mask put in place of a right shift keeps exactly the bits that the shift keeps. |
| `BinopTransfer.GrownOnce` | src/evaluate.c:1715-1718 | However many members a set has, a right shift lengthens the context at most once, and that is enough for every member. |
| `BinopTransfer.ShiftedConst` | src/evaluate.c:1726-1767 | So the shifted constant is evaluated again in full, at the length that has grown. |
| `BinopTransfer.RightShiftAccepted` | src/evaluate.c:1796-1843 | A right shift over evaluated constants is never refused. |
| `BinopTransfer.Relation.TransferRight` | src/evaluate.c:1796-1843 | Error exactly when a constant can never be equal or does not fit the length of the context; a literal set is rewritten in every member or left alone, with the context as long as the right shifts have made it. |
| `BinopTransfer.Relation.Transfer` | src/evaluate.c:1845-1859 | Moves the operation exactly when every member allows it, and then the relation holds for the same loaded values as before, a right shift for all of them. |
| `BinopTransfer.TransferPreserves` | src/evaluate.c:1683-1859 | The same as a law: for every operation, comparison, set, range and value. |
| `BinopTransfer.MemberMoves` | src/evaluate.c:1726-1767 | A member, wrapped or a range, holds a value exactly when the rewritten member holds the rewritten left side. |
| `BinopExact.RightShiftKept` | src/evaluate.c:1715-1718 | Moving a right shift keeps every one of the relations for all values: the constant becomes the shifted one, longer by the shift, with no bit cut. |
| `WideConstants.WideRuns` | src/netlink_linearize.c:505-576 | With a constant of more bytes than the left side, the statement goes on exactly when the bytes of the value, followed by the zeros that fill its slots and what the registers held behind them before, are those of the constant. |
| `WideConstants.WideExact` | src/netlink_linearize.c:505-576 | In host order, and for all values and all register contents, that is the comparison of the numbers if and only if the constant ends within the slots of the value, or has a byte that is not zero where those zeros are. |
| `WideConstants.SmallFits` | src/netlink_linearize.c:505-576 | For a constant that the value can be equal to: if and only if it ends within the slots. |
| `WideConstants.MovedWideExact` | src/evaluate.c:1715-1718 | After the right shift of a field in host order has been moved, the compiled statement decides as the shifted field does, for every value of it and all registers, if and only if the longer constant fits so. |
| `WideConstants.MarkShiftFails` | src/evaluate.c:1715-1718 | meta mark >> 8 == 1 with the mark 0x100 and a register byte behind the mark that is not zero: the shifted mark is 1, and the rule does not match. |
| `BinopExact.LeftShiftExact` | src/evaluate.c:1688-1724 | Moving a left shift is right for all values of w bits and all constants if and only if no bit is lost. |
| `BinopExact.XorOrderExact` | src/evaluate.c:1726-1767 | Moving an exclusive-or keeps an order comparison, each of the four, for all values if and only if its operand is zero. |
| `BinopExact.XorRangeExact` | src/evaluate.c:1726-1767 | It keeps a range if and only if the operand leaves the bits in which the ends differ, and those below, alone. |
| `SetKeys.ConstExpr.Splice` | src/expression.c:443-464 | Takes the leading n bits that are left and shortens what is left by n. |
| `SetKeys.PlainEnds` | src/expression.c:1329-1369 | A number belongs to a value, a prefix or a range if and only if it lies between the two ends that the key is made of. |
| `SetKeys.EndFits` | src/expression.c:1329-1369 | Both ends of a component fit its width, so nothing is cut off when they are exported. |
| `SetKeys.ExportPad` | src/netlink.c:223-230 | Writes exactly the bytes of the component in its order and counts whole slots. |
| `SetKeys.GenConcatData` | src/netlink.c:260-275 | For components of any width the buffer is the padded components one after the other, lower or upper ends. |
| `SetKeys.CutIsPart` | src/netlink.c:1079-1107 | Cutting any component out of the key gives its leading bits, turned round in host order, whatever stands before and behind it. |
| `SetKeys.ParseConcatElem` | src/netlink.c:1079-1107 | The loop returns the components cut out one after the other, or nothing when the assertion on the byte order of a component under eight bits fails. |
| `SetKeys.ByteMultipleExact` | src/netlink.c:1079-1107 | For every list of component types and either order: all keys of these types come back from their bytes, every value and range end of them, if and only if all the widths are multiples of eight. |
| `Lengths.PaddedLen` | include/netlink.h:102-105 | The next multiple of 32. |
| `TypeIds.PackIsDigits` | include/datatype.h:278-281 | Adding ids one by one is base 64, modulo the word. |
| `TypeIds.IdOfDigits` | include/datatype.h:283-286 | Extracting an id is taking that digit. |
| `TypeIds.Fls` | include/utils.h:97-124 | The bit length of any word, 0 for 0, through the five narrowing steps. |
| `TypeIds.ConcatTypeAlloc` | src/datatype.c:1128-1163 | The components are the digits down to the first zero one, the size their padded sizes added up; unknown exactly when one of them is. |
| `TypeIds.TypeRoundTrip` | src/datatype.c:1128-1163 | A list of ids is read back from its packed word if and only if the packed number fits 32 bits. |
| `TypeIds.FiveFit` | src/datatype.c:1128-1163 | Five ids always do. |
| `Prefixes.ClearedIsAligned` | src/evaluate.c:960-978 | The cleared base has the same leading bits and no others. |
| `Prefixes.GenPrefix` | src/netlink.c:338-354 | The buffer holds the first and the last address of the prefix. |
| `Prefixes.IsPrefixMeans` | src/netlink.c:1016-1029 | The scan test holds exactly for masks of low ones. |
| `Prefixes.PrefixExactlyBlock` | src/netlink.c:1036-1057 | For an aligned low end, a prefix comes out if and only if the range is a block of that power of two. |
| `Prefixes.PrefixMeansRange` | src/netlink.c:1036-1057 | Whenever a prefix comes out, it denotes the range if and only if the low end is aligned, which the program does not check. |
| `Prefixes.UnalignedRange` | src/netlink.c:1036-1057 | An input at which it does not: the range 1-2 becomes the prefix 1/30, which has 0 and 3 in it. |
| `Prefixes.ParseIntervalElem` | src/netlink.c:1059-1077 | From two bounds in network order written one after the other it makes exactly their interval, and from the bounds that GenPrefix writes for a prefix exactly that prefix. |
| `Prefixes.BoundsReadBack` | src/netlink.c:1059-1077 | Any two bounds written one after the other are the ones read back. |
| `Prefixes.PrefixRoundTrip` | src/netlink.c:338-354 | For big-endian widths that are multiples of 32 and a cleared base, generating a prefix and parsing it (lines 1059-1077) gives the same base and length, for every length from 0 to the width. |
| `Netlink.Socket.GenidGet` | src/mnl.c:131-141 | Without a failure the number read is that of the current generation; on failure the last one is returned again. |
| `Netlink.Socket.Dump` | src/mnl.c:68-157 | Whatever commits come between the messages: success with no commit since the last reading gives that generation, a message of another one gives EINTR after all messages are read, only messages of the generation are kept, a failure at the first message gives nothing, and an undisturbed dump reads exactly its messages. |
| `Netlink.Socket.List` | src/netlink.c:986-1003 | The list functions of sets, elements, rules, flowtables and objects: EINTR is passed on, after every other failure the list is empty and the call succeeds; with no commit since the generation was read, a success is the whole list or, after a failure, an empty one. |
| `Cache.AddRules` | src/cache.c:333-341 | Every chain gets exactly its rules, in order. |
| `Cache.InitTable` | src/cache.c:264-354 | Of one table, without a commit: every list is that of the kernel, or empty because its dump has failed; without a failure all of them are the kernel's. |
| `Cache.NothingMissingExact` | src/cache.c:264-354 | Such a cache is whole if and only if no list of it is empty that is not empty in the kernel. |
| `Cache.NftCache.Init` | src/cache.c:356-375 | With no commit since the generation was read: without a failure the cache is the whole snapshot the flags ask for, with failing dumps inside the tables every list of it is the kernel's or empty. |
| `Cache.NftCache.IsCurrent` | src/cache.c:377-413 | True exactly when complete, not to be refreshed and of the generation just read; then the cache shows the kernel as it is now. |
| `Cache.NftCache.Fill` | src/cache.c:426-443 | Filling succeeds only between two readings of one generation, and then all parts are of it; otherwise the cache is empty again. |
| `Cache.NftCache.Pass` | src/cache.c:407-443 | One pass keeps the invariant; a replay has used up an event of the schedule; a failing chain dump passes for success. |
| `Cache.NftCache.CacheUpdate` | src/cache.c:397-444 | Whatever commits interleave, success means one generation of the kernel with the recorded number, current at some moment of the call, or an untouched cache that still is, provided the socket has not failed; failure only if it has; and it ends. After failing dumps and no commit since the cache was filled, every list is the kernel's or empty, and the cache shows the kernel if and only if nothing is missing. If the tables are read and the dump of the chains then fails, it succeeds with the bare tables. |
| `Cache.NftCache.BareShows` | src/cache.c:275-288 | The bare tables show the kernel if and only if there is nothing in the tables that was asked for. |
| `Cache.NftCache.PartialShows` | src/cache.c:397-444 | Of a cache whose lists are the kernel's or empty: it shows what it should if and only if no list is empty that is not empty in the kernel. |
| `Cache.ChainsLost` | src/cache.c:397-444 | A schedule with one failure after which the cache counts as up to date and a chain of the kernel is missing. |
| `Cache.NftCache.Release` | src/cache.c:456-461 | Empty cache, no generation, no flags. |
| `ListHead.ListSizes` | include/list.h:187-218 | The emptiness and singleton tests are right on every well-formed ring. |
| `ListHead.ListAddTail` | include/list.h:53-88 | Inserting before any node of a ring, or the head, gives the ring with the node at that place. |
| `ListHead.ListCutPosition` | include/list.h:220-230 | Cutting after the k-th node leaves two well-formed rings, the first k nodes and the rest. |
| `MergeSort.ListCutMiddle` | src/mergesort.c:86-99 | Two halves, both non-empty, in order. |
| `MergeSort.MoveFirst` | src/mergesort.c:73-80 | One relinking keeps the target a well-formed ring and the source list traversable. |
| `MergeSort.ListSpliceSorted` | src/mergesort.c:68-84 | The pointer-chasing merge in place is the merge of the two sequences, every node of the temporary list consumed. |
| `MergeSort.ListExprSort` | src/mergesort.c:101-117 | Ends on every well-formed ring and leaves a well-formed ring of the sorted sequence, changing only its own nodes and head. |
| `MergeSort.SortedPermutes` | src/mergesort.c:101-117 | Exactly the same nodes. |
| `MergeSort.SortedInOrder` | src/mergesort.c:101-117 | In order of their values. |
| `SortValue.ValueTellsApart` | src/mergesort.c:16-50 | Concatenations of one type get the same sort value if and only if they are equal. |
| `SortOrder.MergeOf` | src/mergesort.c:68-84 | In a merge the elements of a value are those of the second list and then those of the first. |
| `SortOrder.SortedOf` | src/mergesort.c:101-117 | For every list and value, the elements of that value come out in reverse order. |
| `SortOrder.StableExactly` | src/mergesort.c:101-117 | Equal elements keep their order if and only if there are no two of them. |
| `SortOrder.StableOnKeys` | src/mergesort.c:101-117 | For keys of one type, if and only if no key is there twice. |
| `SortOrder.SortedExactly` | src/mergesort.c:101-117 | A sequence is the result if and only if it is in order and has the elements of every value in reverse order. |
| `MergeSort.EqualPairIsReversed` | src/mergesort.c:68-84 | Two equal nodes change places. |
| `TimeFormat.TimePrint` | src/datatype.c:892-918 | The printed text: absent units left out, in fixed order. |
| `TimeFormat.TimeParse` | src/datatype.c:936-1019 | What the character loop with its digit counter and unit mask accepts and means, error cases included. |
| `TimeFormat.TimeRoundTrip` | src/datatype.c:892-1019 | Parsing the printed text gives the number back if and only if it is below 10^8 days; 0 and absent units included. |

## Left out

- Gcd.GcdExt: on integers, each standing for the mpz call of the same name; which temporaries are swapped and cleared, and optional results, are not captured.
- BinaryGcd.MpzGcd: on integers in the same way.
- RootRem.RootRem: on integers in the same way.
- ByteIO.MpzExport: words of at least one byte; nails are not supported by the source either.
- ByteIO.SwitchByteorder: for numbers that fit the length; a longer one is written past the end of the function's buffer.
- SetKeys.ParseConcatElem: of a component in host order that is not whole bytes, the low bytes are taken where the source writes past its buffer.
- SetKeys.GenConcatData: components are values, prefixes or ranges of values; the source aborts on others.
- NumberText.GetStr: returns a new string; writing into a buffer of the caller, whose size follows from NumberText.SizeInBase, is not modelled.
- Radix.GetStrOther: digits are collected in a sequence in place of a byte buffer.
- BinopTransfer.Relation.Transfer: a left shift that loses bits, and exclusive-or on ranges and orders, are left to BinopExact.
- Linearize.ShiftRuns: shifts over operands in host order; over a field in network order NetworkShift says what the code leaves and when that is the field.
- Linearize.TermRuns: no shifts over operands in network order inside larger expressions, such as the components of a concatenation.
- Linearize.SwapRuns: widths of 16, 32 and 64 bits only, the ones for which the generator's choice of a chunk size is meant.
- Rules.ConstPasses: constants that end within the slots of the left side; for longer ones WideConstants says what is compared, and when that is right.
- Rules.RuleRuns: what evaluation rejects, and the constants and shifts of the last three lines, are outside its hypotheses.
- FieldRules.EvaluateFieldMatch: fields whose bytes fit one full register; the statement that evaluation builds is given by its left side, without locations and types.
- FieldRules.FieldLookupRuns: members that are values; a set with ranges is an interval set, which the segment tree fills.
- Rules.VmapRuns: verdict maps only; maps with data are not modelled.
- Prefixes.GenPrefix: widths of full slots, for which the source's buffer is long enough.
- Prefixes.PrefixRoundTrip: the same widths.
- Netlink.Socket.List: an error of the socket is one kind of failure; the numbers in errno are not told apart.
- Cache.AddRules: rules of chains in the list of the table; chain bindings are not modelled.
- Cache.NftCache.CacheUpdate: what failing dumps leave is said for a kernel without commits since the cache was filled; chain bindings, the list of chains kept between passes and the text of errors are not modelled; the schedule of commits is finite.
- SortValue.ValueTellsApart: components are plain values, within the 512 bytes of the source's buffer.
- PayloadBits.PayloadStmt.Evaluate: constant values of the field's width that fit a register; non-constant values take another path.
- mpz_powm, primality, conversions to floating point, allocation and freeing in mini-gmp: not used by the tool or without invariant.
- The scan functions of mini-gmp appear as what they compute where they are used (make-odd, prefix test, shift test), not as loops over limbs.
- JSON and text output, the parser, the command line, monitor, batching and libmnl or libnftnl attribute building: plumbing and foreign calls.
- Name resolution and local-time parsing: dependent on the environment.
- Statements that only copy fields into an instruction (counter, limit, log, quota, reject and the like): easy members without invariant.
- Interval aggregation across the components of a concatenation and the segment tree: not part of this model.
- string_distance in src/misspell.c and the cross-day hour inversion: their obvious claims are not what the code computes.
