# Verified models of the firmware's algorithms

This project models, in Dafny, the algorithmic libraries of the firmware and proves what they are
for. `dafny verify dfyconfig.toml` checks all of it.

* **Erasure code** (`components/redundancy`). Arithmetic in GF(2^16) through nibble tables, inverses
  by extended Euclid and by powers, matrix inversion in place without pivoting, encoding and decoding.
  Main results: `Redundancy.InvMatrix`, `Redundancy.Decode`, `DefaultField.DefaultIsIrreducible` and
  `Erasure.RoundTrip`. Modules `Gf2Poly`, `BinaryField`, `NibbleProduct`, `Gbf`, `Euclid`, `Fermat`,
  `LinearAlgebra`, `Vandermonde`, `Redundancy`, `DefaultField`, `Erasure`.
* **Checksums** (`components/zlib/crc32.c`, `components/littlefs/lfs_util.c`). One bit-serial register
  is the definition; the sliced CRC-32, the combination of two checksums and the nibble-table checksum
  of the file system are proved against it. Modules `Crc`, `Crc32`, `LfsCrc`.
* **File system** (`components/littlefs`). Metadata pairs that survive the loss of power at any byte
  (`MetadataPair`), the skip list of blocks (`CtzIndex`, `SkipList`, `FileData`), an open file as a
  refinement of a byte array (`PlainFile`, `LfsFile`) and the block allocator (`Allocator`).
* **Inflate** (`components/png/deflate_reader.c`). A decoder that can be resumed at every byte of its
  output, against RFC 1951 written as a relation between states (`InflateSpec`). Modules `DeflateBits`,
  `Huffman`, `HuffmanWalk`, `HuffmanFixed`, `InflateSpec`, `InflateStrict`, `InflateWindow`,
  `BitReader`, `InflateHeader`, `Inflate`; streams that are decoded for certain in `StoredStream` and
  `KnownStream`.
* **Ed25519** (`components/ed25519`). Scalars modulo the group order (`Limbs`, `ScalarSteps`, `Scalar`,
  `ByteNumber`, `ScalarBytes`, `ScalarStore`, `ScalarOps`), field elements modulo 2^255 - 19
  (`FieldLimbs`, `FieldCarry`, `FieldMul`, `FieldSquare`, `FieldOps`, `FieldPow`, `FieldStore`,
  `FieldBytes`), scalar multiplication over an abelian group (`Group`, `SignedDigits`, `Slide`,
  `Radix16`, `ScalarMult`) and signatures (`Ed25519`).

## How things are modelled

Structures whose fields the code updates are classes with the same fields (`Gbf.Tables`,
`MetadataPair.Disk` and `Dir`, `LfsFile.File`, `Allocator.Free`, `BitReader.Bits`, `Inflate.Reader`);
limbs, digits, matrices and buffers are arrays that are rewritten in place. Machine words are
subset types, so that every store into one is a proof that nothing overflows; where the code relies on
wrap-around it is written out. Bit operations on words work on the polynomials or numbers that the
words stand for. Long straight-line passages are split into methods at the points where their
invariant has a name.

Ghost parameters (`p`, `ids`, `lens` and so on) say what an array or a block stands for and have no
part in the computation. Failures of the device, of memory and of the reader are left out or are
results, as described below.

Where the comments of the source and its code differ, the code is followed:

* `fe_tobytes` argues from |h| <= p. Its stated bounds allow more: the quotient lies between -2 and 1,
  and the estimate is still exact (`FieldBytes.BasicClaim`).
* `ge_double_scalarmult_vartime` states no bound on its scalars. In `slide` a carry can run over the last
  digit, and 2^256 is lost with it; `Slide.Recode` says for which scalars (none up to 2^255, but thirty-two
  bytes 0xff), and `ScalarMult.ExactMultiple` when the result is right all the same. `ed25519_verify`
  only passes scalars that are reduced or have the top three bits clear.
* `lfs_init` accepts blocks of 104 bytes and more. The closed form of `lfs_ctz_index` is right for
  every position from 116 bytes on, and for no smaller size (`CtzIndex.SizesExact`); for a single
  position `CtzIndex.IndexExact` says when. Open files are modelled for the sizes from 116 on,
  single steps on their lists wherever the position is one of the right ones.
* The inflate decoder takes up to 288 literal lengths, where section 3.2.7 of RFC 1951 ends at 286, and
  refuses incomplete codes and repetitions that cross from one code's lengths to the other's. Apart from
  these two it refuses only what the format has no step for (`InflateStrict.Refused`).

## Model

| member | source | states |
|---|---|---|
| Gbf.Tables.ClMulNibble | components/redundancy/redundancy.c:27-39 | The shift-and-add loop gives the carry-less product of two nibbles, for all 256 pairs. |
| Gbf.Tables.FillClMul | components/redundancy/redundancy.c:24-41 | Afterwards entry (i, j) of the product table is the polynomial product of i and j. |
| Gbf.Tables.PolynomeBits | components/redundancy/redundancy.c:43-50 | The four words are x^16 to x^19 modulo the field polynomial, the bit that falls off included. |
| Gbf.Tables.ClModEntry | components/redundancy/redundancy.c:52-65 | Each reduction entry is i * x^16 modulo the field polynomial. |
| Gbf.Tables.Init | components/redundancy/redundancy.c:20-66 | For every polynomial the tables become the nibble products and the reductions that multiplication relies on. |
| NibbleProduct.HornerIsProduct | components/redundancy/redundancy.c:73-90 | Gathering the nibble products of equal position by Horner's rule in x^4 is the polynomial product. |
| Gbf.Tables.AddCoefficient | components/redundancy/redundancy.c:77-89 | The inner loop adds exactly the nibble products whose positions sum to bl. |
| Gbf.Tables.Mul | components/redundancy/redundancy.c:68-92 | The table-driven product is the polynomial product modulo x^16 + P, for every P and all words. |
| Gbf.Tables.Pwr | components/redundancy/redundancy.c:94-108 | Square-and-multiply gives the power, for every base and exponent, the exponent 0 included. |
| Gbf.Tables.HighBit | components/redundancy/redundancy.c:126-129 | The downward search finds the top bit of a non-zero word. |
| Gbf.Tables.DivideBits | components/redundancy/redundancy.c:157-166 | The subtract-and-shift loop leaves quotient and remainder of polynomial division. |
| Euclid.SubtractModulus | components/redundancy/redundancy.c:131-134 | The first subtraction is right although bit 16 of the modulus has no room in a word. |
| Euclid.BezoutStep | components/redundancy/redundancy.c:150-172 | A division and the swap keep t*r0 = r and old_t*r0 = old_r modulo the field polynomial. |
| Gbf.Tables.FirstRound | components/redundancy/redundancy.c:120-147 | The special first round leads to the same relation as the others. |
| Gbf.Tables.EuclidRound | components/redundancy/redundancy.c:152-171 | One round keeps the Bezout relation and makes the remainder smaller, so that the loop ends. |
| Euclid.BezoutEnd | components/redundancy/redundancy.c:174-176 | At the end t is zero and old_t the inverse if the last remainder is 1; otherwise r0 has no inverse and the polynomial is reducible. |
| Gbf.Tables.Inv | components/redundancy/redundancy.c:111-177 | The final assertion holds exactly for the invertible words (all non-zero ones over an irreducible polynomial), and then the result is the inverse. |
| Euclid.InverseExists | components/redundancy/redundancy.c:110-115 | Over an irreducible polynomial every non-zero word has an inverse. |
| Fermat.ScaleIsPermutation | components/redundancy/redundancy.c:179-180 | Multiplication by a non-zero word permutes the non-zero words. |
| Fermat.PowerOfGroupOrder | components/redundancy/redundancy.c:179-180 | a^(2^16 - 1) is 1 for every non-zero word over an irreducible polynomial. |
| Fermat.PowerIsInverse | components/redundancy/redundancy.c:179-187 | a^(2^16 - 2) is the inverse. |
| Gbf.Tables.InvPhi | components/redundancy/redundancy.c:181-187 | The slow inverse agrees with the extended Euclid one: both are the inverse, which is unique. |
| BinaryField.InverseUnique | components/redundancy/redundancy.c:179-187 | A word has one inverse at most. |
| DefaultField.NoSolution | components/redundancy/redundancy.h:15-18 | No nine and sixteen coefficients solve the 24 equations of a factorisation of the default polynomial. |
| DefaultField.DefaultIsIrreducible | components/redundancy/redundancy.h:15-18 | The default polynomial x^16 + x^5 + x^3 + x + 1 is irreducible. |
| LinearAlgebra.SolveForPivot | components/redundancy/redundancy.c:195-200 | One equation solved for its pivot variable, both ways. |
| LinearAlgebra.ExchangeKeeps | components/redundancy/redundancy.c:193-212 | A pass of the elimination keeps the relation between inputs and outputs with one variable exchanged; columns rotate as the code rotates them. |
| LinearAlgebra.PivotsRegular | components/redundancy/redundancy.c:193-212 | After k passes the leading k*k block is regular. |
| LinearAlgebra.ZeroPivotSingular | components/redundancy/redundancy.c:195-196 | A zero pivot means that the next leading principal minor is zero. |
| LinearAlgebra.RelationEnd | components/redundancy/redundancy.c:189-213 | After the last pass the array is a two-sided inverse. |
| Redundancy.NormalizeRow | components/redundancy/redundancy.c:195-200 | The pivot row in place: shifted left, scaled, the inverse at its end; no other row changes. |
| Redundancy.EliminateRow | components/redundancy/redundancy.c:205-210 | Another row in place, with its multiple of the pivot row; no other row changes. |
| Redundancy.Exchange | components/redundancy/redundancy.c:193-212 | One outer iteration over the flat array is one exchange of the matrix it holds. |
| Redundancy.InvMatrix | components/redundancy/redundancy.c:189-213 | In place and without pivoting: it succeeds exactly when all leading principal minors are non-zero, and then leaves the inverse. |
| Vandermonde.QuotientSpec | components/redundancy/redundancy.c:258-265 | Synthetic division: v(z) = (z - a) q(z) + v(a). |
| Vandermonde.RootsForceZero | components/redundancy/redundancy.c:258-265 | A polynomial with as many distinct roots as coefficients is zero. |
| Vandermonde.VandermondeRegular | components/redundancy/redundancy.c:258-267 | No leading principal minor of the matrix of powers is zero when the vectors are distinct. |
| Redundancy.FillPowers | components/redundancy/redundancy.c:228-231 | The row of powers of a vector; nothing else is written. |
| Redundancy.EncodeRow | components/redundancy/redundancy.c:235-239 | The inner product of one row of the data with the powers. |
| Redundancy.EncodeOne | components/redundancy/redundancy.c:215-245 | Every word of the fragment is the data row's polynomial at the vector. |
| Redundancy.SymbolIsPolynomial | components/redundancy/redundancy.c:215-245 | That polynomial has the words of the data row as its coefficients, the first one without a power of the vector. |
| Redundancy.EncodingMaps | components/redundancy/redundancy.c:233-240 | The fragments of a data row are its image under the matrix of powers, and nothing else is. |
| Redundancy.FillMatrix | components/redundancy/redundancy.c:258-265 | The decoder builds the same matrix of powers. |
| Redundancy.DecodeCell | components/redundancy/redundancy.c:272-277 | One word of the output: a column of the fragments against a row of the inverse. |
| Redundancy.DecodedIsOriginal | components/redundancy/redundancy.c:269-280 | What is written encodes to the fragments, and is the only array that does. |
| Redundancy.Decode | components/redundancy/redundancy.c:247-285 | For every number of fragments >= 1 and every list of distinct vectors: the output is the one original with these fragments; the inversion never meets a zero pivot. |
| Erasure.RoundTrip | components/redundancy/redundancy.c:215-285 | With the default polynomial, init, encode for distinct non-zero vectors, decode: the fragments are those of the data, and the data comes back unchanged, for all sizes. |
| Crc.StepsXor | components/zlib/crc32.c:88-136 | Zero bits act linearly on the register. |
| Crc.RegisterXor | components/zlib/crc32.c:372-425 | What is in the register before a string adds to its checksum as if the string were zeros. |
| Crc.StepsSplit | components/zlib/crc32.c:260-262 | k bits at once: the low bits go through the register, the high ones only shift. |
| Crc32.TableByte | components/zlib/crc32.c:109-114 | The eight-step loop gives the entry of table 0. |
| Crc32.FillColumn | components/zlib/crc32.c:119-127 | Tables 1 to 3 hold the value of a byte followed by one, two and three zero bytes. |
| Crc32.MakePoly | components/zlib/crc32.c:95-108 | The pattern of bits that is computed from the exponents of the polynomial is the 0xedb88320 of the register. |
| Crc32.MakeTable | components/zlib/crc32.c:88-136 | All four little-endian tables, made with that polynomial, agree with the one-bit-at-a-time register. |
| Crc32.TableStep | components/zlib/crc32.c:277 | One table look-up is one byte through the bit-serial register. |
| Crc32.FourTables | components/zlib/crc32.c:260-262 | Four look-ups in four tables are 32 bit steps. |
| Crc32.WordSteps | components/zlib/crc32.c:260-262 | Four bytes taken into the register together or one after the other come to the same. |
| Crc32.DoLittle4 | components/zlib/crc32.c:260-262 | A word at a time equals four bytes at a time. |
| Crc32.Crc32Little | components/zlib/crc32.c:266-297 | For every length and every start address the sliced loops give the bit-serial CRC-32. |
| Crc32.MatrixTimes | components/zlib/crc32.c:344-358 | Applying an operator that stands for n zero bits is n zero bits through the register. |
| Crc32.MatrixSquare | components/zlib/crc32.c:360-369 | Squaring it stands for 2n zero bits. |
| Crc32.OneBitOperator | components/zlib/crc32.c:386-392 | The first matrix stands for one zero bit. |
| Crc32.LengthBit | components/zlib/crc32.c:402-420 | One bit of the length: what is still to be applied is kept. |
| Crc32.ApplyBit | components/zlib/crc32.c:403-407 | One half of the loop: square, apply if the bit is set, halve the length. |
| Crc32.Combine | components/zlib/crc32.c:372-425 | For the checksums of any two strings and the length of the second one, the checksum of the strings one after the other; for all arguments crc1 moved past 8*len2 zero bits, plus crc2, or crc1 itself for lengths that are not positive. |
| Crc32.CombineIsAppend | components/zlib/crc32.c:372-425 | Moving a checksum past zero bits and adding another is appending the strings, for all strings. |
| Crc32.Residue | components/zlib/crc32.c:266-297 | The checksum of nothing is zero, and that of any string followed by its own little-endian checksum is always 0x2144df1c. |
| LfsCrc.Update | components/littlefs/lfs_util.c:25-39 | The nibble-table loop is the bit-serial register of the reflected CRC-32, for every start value and buffer. |
| LfsCrc.TableIs | components/littlefs/lfs_util.c:26-31 | The table holds what four bit steps make of each nibble. |
| LfsCrc.NibbleIs | components/littlefs/lfs_util.c:36-37 | One look-up is four bits through the register, and the bits of the byte above the nibble wait for the next look-up. |
| LfsCrc.CrcIsRegister | components/littlefs/lfs_util.c:25-39 | Both look-ups of every byte come to eight bit steps each, so that whole buffers agree. |
| LfsCrc.CrcAppend | components/littlefs/lfs_util.c:25-39 | Checksums of consecutive buffers compose. |
| LfsCrc.NibbleCase | components/littlefs/lfs_util.c:26-31 | A nibble equal to the register's own shifts it; any other sets a bit in the top nibble. |
| LfsCrc.ResidueZero | components/littlefs/lfs_util.c:25-39 | Four more bytes bring the checksum to zero exactly when they are its own little-endian bytes. |
| MetadataPair.HeaderRoundTrip | components/littlefs/lfs.c:330-342 | A header written to a block is read back. |
| MetadataPair.HeaderLayout | components/littlefs/lfs.c:330-342 | The bytes of the header: revision, size and the two tail words in this order, the low byte first. |
| MetadataPair.ValidIs | components/littlefs/lfs.c:447-466 | A block is valid exactly when its size without the flag bit is within it and the checksum of so many bytes, begun with all ones, is zero. |
| MetadataPair.Fetch | components/littlefs/lfs.c:428-481 | Finds the valid block with the newer revision and puts it first; fails exactly when neither is valid. |
| MetadataPair.FetchFindsNewer | components/littlefs/lfs.c:428-481 | For a sound pair the newer block is found whatever the order in which it is named. |
| MetadataPair.FetchSound | components/littlefs/lfs.c:428-481 | For any two blocks: the second one if it is valid and the first is not newer, otherwise the first one if that is valid, otherwise neither. |
| MetadataPair.ScmpIs | components/littlefs/lfs_util.h:135-139 | Revisions are compared by their difference as a signed number of 32 bits. |
| MetadataPair.OrderMatters | components/littlefs/lfs.c:443-445 | For two valid blocks the order of the pair matters exactly when the revisions are equal or half the range apart. |
| MetadataPair.NextIsNewer | components/littlefs/lfs_util.h:135-139 | The next revision compares as newer, across the 32-bit wrap-around too. |
| MetadataPair.ImageValid | components/littlefs/lfs.c:565-573 | A completely written image is valid and carries its header. |
| MetadataPair.Disk.Erase | components/littlefs/lfs.c:506-512 | One erase: one block becomes blank; the state is recorded in the trace. |
| MetadataPair.Disk.Prog | components/littlefs/lfs.c:516-524 | Bytes are programmed one at a time; the trace gains exactly the states after the first, the second, .., the last of them. |
| MetadataPair.Append | components/littlefs/lfs.c:565-573 | Programming the next bytes of an image: the trace goes on to hold every cut of the image up to there, in order. |
| MetadataPair.TotalGrowth | components/littlefs/lfs.c:497-499 | The new size is the old one with the growth of all regions. |
| MetadataPair.SplicedCopy | components/littlefs/lfs.c:544-562 | Outside the regions the old bytes are taken one by one. |
| MetadataPair.SplicedRegion | components/littlefs/lfs.c:530-543 | At a region its new bytes take the place of the old ones. |
| MetadataPair.CopyNext | components/littlefs/lfs.c:529-563 | One iteration emits the next bytes of the spliced contents and keeps both offsets in step. |
| MetadataPair.CopyEntries | components/littlefs/lfs.c:526-563 | The loop writes exactly the old entries with the regions spliced in, and the checksum of what it wrote. |
| MetadataPair.WriteBlock | components/littlefs/lfs.c:505-573 | Header, spliced entries and checksum; the trace gains exactly the states that show 0, 1, .., all bytes of that image. |
| MetadataPair.ReadBack | components/littlefs/lfs.c:583-593 | The checksum read back agrees, so that no relocation begins. |
| MetadataPair.Commit | components/littlefs/lfs.c:490-637 | Swaps the pair, counts the revision on, keeps the tail and the flag bit and lets the size grow with the regions; the older block then holds this header, the spliced entries and the checksum; the trace gains exactly the states with 0, 1, .., all bytes of that image. |
| MetadataPair.TornChecksum | components/littlefs/lfs.c:437-469 | A block that lacks only bytes of the checksum fails, whatever they are, unless it looks as if it were complete. |
| MetadataPair.CutIsAtomic | components/littlefs/lfs.c:428-594 | Power lost after any number of bytes leaves a sound pair with the old contents, or with all of the new. |
| MetadataPair.RunSafe | components/littlefs/lfs.c:428-594 | In every run of commits, each cut anywhere or completed, every fetch finds the last contents completely written or all of the next: their header with the tail and the flag bit of the commit, and the spliced entries. |
| MetadataPair.TraceSafe | components/littlefs/lfs.c:490-594 | The states that a commit goes through are the cuts of its image byte by byte, and fetching in any of them finds the old contents or all of the new. |
| MetadataPair.FirstCommit | components/littlefs/lfs.c:400-426 | A pair that was just allocated, whatever its blocks hold, becomes sound with its first commit. |
| CtzIndex.PopcPred | components/littlefs/lfs_util.h:115-133 | popc(n - 1) + 1 = popc(n) + ctz(n). |
| CtzIndex.StartClosed | components/littlefs/lfs.c:1116-1127 | The prefix sum of the data of the earlier blocks has the closed form with popc. |
| CtzIndex.IndexUnique | components/littlefs/lfs.c:1116-1127 | At most one block holds a position. |
| CtzIndex.IndexExact | components/littlefs/lfs.c:1116-1127 | For every block size that lfs_init accepts and every 32-bit position, the closed form names the block that holds the position exactly if a condition on the first quotient and remainder holds. |
| CtzIndex.OffsetExact | components/littlefs/lfs.c:1125 | And then the offset is that of the byte behind the pointers of its block. |
| CtzIndex.SizesExact | components/littlefs/lfs.c:2099-2101 | Of the block sizes that lfs_init accepts, those of 116 bytes and more are exactly the ones for which the closed form is right at every 32-bit position. |
| CtzIndex.SmallBlock | components/littlefs/lfs.c:1116-1127 | For every smaller block size, a position at which it names the block before the one that holds it. |
| CtzIndex.LargeBlocks | components/littlefs/lfs.c:1116-1127 | The condition holds for all positions when blocks have at least 116 bytes. |
| CtzIndex.SmallBlocksFail | components/littlefs/lfs.c:1116-1127 | With blocks of 104 bytes, which lfs_init accepts, it fails the other way at position 1610612832: the block that is named begins behind the position. |
| SkipList.CtzAfterShorter | components/littlefs/lfs.c:1143-1145 | Leaving a block by a pointer shorter than its longest arrives at one whose longest pointer is of that length. |
| SkipList.CtzAfterLongest | components/littlefs/lfs.c:1143-1145 | Leaving it by its longest arrives at one with longer pointers. |
| SkipList.Hop | components/littlefs/lfs.c:1142-1155 | A hop never passes the target and uses up one of the hops of the bound. |
| SkipList.FindIndex | components/littlefs/lfs.c:1142-1158 | Reaches exactly the target block, in at most twice as many hops as the distance has bits. |
| SkipList.CopyBytes | components/littlefs/lfs.c:1200-1216 | The first bytes of the last block, byte by byte; no other block changes. |
| SkipList.PointerBytes | components/littlefs/lfs.c:1240-1249 | In bytes: slot s of block k, before its data, names block k - 2^s, low byte first. |
| SkipList.WritePointers | components/littlefs/lfs.c:1225-1249 | Slot i of the new block n points to block n - 2^i for every i up to ctz(n). |
| SkipList.LinkedAppend | components/littlefs/lfs.c:1163-1254 | The list with the new block keeps that invariant. |
| SkipList.Traverse | components/littlefs/lfs.c:1264-1303 | The callback is given the blocks of the list from the last to the first. |
| SkipList.ReversedVisitsOnce | components/littlefs/lfs.c:1264-1303 | Each of them exactly once. |
| FileData.Locate | components/littlefs/lfs.c:1116-1127 | Block and offset of every 32-bit position at which the closed form is right. |
| FileData.DataSlice | components/littlefs/lfs.c:1615-1621 | Bytes of a block are bytes of the file, at the place that index and offset say. |
| FileData.Extend | components/littlefs/lfs.c:1163-1262 | A new block for any position in the list that the closed form finds: a copy of an incomplete last block or a block with fresh pointers; nothing before the position changes, and it fails only when the device is full. |
| FileData.ExtendCopy | components/littlefs/lfs.c:1198-1221 | The incomplete last block is copied. |
| FileData.ExtendAppend | components/littlefs/lfs.c:1223-1253 | A full last block is followed by one with pointers. |
| PlainFile.OutsLength | components/littlefs/lfs.c:1579-1760 | Every operation on the plain byte array has one answer. |
| PlainFile.WrittenAt | components/littlefs/lfs.c:1656-1728 | Byte by byte: a write puts its bytes at the position, keeps the others and fills a gap with zeros. |
| PlainFile.ReadAt | components/littlefs/lfs.c:1596-1632 | Byte by byte: a read gives the bytes from the position on, as many as there are. |
| PlainFile.AppendKeeps | components/littlefs/lfs.c:1652-1654 | In append mode the old bytes stay a prefix of the new ones. |
| PlainFile.SeekAt | components/littlefs/lfs.c:1742-1759 | The answers of a seek from the start, the position and the end; from the end with offset 0 it is the number of bytes. |
| LfsFile.File.constructor | components/littlefs/lfs.c:1359-1370 | A file as opened is the byte array that its blocks hold, or empty and then dirty if it was not. |
| LfsFile.Find | components/littlefs/lfs.c:1129-1160 | The block of a position, from the head of the list. |
| LfsFile.ReadBytes | components/littlefs/lfs.c:1604-1630 | The loop over blocks gives the bytes of the file from the position on. |
| LfsFile.NewBlock | components/littlefs/lfs.c:1670-1698 | The first write after a flush branches off the committed list and leaves it alone; later ones follow the branch. |
| LfsFile.File.EnsureRoom | components/littlefs/lfs.c:1670-1698 | Room for the next bytes, or an error that changes nothing. |
| LfsFile.File.ProgSome | components/littlefs/lfs.c:1700-1725 | The bytes that fit are appended to the branch. |
| LfsFile.File.WriteBytes | components/littlefs/lfs.c:1669-1728 | All bytes go behind the position in order; on an error some of them and nothing else. |
| LfsFile.File.Fill | components/littlefs/lfs.c:1656-1667 | A gap behind the end is filled with zeros. |
| LfsFile.File.CopyRest | components/littlefs/lfs.c:1476-1505 | The tail of the old file is copied behind what was written. |
| LfsFile.File.Flush | components/littlefs/lfs.c:1466-1535 | The contents and the position stay as they are; the branch becomes the file, which is then dirty. Without a branch nothing happens; it fails only when a block must be taken for the bytes that are left. |
| LfsFile.File.Read | components/littlefs/lfs.c:1579-1633 | The bytes of the plain array from the position on, as many as there are. A branch is flushed first, and only this takes blocks or fails, on a full device; without a branch the device stays as it is. |
| LfsFile.File.Write | components/littlefs/lfs.c:1635-1732 | The plain array overwritten at the position (at the end in append mode, zeros before it if it lies behind the end). Blocks that are taken go into the branch; it fails only when a block is needed and there is none, with a part written and the rest untouched. |
| LfsFile.File.Seek | components/littlefs/lfs.c:1734-1760 | The position of the plain array for the three origins, negative results refused, 32-bit wrap-around included. It fails only in flushing a branch. |
| LfsFile.File.Do | components/littlefs/lfs.c:1466-1760 | One operation gives the state and the answer of the plain array; one that a full device breaks off leaves the bytes as they were, or as a part of the write makes them. |
| LfsFile.File.Run | components/littlefs/lfs.c:1466-1760 | Any run of operations gives the answers, the contents and the position of the plain array, up to the first operation for which a full device has no room; what that one leaves is said too. Without writes and without a branch a run completes and leaves the device as it is. |
| LfsFile.OldFileKept | components/littlefs/lfs.c:1635-1732 | Writing never touches the blocks of a committed file: until its directory entry changes, it stays what it was. |
| Allocator.CandidatesDiffer | components/littlefs/lfs.c:299 | Fewer than block_count candidates in a row are different blocks. |
| Allocator.PlaceIsCandidate | components/littlefs/lfs.c:279-281 | The place computed by the callback is the one whose candidate is the block; truncating division included. |
| Allocator.Free.constructor | components/littlefs/lfs.c:2131-2139 | The state after set-up: an empty window at block 0, not filled by any walk. |
| Allocator.Free.Ack | components/littlefs/lfs.c:324-326 | The acknowledged position is the next candidate. |
| Allocator.Free.Mark | components/littlefs/lfs.c:276-288 | A walk marks exactly the places in the window of the blocks it meets. |
| Allocator.Free.Refill | components/littlefs/lfs.c:310-320 | The window moves on by its size and is refilled from the walk. |
| Allocator.Free.Search | components/littlefs/lfs.c:293-302 | The first unmarked candidate of the window, or none in it. |
| Allocator.Free.Alloc | components/littlefs/lfs.c:291-322 | The block handed out is the first candidate that was not met, by the walk that filled the window as long as that lasts and behind it by the walk of this call; with the window used up, as at first, it is none that this walk meets. It was not handed out since the walk or the last acknowledgement; no space only when every candidate but one since then has been looked at. |
| Allocator.Free.Exhausted | components/littlefs/lfs.c:304-308 | Then every block but one has been handed out or met by a walk since the acknowledgement. |
| DeflateBits.Window | components/png/deflate_reader.c:44-45 | n bits of the stream out of a window of bytes, by shift and mask. |
| BitReader.Bits.GetBits | components/png/deflate_reader.c:52-74 | The next 1 to 8 bits, least significant first; fails exactly at the end of the stream. |
| BitReader.Bits.GetBitsLong | components/png/deflate_reader.c:12-50 | The next 1 to 16 bits, with one or two more bytes; fails exactly at the end of the stream. |
| Huffman.DecodedOnce | components/png/deflate_reader.c:123-158 | No code of a canonical code begins another. |
| Huffman.CodesInOrder | components/png/deflate_reader.c:123-158 | Codes of one length follow the symbols without gaps, and shorter codes come before longer ones. |
| Huffman.ExampleCodes | components/png/deflate_reader.c:123-158 | The eight codes of the example in section 3.2.2 of RFC 1951. |
| Huffman.PutGroup | components/png/deflate_reader.c:89-109 | One group of the table: the symbols of a length in order, an empty group before it for gaps over 8. |
| Huffman.Build | components/png/deflate_reader.c:76-121 | Writes the grouped table of the lengths and accepts it exactly when the code is complete (Kraft equality). |
| Huffman.EndIsKraft | components/png/deflate_reader.c:111-120 | Complete means that the symbols together take up all codes of fifteen bits. |
| HuffmanWalk.TableSize | components/png/deflate_reader.c:257-274 | The tables fit into the arrays that are reserved for them. |
| HuffmanWalk.WalkStep | components/png/deflate_reader.c:129-154 | The walk never runs past the table of a complete code. |
| BitReader.WalkBits | components/png/deflate_reader.c:129-154 | After the bits of a group the value names a symbol of that length or exceeds all codes so far. |
| BitReader.Bits.GetHuffman | components/png/deflate_reader.c:123-158 | Returns the symbol of section 3.2.2 of RFC 1951 whose code comes next, within 15 bits, and consumes its code; fails exactly when no code is complete before the end of the stream. |
| BitReader.LongCode | components/png/deflate_reader.c:129-154 | The code that comes next is at least as long as the bits that the walk asks for. |
| HuffmanFixed.LiteralTableIs | components/png/deflate_reader.c:225-238 | The hard-coded literal table is that of the lengths of section 3.2.6 of RFC 1951. |
| HuffmanFixed.FixedCodes | components/png/deflate_reader.c:225-238 | The fixed literal codes begin at 00110000, 110010000, 0000000 and 11000000, as section 3.2.6 of RFC 1951 lists them. |
| HuffmanFixed.FixedDistanceCodes | components/png/deflate_reader.c:240-243 | The fixed distance codes are their symbols in five bits. |
| Inflate.FixedTables | components/png/deflate_reader.c:225-245 | Both hard-coded tables are usable tables of the fixed codes. |
| InflateHeader.ReadCodeLengths | components/png/deflate_reader.c:260-271 | Each three-bit length goes to its symbol, in the order 16, 17, 18, 0, 8, 7, .., 1, 15; those that are not sent are zero. Fails exactly at the end of the stream. |
| InflateHeader.ReadLength | components/png/deflate_reader.c:281-325 | One symbol of the code length code: a length or a repetition. |
| InflateHeader.ReadBoth | components/png/deflate_reader.c:278-384 | Reads the lengths of the two codes and builds both tables, or there are no such lengths or no such complete codes. |
| InflateHeader.ReadDynamic | components/png/deflate_reader.c:247-387 | A dynamic header leaves the tables of its two codes, or it is none that the decoder accepts. |
| InflateHeader.TooMany | components/png/deflate_reader.c:298-299 | A repetition that runs over the end of the lengths of its code is where the decoder stops. |
| InflateStrict.DeadEnd | components/png/deflate_reader.c:278-380 | Lengths that lead to a symbol that cannot be read lead nowhere else. |
| InflateStrict.SplitIsDynamic | components/png/deflate_reader.c:278-384 | What the decoder accepts, code by code, is a header of section 3.2.7 of RFC 1951, where both are read together. |
| InflateWindow.LengthTables | components/png/deflate_reader.c:455-460 | The hard-coded bases and extra bits of lengths follow the rule of section 3.2.5 of RFC 1951. |
| InflateWindow.DistanceTables | components/png/deflate_reader.c:474-479 | So do those of distances. |
| InflateWindow.LengthRanges | components/png/deflate_reader.c:455-460 | The ranges of the length symbols follow each other from 3 to 258. |
| InflateWindow.DistanceRanges | components/png/deflate_reader.c:474-479 | Those of the distance symbols from 1 to 32768. |
| InflateWindow.WindowPush | components/png/deflate_reader.c:438-442 | One more byte in the circular window, which holds the last 32768 bytes of the output. |
| InflateWindow.WindowGet | components/png/deflate_reader.c:508-509 | The byte at a distance behind the position is that byte of the output. |
| InflateWindow.WindowPushAll | components/png/deflate_reader.c:407-424 | The same for a stored run. |
| InflateSpec.StepOnce | components/png/deflate_reader.c:180-524 | The decoding of RFC 1951, written as steps, has one next state at most. |
| InflateSpec.PrefixOfDecoding | components/png/deflate_reader.c:180-524 | What has been put out on the way is a prefix of the decoding of the whole stream. |
| Inflate.ReadStoredLength | components/png/deflate_reader.c:200-219 | The rest of the byte is dropped, and length and complement must agree. |
| Inflate.Reader.ReadHeader | components/png/deflate_reader.c:191-392 | A block header leads to the state that the header says, or the decoder has no step to take there. |
| Inflate.Reader.CopyStored | components/png/deflate_reader.c:394-427 | Stored bytes go through the window to the caller, and stop where the buffer ends. |
| Inflate.Reader.ReadMatch | components/png/deflate_reader.c:449-491 | Length and distance of a match; refused are the reserved symbols, distances that reach back too far and the end of the stream. |
| Inflate.FarRefused | components/png/deflate_reader.c:486-487 | A distance that the window does not reach has no output to copy. |
| Inflate.StoredBreaks | components/png/deflate_reader.c:408-414 | A stored block that the stream ends in puts out what is there and goes no further. |
| Inflate.Reader.ReadSymbol | components/png/deflate_reader.c:429-493 | A literal, the end of the block or a match, or no step at all. |
| Inflate.Reader.CopyMatch | components/png/deflate_reader.c:495-520 | The bytes of a match, overlapping ones included, stopping where the buffer ends. |
| Inflate.Reader.Read | components/png/deflate_reader.c:180-524 | A call that succeeds puts out the next bytes of the decoding and stops short only at its end; the bytes consumed are exactly those that hold the bits decoded so far. It fails only where the stream goes on with nothing that the decoder accepts, before the buffer is full. |
| InflateStrict.BrokenHasNoEnd | components/png/deflate_reader.c:180-524 | A stream on which the decoder fails has no decoding that it could have followed to the end. |
| Inflate.Reader.PutOutIsPrefix | components/png/deflate_reader.c:180-524 | Everything put out is a prefix of the decoding. |
| Inflate.ReadAll | components/png/deflate_reader.c:180-524 | Calls of any sizes, if all succeed, put out a prefix of the decoding whatever the sizes, and all of it when they ask for more; one fails only if the stream has no complete decoding that the decoder accepts, and breaks off before what the calls ask for. |
| StoredStream.StoredRoundTrip | components/png/deflate_reader.c:191-223 | Any bytes, put into stored blocks, are decoded to themselves. |
| StoredStream.ReadStored | components/png/deflate_reader.c:180-524 | So calls of any sizes succeed on such a stream and put out the bytes, as far as they ask for them. |
| KnownStream.Decoding | components/png/deflate_reader.c:244-392 | A stream of seventeen bytes with dynamic codes, all three repetitions and an overlapping match stands for the six bytes that it encodes. |
| KnownStream.ReadKnown | components/png/deflate_reader.c:180-524 | And the decoder puts them out. |
| ScalarBytes.LimbLoaded | components/ed25519/sc.c:36-59 | Mask and shift of three or four bytes give the 21 bits of a limb. |
| ScalarBytes.LoadWide | components/ed25519/sc.c:35-59 | The 24 limbs make the number of the 64 bytes. |
| ScalarBytes.LoadScalar | components/ed25519/sc.c:363-398 | The 12 limbs make the number of the 32 bytes. |
| ScalarSteps.FoldVal | components/ed25519/sc.c:78-119 | Folding a limb takes a multiple of the group order away. |
| Scalar.FoldLimb | components/ed25519/sc.c:78-83 | One fold in place, within 64 bits. |
| Scalar.CarryNearest | components/ed25519/sc.c:120-122 | A carry rounded to nearest keeps the number and balances the limb. |
| Scalar.CarryDown | components/ed25519/sc.c:238-240 | A carry rounded down keeps the number and makes a digit. |
| Scalar.ReduceTop | components/ed25519/sc.c:78-152 | The upper six folds and the carries behind them, with the bounds that follow. |
| Scalar.ReduceMiddle | components/ed25519/sc.c:153-230 | The next six folds and their carries. |
| Scalar.NearZero | components/ed25519/sc.c:231-237 | Before the last folds the number is within 2^252 of zero. |
| Scalar.Overflow | components/ed25519/sc.c:274-280 | The last carry out is 0 or -1, and folding it back gives the canonical number. |
| Scalar.ReduceLow | components/ed25519/sc.c:231-313 | The last two folds leave the number in [0, l). |
| ScalarStore.Store | components/ed25519/sc.c:315-346 | The 32 bytes make the number of the limbs; other bytes stay. |
| ScalarOps.Reduce | components/ed25519/sc.c:78-313 | From the first fold to the last carry: the remainder by the group order. |
| ScalarOps.ScReduce | components/ed25519/sc.c:35-347 | For every 64 bytes the result is exactly their number modulo l; every intermediate fits 64 bits. |
| ScalarOps.Multiply | components/ed25519/sc.c:423-470 | The sums of products make a*b + c, within 64 bits. |
| ScalarOps.CarryProducts | components/ed25519/sc.c:471-539 | The carries behind the products keep the number. |
| ScalarOps.ScMulAdd | components/ed25519/sc.c:362-809 | For all 32-byte a, b and c the result is exactly (a*b + c) modulo l. |
| SignedDigits.CarryUp | components/ed25519/ge.c:44-51 | Adding one where ones follow moves the carry to the first zero digit. |
| SignedDigits.BitsBound | components/ed25519/ge.c:44-51 | There is no such digit exactly when the digits make the largest number of that many bits. |
| Slide.AddOne | components/ed25519/ge.c:44-51 | The carry loop adds one; it runs over the last digit exactly when all digits are one, and then leaves zeros. |
| Slide.Unpack | components/ed25519/ge.c:30-32 | One digit for each bit of the scalar. |
| Slide.CarryCase | components/ed25519/ge.c:41-51 | The fourth digit behind a digit makes a carry that is lost exactly when all bits from there on are one. |
| Slide.Take | components/ed25519/ge.c:36-56 | One window: its digit, four places clear, the rest of the number behind them, and whether a carry was lost here or will be. |
| Slide.Recode | components/ed25519/ge.c:25-58 | For every 32-byte scalar the digits are zero or odd within [-15, 15], at least five places apart, and stand for the scalar, or for 2^256 less exactly when a carry meets ones from its window up to place 255. |
| Slide.NoOverrun | components/ed25519/ge.c:25-58 | No number of at most 2^(n-1) loses a carry in n places. |
| Slide.ExactToHalf | components/ed25519/ge.c:25-58 | So the digits stand for the scalar itself up to 2^255. |
| Slide.AllOnesLost | components/ed25519/ge.c:41-51 | Thirty-two bytes 0xff become the number -1. |
| Radix16.Recode16 | components/ed25519/ge.c:394-411 | Sixty-four digits within [-8, 8] that stand for the scalar when a[31] <= 127. |
| ScalarMult.OddTable | components/ed25519/ge.c:77-100 | A, 3A, .., 15A. |
| ScalarMult.AddDigit | components/ed25519/ge.c:112-126 | The multiple of a digit is added, subtracted or left out. |
| ScalarMult.PartialStep | components/ed25519/ge.c:109-129 | Doubling and adding two digits goes one place down. |
| ScalarMult.DoubleScalarMult | components/ed25519/ge.c:67-130 | a*A + b*B for all a and b, each as its digits stand for it. |
| ScalarMult.ExactMultiple | components/ed25519/ge.c:67-130 | That is a*A + b*B itself exactly when the multiples of 2^256 that the recodings lose add nothing. |
| ScalarMult.Select | components/ed25519/ge.c:356-375 | The multiple of 256^pos * B by a digit within [-8, 8]. |
| ScalarMult.AddDigits | components/ed25519/ge.c:414-418 | The digits of one parity with their tables. |
| ScalarMult.ScalarMultBase | components/ed25519/ge.c:386-434 | a*B for all a with a[31] <= 127. |
| Ed25519.CreateKeypair | components/ed25519/keypair.c:6-16 | Section 5.1.5 of RFC 8032: the private key is the hash with the bits of its first and last scalar byte cleared and set; as a number the scalar is 2^254 plus the hash below it without its low three bits; the public key is its multiple of the base point. |
| Ed25519.ReducedHash | components/ed25519/sign.c:14-19 | A hash as a scalar, whose last byte meets the precondition of the multiplication. |
| Ed25519.Sign | components/ed25519/sign.c:7-31 | The signature of section 5.1.6 of RFC 8032. |
| Ed25519.ConsttimeEqual | components/ed25519/verify.c:6-45 | True exactly for equal strings. |
| Ed25519.Verify | components/ed25519/verify.c:47-77 | True exactly when the equation of section 5.1.7 of RFC 8032 holds, with the range check on the last byte. |
| Ed25519.MulMod | components/ed25519/sign.c:29-30 | Multiples of the base point depend on the scalar modulo l only. |
| Ed25519.Cancels | components/ed25519/verify.c:68-70 | k*(-A) + S*B is r*B again. |
| Ed25519.SignedIsAccepted | components/ed25519/verify.c:47-77 | Every signature made with a key pair is accepted; the range check never rejects it. |
| Ed25519.SignThenVerify | components/ed25519/sign.c:7-31 | For every seed and every message, the key pair and the signature are as specified, and verify accepts. |
| FieldLimbs.CarryAroundVal | components/ed25519/fe.c:750-753 | The carry out of the top limb counts nineteen times: the number changes by a multiple of the prime. |
| FieldCarry.CarryProduct | components/ed25519/fe.c:712-753 | The twelve carries keep the number modulo the prime and bring the limbs within 1.01*2^25 and 1.01*2^24. |
| FieldOps.AccsVal | components/ed25519/fe.c:691-700 | The ten sums of products make the product modulo the prime. |
| FieldOps.Products | components/ed25519/fe.c:567-700 | The sums of fe_mul, with no overflow of 32 or 64 bits within the stated bounds. |
| FieldOps.Squares | components/ed25519/fe.c:993-1070 | The sums of fe_sq are those of fe_mul for equal factors. |
| FieldOps.FeMul | components/ed25519/fe.c:556-765 | The product modulo 2^255 - 19 within the stated bounds, in place if wanted. |
| FieldOps.FeSq | components/ed25519/fe.c:982-1127 | The square, limb for limb what fe_mul gives. |
| FieldOps.FeSq2 | components/ed25519/fe.c:1145-1300 | Twice the square. |
| FieldOps.FeAdd | components/ed25519/fe.c:81-123 | The sum, within the bounds stated for it. |
| FieldOps.FeSub | components/ed25519/fe.c:1315-1357 | The difference, within the bounds stated for it. |
| FieldPow.SquareTimes | components/ed25519/fe.c:394-396 | n squarings raise to the power 2^n. |
| FieldPow.FeInvert | components/ed25519/fe.c:364-448 | z to the power p - 2. |
| FieldPow.FePow22523 | components/ed25519/fe.c:881-964 | z to the power 2^252 - 3. |
| FieldBytes.LoadedVal | components/ed25519/fe.c:298-307 | What is loaded is the number of the bytes without their top bit. |
| FieldBytes.CarryLoaded | components/ed25519/fe.c:319-348 | The carries keep it modulo the prime and give limbs of a product. |
| FieldBytes.FeFromBytes | components/ed25519/fe.c:297-360 | The element of the bytes without their top bit. |
| FieldBytes.OutIsQuotient | components/ed25519/fe.c:1410-1419 | What goes out of the top limb is the quotient of the whole number by 2^255. |
| FieldBytes.BasicClaim | components/ed25519/fe.c:1361-1384 | The quotient estimate that starts from the top limb is floor(h/p). |
| FieldBytes.Quotient | components/ed25519/fe.c:1409-1419 | The chain of shifts computes it, for every limb vector within the stated bounds. |
| FieldBytes.CarryDown | components/ed25519/fe.c:1422-1448 | The floor carries give digits; the last carry leaves the number. |
| FieldStore.StoreDigits | components/ed25519/fe.c:1459-1490 | The 32 bytes make the number of the digits. |
| FieldBytes.FeToBytes | components/ed25519/fe.c:1386-1491 | The bytes of the unique representative in [0, 2^255 - 19), for every limb vector within the stated bounds. |
| FieldBytes.ToBytesAndBack | components/ed25519/fe.c:297-360 | fe_frombytes after fe_tobytes gives the same element. |
| FieldBytes.FromBytesAndBack | components/ed25519/fe.c:1386-1491 | fe_tobytes after fe_frombytes gives the same bytes exactly for strings below the prime. |

## Left out

- Gbf.Tables.Mul: words of 16 bits only, the size that the header selects; 8 and 32 bits are other settings of the same macros.
- Redundancy.Decode: memory on the heap or on the stack for the matrix is not distinguished, and running out of it is not modelled.
- Crc32.Crc32Little: the big-endian tables and loops, and a null buffer (which gives the initial value); `crc_table` computed at build time.
- MetadataPair.Commit: devices whose erase or program fails, relocation of a bad block, and the update of other open directories.
- MetadataPair.RunSafe: a block whose image is cut short before its checksum is taken to fail that checksum, since no checksum of 32 bits excludes a coincidence; for cuts inside the checksum it is proved.
- SkipList.Traverse: the walk over one list; lfs_traverse over all directories and open files is the list of blocks that `Allocator.Free.Alloc` is given.
- FileData.Extend: bad blocks, the erased bytes behind what has been programmed, and blocks of exactly 104 bytes, in which block 2^25 of a list would hold pointers only.
- LfsFile.File.Write: device errors and `lfs_file_relocate`; writes that would take the position beyond 2^32 - 1. The number of bytes is given as an unsigned word; the code returns it as a signed one.
- LfsFile.File.constructor: blocks of 104 to 115 bytes, for which the closed form that the code relies on misplaces some positions (`CtzIndex.SizesExact`).
- LfsFile.File.Seek: the result is the unsigned position; the code returns it as a signed word.
- LfsFile.File.Run: lfs_file_sync, lfs_file_truncate and lfs_file_close, which go through the directory; of opening only what follows the directory look-up.
- lfs_cache_read, lfs_cache_prog, lfs_cache_flush: reads and programs go to the device directly. Caches do not by themselves keep a reader that starts before a cached block part and runs into it up to date; the code flushes before such reads, and that discipline is not part of this model.
- Allocator.Free.Alloc: counters do not wrap around at 2^32, lookahead words are sequences of booleans, and the state that lfs_format begins with is not modelled.
- Inflate.Reader.Read: the error codes as such, and what a failed call leaves in the caller's buffer; negative results of the reader callback, so that a short count is the end of the stream.
- Ed25519.Verify: the curve is any abelian group with an injective encoding, a base point of the given order and the tables that the comments describe; the point formulas, the tables themselves and decompression are not part of this model. SHA-512 is any function to 64 bytes.
- fe_cmov, fe_cswap, fe_neg, fe_mul121666, fe_isnegative, fe_isnonzero: they would add easy members only.
- Constant running time of the Ed25519 code.
- Key exchange, scalar addition to keys and seeds.
- PNG filters, Adam7 and checksums of PNG; gzip.
- Directory look-up, renaming, removal, moving, orphans, formatting and mounting of the file system.
- Drivers, boot loader, updates, user interface and network code.
