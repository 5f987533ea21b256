# Intelligent Storage Acceleration: a verified model

This project models the portable C code of a storage acceleration library, and proves what it is for: compressed data
decompress to the input, lost blocks are recovered, and checksums are what their definitions say.

**Compression.** The match finders of all levels (16-bit hash tables with wrap-around, word-wise comparison, the map pass
with extension and lazy parsing), the intermediate format with its histograms, Huffman trees of least cost with length
limiting, canonical codes, run-length coded dynamic headers, the choice between dynamic and fixed codes with its exact size, table expansion,
the bit buffer, headers and stored blocks suspended at any point, and the buffering between calls. `Inflate` is a
decompressor written from RFC 1951, which knows nothing but the bits. It shares with the compressor the definition of a
canonical code and the standard's tables: length and distance bases, extra bits, and the order of the code length codes.
`Inflate.LengthTable`, `Inflate.DistanceTable` and `Inflate.CodeLengthTable` compare these with the printed ones.
`IcfPass.WriteBlock`, `DeflateBase.StaticBlockInflates` and `Inflate.StoredReads` say that it reads each kind of block
as the input the block was made from; `Inflate.ReadsOn` puts blocks together, and `IcfPass.FlushedBlock` says that a block
behind a full flush needs nothing before it.

**Erasure codes.** The byte field from its generator up, the table forms, Gauss-Jordan inversion in place, both generator
matrices, encoding at once and by updates, recovery, and the search for singular submatrices. For each generator, and all
numbers of rows and columns, it is proved exactly when every loss of up to m - k blocks can be recovered.

**Checksums.** CRCs over registers of any width, table-driven and bitwise, and Adler-32 with deferred remainders.

The modules follow the files of the library. `Bits`, `GF256`, `GFTables`, `Linear`, `Invert`, `Transpose`, `Cauchy`,
`Vandermonde`, `Generators`, `RsLimits`, `Erasure`, `Recovery`, `Subsets`, `Singular`: the erasure code. `LZ77`, `Icf`,
`IcfHash`, `IcfMap`: finding matches. `HeapOrder`, `Weights`, `Optimal`, `TreeCost`, `HuffTree`, `Dyadic`, `LeastBits`: the
heap, the tree and its cost. `BitStream`, `Canonical`, `CodeLengths`, `RunLength`, `Header`, `HeaderWrite`, `IcfEncode`,
`IcfCost`, `IcfTables`: from symbols to bits. `Hufftables`, `CreateHufftables`, `UnluckyHistogram`, `DeflateBase`: level 0. `Stored`,
`StreamBuffer`, `Inflate`, `IcfPass`: blocks and streams. `Crc`, `Adler`: checksums. Code that works by updating arrays and
fields is modelled by methods on arrays and classes, with loops where the source has them; each is tied to a specification
about which the lemmas are proved.

## Where the code and its promises differ

- The check that a literal, a length and a distance fit the 56 bits of the bit buffer (igzip/huff_codes.c:1363-1371) does
  not look at the symbol of length 258. `Hufftables.FitsMeans` gives the exact condition. It fails for a histogram that the
  entry point can be given: where each symbol occurs 2^(15 - l) times, for lengths l that make up a complete code, the tree
  gives just these lengths (`Dyadic.MinimalIsForced`), and `UnluckyHistogram.UnluckyLengths` shows lengths that pass the
  check and need 58 bits. `CreateHufftables.Tables.Create` therefore promises the 56 bits for the other lengths only.
- A call with full flush or end of stream that consumes all input in the user's own memory, but cannot write all its output,
  keeps no history (igzip/igzip.c:1505-1508, 1667-1676), although the hash table stays in use: if more input follows, the
  match finders look in front of the new buffer. `StreamBuffer.Zstream.IsalDeflate` says exactly which calls do that, from
  what can be read off the stream when the call returns, and that all others keep the whole window;
  `StreamBuffer.SavesNothing` goes through such a call step by step from a new stream, and `StreamBuffer.LiveNeeded` shows
  that a window any shorter does not do. The input itself is conserved in every call, after such a one too.
- A dictionary may be set after a flush (include/igzip_lib.h:676-679). The entries of hashes that do not occur in it are
  then filled with 0xffff, which stands for a distance of one more than the input position modulo 2^16. That may lie before
  the dictionary (`IcfHash.ShortDictionary`). `IcfHash.DictReach` and `IcfMap.DictReady` say exactly when the table is safe.
- The Cauchy generator loses its property past 256 rows, as indices are reduced to bytes (`Generators.CauchyLimit`). The power
  generator has it exactly in the ranges of `RsLimits.RsExact`. These contain the documented ones
  (include/erasure_code.h:894-899) up to 255 rows or columns; there powers of 2 begin to repeat, so that even two parity rows
  over 256 columns fail. From 22 data rows on, the fourth parity row breaks it, since 2^21 = 2^10 + 1.
- The deferred Adler-32 form and the per-byte form differ on empty input when the start value is not reduced
  (`Adler.BaseIsRef`).
- The size that is returned for a dynamic block also counts the bits that were in the buffer before the block
  (igzip/huff_codes.c:1680), which `IcfTables.CreateHufftablesIcf` states.
- The level buffer's space is stored as a number of records but read as a number of bytes (igzip/igzip_icf_base.c:34), so
  each call sees a quarter of the space that is left. The model does the same; nothing that is proved depends on it.

## Model

| member | source | states |
|---|---|---|
| GF256.ProductComm | erasure_code/ec_base.c:47-59 | Multiplication of field elements commutes, for all bytes: one of the field laws, proved from carry-less multiplication modulo 0x11d |
| GF256.ProductAssoc | erasure_code/ec_base.c:47-59 | It is associative |
| GF256.ProductAddRight | erasure_code/ec_base.c:47-59 | It distributes over exclusive or |
| GF256.ExpOrder | erasure_code/gf_vect_dot_prod_1tbl.c:61-72 | No positive power of the generator 2 below the 255th is 1 |
| GF256.ExpOnto | erasure_code/gf_vect_dot_prod_1tbl.c:61-72 | Every nonzero byte is one of its first 255 powers |
| GFTables.MkGfField | erasure_code/gf_vect_dot_prod_1tbl.c:61-72 | The loop fills one table with the powers of 2 and the other with the exponents 1 to 255 (so the logarithm of 1 is 255), and leaves 0 at 0 |
| GFTables.LogTable | erasure_code/gf_vect_dot_prod_1tbl.c:61-72 | Any table with that property is the logarithm table, entry by entry |
| GFTables.GfMul | erasure_code/ec_base.c:47-59 | Adding logarithms and subtracting 255 when the sum is over 254 gives the field product, zero operands included |
| GFTables.GfInv | erasure_code/ec_base.c:61-71 | The table form of the inverse is the multiplicative inverse of every nonzero byte, and 0 for 0 |
| GFTables.ProductNonzero | erasure_code/ec_base.c:47-59 | A product is 0 exactly when a factor is |
| GFTables.GfVectMulInit | erasure_code/ec_base.c:168-273 | The word-wise construction of the 32-byte table stores the products of c with the 16 low and the 16 high nibbles, and touches nothing else |
| GFTables.NibbleLookup | erasure_code/ec_base.c:168-273 | Two lookups in that table, added, are the product of c with any byte |
| Invert.GfInvertMatrix | erasure_code/ec_base.c:110-163 | The in-place elimination returns 0 exactly when no nonzero vector is mapped to 0; then the output is a two-sided inverse of the original input and the input has become the identity |
| Invert.NoPivot | erasure_code/ec_base.c:121-131 | When a column has no pivot, the original matrix is singular: the -1 is right |
| Invert.LeftInverseIsInverse | erasure_code/ec_base.c:110-163 | A left inverse of a square matrix that has no null vector is a right inverse too |
| Cauchy.CauchyNull | erasure_code/ec_base.c:92-108 | No square matrix of reciprocals of x + y, with distinct x, distinct y and no x among the y, has a null vector, at any size |
| Generators.GfGenCauchy1Matrix | erasure_code/ec_base.c:92-108 | The loops produce the identity over the reciprocals of i ^ j |
| Generators.GfGenRsMatrix | erasure_code/ec_base.c:73-90 | The running products produce the identity over the powers (2^(i-k))^j |
| Generators.MinorDecides | erasure_code/erasure_code_base_perf.c:75-85 | Any k rows of a systematic matrix are independent exactly when the block of chosen parity rows and missing columns is |
| Generators.CauchyEveryChoice | erasure_code/ec_base.c:92-108 | With at most 256 rows, every choice of k rows of the Cauchy generator is independent |
| Generators.CauchyLimit | erasure_code/ec_base.c:92-108 | ... and that holds if and only if m <= 256, or m = k, or k = 0: beyond, i ^ j repeats its low byte and an entry is 0 |
| RsLimits.RsEveryChoice | include/erasure_code.h:894-899 | In the documented ranges, with up to 255 rows or columns, every choice of k rows of the power generator is independent |
| RsLimits.RsExact | erasure_code/ec_base.c:73-90 | For all m and k: every choice of k rows of the power generator is independent if and only if there is at most one parity row or data row, or three of one and at most 255 of the other, or four and at most 21, or five of each |
| Transpose.TransposeIndependent | erasure_code/ec_base.c:110-163 | A square matrix has no null vector exactly when its transpose has none |
| Vandermonde.Consecutive | erasure_code/ec_base.c:73-90 | Consecutive powers at distinct points below 255 make a regular matrix, at any size |
| Vandermonde.OneLeftOut | erasure_code/ec_base.c:73-90 | So do consecutive powers with one left out, if an elementary symmetric function of the points is not 0 |
| Vandermonde.RegularSwaps | erasure_code/ec_base.c:73-90 | Powers and points may change places |
| Erasure.EcInitTables | erasure_code/ec_base.c:35-45 | The table memory describes exactly the coefficient matrix |
| Erasure.EcEncodeDataBase | erasure_code/ec_base.c:301-317 | Every output block is, byte position by byte position, the product of its coefficient row with the sources; tables and sources are unchanged |
| Erasure.EcEncodeDataUpdateBase | erasure_code/ec_base.c:319-333 | Adds the product of one source with its column to every output block, and changes nothing else |
| Erasure.SumAnyOrder | erasure_code/erasure_code_update_perf.c:91-101 | Adding the products in any order of the sources gives the dot product |
| Erasure.EncodeByUpdates | erasure_code/erasure_code_update_perf.c:91-101 | Zeroed blocks, updated once per source in any order, hold the full encoding |
| Erasure.EncodeAtOnce | erasure_code/erasure_code_base_perf.c:61-65 | Initializing the tables and encoding at once gives that same encoding |
| Erasure.GatherSurvivors | erasure_code/erasure_code_base_perf.c:74-82 | The copied rows and buffers are the first k that are not lost |
| Erasure.EcDecodePerf | erasure_code/erasure_code_base_perf.c:67-95 | Decoding fails exactly when the surviving rows are dependent, never for a generator all of whose choices are independent; when it succeeds, every requested block is recovered byte for byte |
| Recovery.EncodeLoseDecode | erasure_code/erasure_code_base_perf.c:53-95 | Cauchy generator, encode, overwrite any at most m - k of at most 256 blocks with anything, decode: every wanted data block comes back byte for byte |
| Erasure.DataBlockEncodes | erasure_code/erasure_code_base_perf.c:61-65 | The data blocks themselves are encoded by the identity rows, so unlost data blocks always agree with the generator |
| Subsets.NextFollows | erasure_code/gen_rs_matrix_limits.c:40-52 | The number that the bit trick reaches is the next larger one with as many bits set: none lies between |
| Subsets.NextSubset | erasure_code/gen_rs_matrix_limits.c:40-52 | In word arithmetic: steps to the next subset of the same size; reports overflow only when there is none within the range, and then restores the first |
| Singular.GenSubMatrix | erasure_code/gen_rs_matrix_limits.c:20-37 | Gathers exactly the entries in the chosen rows and columns, in order |
| Singular.AreSubmatricesSingular | erasure_code/gen_rs_matrix_limits.c:54-78 | Terminates and returns 0 exactly when no square submatrix of any size is singular |
| Singular.SubmatricesDecide | erasure_code/gen_rs_matrix_limits.c:98-112 | For any systematic generator, that condition on its parity rows holds if and only if every choice of k rows is independent: the search tests just what an erasure code needs |
| LZ77.LoadsCompare | igzip/huffman.h:257-301 | Two n-byte loads agree exactly when their exclusive or is 0, and otherwise its trailing zero bytes count the agreeing bytes, overlapping loads included |
| LZ77.Compare258 | igzip/huffman.h:248-301 | Comparing eight bytes at a time gives the byte-by-byte common prefix, capped at 258 |
| LZ77.Compare | igzip/huffman.h:309-359 | The same without the cap |
| LZ77.DistRoundTrip | igzip/huffman.h:154-167 | For distances 1 to 32768 the symbol's base plus the extra bits gives the distance back; symbol and extra bits are in range |
| IcfHash.TableReach | igzip/igzip_icf_base.c:76-85 | If every table entry is congruent mod 2^16 to a position in memory, then whatever 16-bit difference within the window the table gives, it stays in memory |
| IcfHash.ReachInsert | igzip/igzip_icf_base.c:76-85 | Storing the 16-bit form of any position in memory keeps it so, at any later position |
| IcfHash.ReachLater | igzip/igzip_icf_base.c:76-85 | Moving on keeps it so, through any number of wrap-arounds of the 16 bits |
| IcfHash.Stream.FindMatch | igzip/igzip_icf_base.c:76-120 | The chosen record is the match at the table's candidate with its full common prefix, if that is in the window and at least 4 long, else the literal; 4 <= length <= 258, 1 <= distance; the position, and the next two behind a match of the body, take their places in the table, and nothing else changes there |
| IcfHash.LastStored | igzip/igzip_icf_base.c:36-242 | Behind the records of a search, the entry of a hash is the 16-bit form of the last stored position with that hash, or the entry from before if there is none |
| IcfHash.LastNoted | igzip/igzip_icf_body.c:95-107 | So it is behind any consecutive positions |
| IcfHash.Stream.IcfBodyHashHist | igzip/igzip_icf_base.c:36-131 | Whatever the hash function: every record is the match at the candidate of the last stored position with the same hash, if there is one, or else the literal; expanding the new records behind the text before gives exactly the input consumed, the histograms grow by the records' symbols, distances stay in the window, and the next state is the right one |
| IcfHash.Stream.IcfFinish | igzip/igzip_icf_base.c:133-242 | The same to the end of the input, where matches store only their first position, with the bytes behind the last hash as literals; the hash-map form differs only in its hash |
| IcfHash.ResetMatchHistory | igzip/igzip.c:887-943 | After a reset every entry stands for the current position, so no earlier byte can be referred to |
| IcfHash.DeflateHash | igzip/igzip_icf_base.c:354-370 | For any dictionary at any input position: the entry of a hash is the last dictionary position with it, and 0xffff if there is none |
| IcfHash.DictReach | igzip/igzip.c:1211-1240 | Such a table makes the greedy finders look at the dictionary only, if and only if no entry is 0xffff, or the input position plus one, modulo 2^16, is at most the dictionary length or more than the window mask |
| IcfHash.ShortDictionary | igzip/igzip.c:1211-1240 | After 1000 bytes of input and with a dictionary of ten that fails: the distance 1001 is proposed |
| IcfHash.FoundConcat | igzip/igzip_icf_base.c:36-242 | Records of two stretches of work in a row expand to both stretches |
| IcfMap.StandsFits | igzip/igzip_icf_body.c:105-112 | For window sizes that divide 32768: an entry congruent mod 2^16 to an earlier position in memory makes the masked candidate distance reach no further than that memory, although it need not be the distance to that position |
| IcfMap.ReadyInsert | igzip/igzip_icf_body.c:105-112 | Storing a position in a sound table makes it sound for the next position |
| IcfMap.ReadyLater | igzip/igzip_icf_body.c:105-112 | Moving on by any number of bytes keeps it sound, through any number of window lengths |
| IcfMap.ResetReady | igzip/igzip.c:887-943 | After a reset the map pass refers to nothing before the current position |
| IcfMap.DictReady | igzip/igzip.c:1211-1240 | With a dictionary it refers to that only, if and only if no entry is 0xffff or the input position modulo the window is below the dictionary length |
| IcfMap.Stream.GenIcfMapH1 | igzip/igzip_icf_body.c:74-129 | Over just the positions that keep a look-ahead: each map entry is the match of at least four of eight bytes at the candidate of the last position before it with the same hash, or its literal; only the first position without history is a literal unseen; all positions are stored |
| IcfMap.Stream.SetLongIcfFg | igzip/igzip_icf_body.c:27-67 | The map becomes the one in which the long matches are extended one after the other as far as the input agrees, each with ever shorter rests behind it while these are longer than what is there; that keeps every entry a true match, never shortens one, and gives the first long match its whole common prefix |
| IcfMap.Stream.CompressIcfMapG | igzip/igzip_icf_body.c:136-215 | At any output space, each record is what the parse rule takes at its index: a match as it is, two literals as a pair if both are in the map and there is room for two records, else the literal; they expand to exactly the bytes moved over; positions and counters agree |
| IcfMap.Stream.IcfBodyHash1FillgreedyLazy | igzip/igzip_icf_body.c:235-272 | The records are those that the parse takes from what is left of the map, and then round after round from maps filled by the first pass and extended, each from the table and position that the round before has left; they expand to the input between the parse positions, and the histograms count them |
| BitStream.BitBuf2.SetBuf | igzip/bitbuf2.h:51-56 | Changing output buffers does not change the stream of bits |
| BitStream.BitBuf2.WriteBits | igzip/bitbuf2.h:116-121 | Appends exactly the given bits, least significant first; at most seven stay behind |
| BitStream.BitBuf2.FlushBits | igzip/bitbuf2.h:78-87 | Moving whole bytes out does not change the stream, nor anything before the position |
| BitStream.BitBuf2.Flush | igzip/bitbuf2.h:90-100 | Pads with zeros to the next byte boundary |
| Canonical.CodeFits | igzip/huff_codes.c:983-1008 | With a Kraft sum of at most 1, every canonical code fits in its length |
| Canonical.PrefixFree | igzip/huff_codes.c:983-1008 | No code word is a prefix of another symbol's, in reading order |
| Canonical.BitReverseIs | igzip/huff_codes.c:660-664 | The multiplication-free byte tricks reverse the bits of a code |
| Canonical.RevReads | igzip/huff_codes.c:660-664 | Written least significant bit first, the reversed number is the code word in reading order |
| Canonical.DecodeEncode | igzip/huff_codes.c:983-1037 | Any sequence of symbols is read back from its code words, whatever follows |
| Canonical.SetHuffCodes | igzip/huff_codes.c:983-1008 | The loop gives each symbol its canonical, bit-reversed code and returns the last used symbol |
| Canonical.SetDistHuffCodes | igzip/huff_codes.c:1015-1037 | The same for distances, with the number of extra bits |
| CodeLengths.ShortExists | igzip/huff_codes.c:919-925 | The search for a shorter code to lengthen cannot run off the table: a full tree with at most 2^max leaves and one deeper than max has one shorter than max |
| CodeLengths.LimitLengths | igzip/huff_codes.c:918-931 | The limiting loop terminates, and keeps the leaf count and a Kraft sum of exactly 1; at each step it is a longest code below the limit that gives way |
| CodeLengths.ScanTree | igzip/huff_codes.c:897-916 | The scan over the nodes moves the leaves to the front with their depths, and counts each depth |
| CodeLengths.FixCodeLens | igzip/huff_codes.c:890-955 | From any full tree with at most 2^max leaves: every leaf gets a length from 1 to max, the counts are those of the lengths, their Kraft sum is 1; nothing changes if no leaf was too deep, and otherwise the counts are the limited ones, handed out in nondecreasing order |
| HuffTree.Heapify | igzip/proc_heap_base.c:34-49 | Sifting one entry down keeps the entries and restores the heap order from there on |
| HuffTree.JoinFirst | igzip/proc_heap_base.c:64-73 | The two entries taken out are the two lightest, and the one put in weighs as much as both, with 48-bit sums |
| HuffTree.BuildHuffTree | igzip/proc_heap_base.c:60-85 | The nodes form a full binary tree over exactly the symbols of the heap, every child behind its parent; while sums stay below 2^48, no code for the symbols costs less than the tree |
| Optimal.Shrink | igzip/proc_heap_base.c:64-79 | Exchange argument: for any code for the names there is one, with the two lightest joined, that costs less by their weights |
| TreeCost.CostOfLeaves | igzip/huff_codes.c:897-916 | The weights of the leaves, each times its depth, add up to the weights of all places but the root's |
| HuffTree.InitHeap | igzip/huff_codes.c:767-872 | The heap holds the symbols that occur, and at least two |
| HuffTree.InitHeapComplete | igzip/huff_codes.c:874-888 | The heap holds all symbols |
| HuffTree.GenHuffCodeLens | igzip/huff_codes.c:957-973 | For any frequencies, the lengths form a complete prefix code over exactly the symbols of the heap, none longer than the limit; there is a code of least total cost whose lengths are taken if they respect the limit, and certainly if no length taken reaches it |
| Dyadic.MinimalIsForced | igzip/proc_heap_base.c:60-85 | Where every symbol occurs 2^(t - l) times and all together 2^t times, the lengths of least cost are exactly the l |
| LeastBits.KraftShares | igzip/huff_codes.c:983-1008 | The Kraft sum of the length counts is the sum over all symbols |
| LeastBits.FewestIsShortest | igzip/huff_codes.c:1605-1671 | Lengths of least cost for the counts of a block write its records in no more bits than any other valid codes |
| HuffTree.GoodIsCanonical | igzip/huff_codes.c:957-1008 | Those lengths meet what canonical numbering needs, with a Kraft sum of exactly 1 |
| RunLength.RlEncode | igzip/huff_codes.c:1137-1246 | The run tokens expand to the code lengths; their number is one for every 138 zeros or six repetitions of a run and two where two lengths are left over, never more than there are lengths, and the histogram counts the tokens |
| RunLength.NotFewest | igzip/huff_codes.c:1137-1175 | That is not always the least number: 140 zeros take three tokens where two would do |
| Header.HeaderParses | igzip/huff_codes.c:1052-1091 | A parser for section 3.2.7 of RFC 1951 reads flag, HLIT, HDIST and all lengths back from the header bits, whatever follows |
| Header.CreateHuffmanHeader | igzip/huff_codes.c:1052-1091 | Writes just those header bits and returns their number |
| Header.CreateHeader | igzip/huff_codes.c:1103-1136 | From the run tokens to bits that parse to the lengths, in at most 74 + 7 bits a length; of the code length codes only four are sent, or those up to the last one used |
| Header.DynamicHeader | igzip/huff_codes.c:1673-1681 | Run-length coding and header together: the bits parse to the given lengths |
| IcfEncode.LengthRoundTrip | igzip/huff_codes.c:742-765 | For every length, symbol base plus extra value is the length again and the extra value fits its bits |
| IcfEncode.ExpandHufftablesIcf | igzip/huff_codes.c:1573-1602 | In place: one entry per length, its symbol's code followed by the extra value; all other entries keep their code |
| IcfEncode.EncodeDeflateIcf | igzip/encode_df.c:18-38 | Stops at the end or when the buffer is full, having appended exactly the bits of the records before the position returned |
| IcfEncode.EncodeInPieces | igzip/igzip.c:225-246 | Over a series of output buffers of any sizes, the bits appended are those of the records done so far; as long as records are left, every buffer of eight bytes or more has been filled but for at most seven bytes |
| IcfEncode.RecordsBound | igzip/encode_df.c:18-38 | No record takes more than 48 bits |
| IcfEncode.BlockDecodes | igzip/encode_df.c:18-38 | A decoder for section 3.2.5 of RFC 1951 reads the tokens back from the bits of the records, whatever follows |
| IcfEncode.InflatesBack | igzip/encode_df.c:18-38 | Decoding and expanding the bits of records that produce a text gives the text |
| IcfCost.FlattenLl | igzip/flatten_ll.c:7-41 | The in-place folding gives every symbol the sum of the counters of its lengths |
| IcfCost.ExactCost | igzip/huff_codes.c:1652-1671 | The number of bits of the encoded records is the sum over the histogram of code length plus extra bits |
| IcfCost.FoldedExactCost | igzip/huff_codes.c:1652-1671 | The same from the folded histogram |
| IcfTables.CodesAndSizes | igzip/huff_codes.c:1630-1671 | The new codes cover every counted symbol, the assertions hold (256 <= last symbol, a distance code exists), and both sizes are measured |
| IcfTables.CreateHufftablesIcf | igzip/huff_codes.c:1605-1694 | The tables encode every record under the announced codes; the result is the exact size of header and body (for a dynamic block also the bits before it in the buffer), and the new codes are used if and only if that is less than the size with fixed codes; unless a new code reaches 15 bits, no other valid codes write the records in fewer bits |
| IcfTables.CountsOfBlock | igzip/igzip.c:396-401 | Histograms of the match finder plus one end of block are those of the records with the end record |
| Hufftables.UseableMeans | igzip/huff_codes.c:1349-1389 | The check passes exactly when literal, length and distance take at most 56 bits for all lengths but 258 |
| Hufftables.FitsMeans | igzip/huff_codes.c:1349-1389 | All triples fit if and only if the check passes and the code of length 258 fits too |
| Hufftables.UseableMissesLast | igzip/huff_codes.c:1349-1389 | There are complete codes that pass the check although a literal, the length 258 and a distance take 58 bits |
| UnluckyHistogram.UnluckyLengths | igzip/huff_codes.c:1349-1441 | On one such pair of histograms the codes that are made pass the check, and literal 0, length 258 and the last distance symbol take 58 bits |
| UnluckyHistogram.MakeUnlucky | igzip/huff_codes.c:1391-1479 | ... and making the tables of that histogram gives these codes |
| Hufftables.SafeLengths | igzip/huff_codes.c:1427-1441 | With the fall-back limits of 13 and 12 bits every triple fits |
| Hufftables.AreHufftablesUseable | igzip/huff_codes.c:1349-1389 | The loops compute that check |
| Hufftables.Unpacked | igzip/huff_codes.c:1273-1340 | A packed entry gives back its bit count and the code followed by the extra bits |
| Hufftables.CreatePackedLenTable | igzip/huff_codes.c:1273-1302 | The 256 packed entries are those of the lengths 3 to 258 |
| Hufftables.CreatePackedDistTable | igzip/huff_codes.c:1312-1340 | The packed entries are those of the distances from 1, at any table length |
| CreateHufftables.CompleteCodes | igzip/huff_codes.c:1420-1429 | A complete code for all symbols of any histogram, of least cost if the limit permits; exactly the lengths that frequencies which are powers of two call for |
| CreateHufftables.Tables.Create | igzip/huff_codes.c:1391-1479 | For any histogram: every literal, length and distance has its code word in the tables, the stored header parses to the lengths, and every triple without length 258 takes at most 56 bits; frequencies that call for lengths which pass the check get just these |
| DeflateBase.Deflate.DeflateBody | igzip/igzip_base.c:29-115 | Level 0: what is written are the code words of the records that the search finds, as at level 1, and they expand to the input consumed |
| DeflateBase.Deflate.DeflateFinish | igzip/igzip_base.c:117-218 | The same to the end of the input and of the block |
| HeaderWrite.HeaderWriter.Write | igzip/igzip.c:1886-1960 | One call, at any output space, from any point of a header: written and unwritten bits together do not change, all counters move together, it leaves off only with less than eight bytes free, and the final flag of a header of a byte or more is changed exactly once, with its record in the state |
| HeaderWrite.HeaderWriter.WriteInPieces | igzip/igzip.c:1886-1960 | Over any series of output buffers the header comes out the same, and leaves off only when all room is used up |
| HeaderWrite.HeaderWriter.WholeHeader | igzip/igzip.c:1905-1931 | What is written in all are the bits of the stored bytes, with the lowest bit of the first one flipped if asked for, be that a whole byte or only extra bits |
| DeflateBase.WriteStoredHeader | igzip/igzip.c:453-466 | Level 0 writes the stored header, changed for a block that is not the last, and the state then tells which of the two it wrote |
| DeflateBase.BlockReadsBack | igzip/igzip_base.c:29-218 | Body, finish and end of block decode to the input, whatever follows |
| DeflateBase.BlockInflates | igzip/igzip.c:453-484 | With its stored header in front, the block is read as that input by a decompressor that knows only the bits |
| Header.ToggleParses | igzip/igzip.c:1917-1931 | Toggling the first bit of a stored header toggles the final flag and nothing else |
| Header.ToggleByte | igzip/igzip.c:1917-1931 | Exclusive or of the first byte with 1 toggles the first bit |
| DeflateBase.StaticBlockInflates | igzip/igzip.c:1917-1931 | Behind the stored header, with its first byte changed for a block that is not the last, the block is read as its input, and final exactly when announced |
| Inflate.LengthTable | igzip/igzip_inflate.c:129-140 | Bases and extra bits of the 29 length symbols are those printed in section 3.2.5 of RFC 1951 |
| Inflate.DistanceTable | igzip/igzip_inflate.c:117-128 | So are those of the 30 distance symbols |
| Inflate.CodeLengthTable | igzip/huff_codes.c:34-37 | The order of the code length codes and their extra bits are those of section 3.2.7 of RFC 1951 |
| Inflate.DynamicReads | igzip/igzip.c:375-455 | A decompressor written from section 3.2.3 of RFC 1951 reads header and body of a dynamic block as the text that the records produce |
| Inflate.FixedReads | igzip/huff_codes.c:1683-1690 | So it does for a block with fixed codes |
| Inflate.FixedWord | igzip/huff_codes.c:53-342 | Lengths and code words of the 288 literal and length symbols are those printed in section 3.2.6 of RFC 1951 |
| Inflate.FixedDistWord | igzip/huff_codes.c:568-599 | So are those of the distances: five bits, the symbol itself |
| Inflate.StaticTables | igzip/huff_codes.c:53-600 | The printed numbers with their bits reversed are tables of the fixed codes, as the compressor asks for |
| Inflate.FixedValid | igzip/huff_codes.c:1683-1690 | The fixed codes of section 3.2.6 of RFC 1951 satisfy the Kraft inequality and match their counts |
| Inflate.StoredReads | igzip/igzip.c:782-885 | Stored blocks at any bit position and for any number of bytes are read as those bytes |
| Inflate.ReadsOn | igzip/igzip.c:507-537 | Stretches of blocks that each read correctly read correctly one after the other |
| IcfPass.CollectBlock | igzip/igzip.c:508-515 | Body and finish of one block: the records are those of the two searches, one behind the other on the same table, and produce the input consumed, from a fresh histogram |
| IcfPass.CollectedMore | igzip/igzip.c:507-515 | Collecting may go on with any match finder of any level |
| IcfPass.CollectMap | igzip/igzip.c:508-515 | So do the map pass and the greedy finish behind it, on the same table and buffers |
| IcfPass.FinishMap | igzip/igzip_icf_base.c:133-242 | The greedy finish goes on where the map left off, for any other hash |
| IcfPass.WriteBlock | igzip/igzip.c:375-455 | From the records to the bits, over any series of output buffers, with the header in place or buffered and suspended: once all records are out, the decompressor reads the whole block as the input, and final exactly when announced, and it is no longer than with fixed codes; the block stays open only when all room is used up, and is closed when 6 bytes a record and 293 more are free |
| IcfPass.WriteHeader | igzip/igzip.c:405-451 | Header bits in place when 328 bytes are free, and otherwise through a buffer of its own: the same bits either way, suspended only when all room is used up |
| IcfPass.CollectFlushed | igzip/igzip.c:1541-1549 | After a reset of the match history, the records of the next block stand for its input from an empty history, at any position of the stream |
| IcfPass.CollectMapFlushed | igzip/igzip.c:1541-1549 | So do those of the third level |
| IcfPass.FlushedBlock | include/igzip_lib.h:777-779 | A block behind a full flush is read as its input by a decompressor that has seen nothing before it |
| Stored.NumBlocksIs | igzip/igzip.c:782-885 | n bytes take max(1, ceil(n / 65535)) blocks |
| Stored.DividedIs | igzip/igzip.c:782-885 | The payloads of the division concatenate to the bytes, and only the last block may be final |
| Stored.BlocksParse | igzip/igzip.c:782-885 | A parser for section 3.2.4 of RFC 1951 reads the division back, LEN and NLEN checked, whatever follows |
| Stored.Writer.WriteType0Header | igzip/igzip.c:782-832 | Writes the header whole or not at all; written and unwritten bits together do not change |
| Stored.Writer.WriteStoredBlock | igzip/igzip.c:834-885 | For any output size, written and unwritten bits together do not change, and it stops only without output space or when all is written |
| Stored.Writer.WriteInPieces | igzip/igzip.c:782-885 | Over any series of output buffers the finished output is the same: the blocks of the bytes; it is unfinished only when all room is used up, and finished when there is room for its bits |
| StreamBuffer.Zstream.GetHistSize | igzip/igzip.c:1482-1511 | Keeps all of an unwritten stored block, and else the window's share of the history, or nothing once the input is at its end |
| StreamBuffer.Zstream.SetDict | igzip/igzip.c:1332-1354 | Only between blocks with nothing pending; the buffer then holds the last bytes of the dictionary |
| StreamBuffer.Zstream.Internally | igzip/igzip.c:1569-1658 | In every call, a round in the internal buffer conserves the input and restores flush and end of stream; a kept window stays kept; the compressor gets its turn on all that is pending, with the flush and end asked for once nothing is left in the user's memory, and is passed over only if neither is asked for and no more than the window is pending |
| StreamBuffer.Zstream.Externally | igzip/igzip.c:1630-1660 | In every call, a round in the user's memory, after handing pending bytes back, conserves the input and gives the compressor all of it, as asked; it wants no history under the guard of igzip/igzip.c:1505-1508, and otherwise, if the window was kept, the whole window |
| StreamBuffer.Zstream.IsalDeflate | igzip/igzip.c:1513-1707 | For every sequence of calls and whatever the compressor consumes: next_in, avail_in and total_in move together, fed and pending bytes are exactly the accepted ones in order, any unwritten stored block stays in memory, and the call terminates; when the window was kept, it is kept again if and only if the call did not end in the user's memory with nothing left to compress, at a full flush or the end of the stream, with output still to write outside a stored block |
| StreamBuffer.Zstream.Compress | igzip/igzip.c:1613-1617 | Every call hands all input, pending bytes included, to the compressor with the flush and end of stream asked for, unless the output is full or a turn on a full buffer moved nothing; the one other case is that neither is asked for and no more than the window waits |
| StreamBuffer.Zstream.TopUp | igzip/igzip.c:1684-1705 | If output is left, or at level 3, the rest of the input is buffered if it leaves room, or else a look-ahead of it, or what fits |
| StreamBuffer.LiveReach | igzip/igzip_icf_base.c:76-85 | A window kept is all that the greedy finders need: a table over the live text then refers to memory only |
| StreamBuffer.LiveReady | igzip/igzip_icf_body.c:105-112 | So it is for the map pass |
| StreamBuffer.LiveNeeded | igzip/igzip_icf_body.c:105-112 | With any less, some table over the live text makes the map pass look in front of the memory |
| StreamBuffer.SavesNothing | igzip/igzip.c:1667-1676 | A new stream, one byte, a full flush and one byte of output space: going through the steps of the call, nothing is kept, although the byte compressed is still live |
| Crc.ReflBase | crc/crc64_base.c:818-828 | The table-driven reflected loop computes the bitwise reflected check, for every width, polynomial, seed and buffer |
| Crc.NormBase | crc/crc64_base.c:830-840 | So does the table-driven normal loop |
| Crc.NormBaseCopy | crc/crc_base.c:279-290 | The copying loop also copies just the input |
| Crc.ReflRef | crc/crc64_ref.h:46-60 | The reference loop in a 64-bit word computes that reflected check too |
| Crc.NormRefWide | crc/crc_ref.h:100-115 | The normal reference loop does, although its word keeps stray high bits |
| Crc.NormRef64 | crc/crc64_ref.h:62-76 | So does the 64-bit normal reference |
| Crc.ReflRunConcat | crc/crc_base.c:319-333 | Continuing a reflected check is checking the concatenation |
| Crc.NormRunConcat | crc/crc_base.c:307-317 | Continuing a normal check is too |
| Crc.InvertedConcat | crc/crc64_base.c:818-888 | The same through the inversions before and after |
| Crc.MirrorRun | crc/crc64_base.c:818-888 | A reflected check is the bit mirror of the normal check with the mirrored polynomial on mirrored bytes |
| Crc.MirroredCheck | crc/crc64_base.c:818-888 | Through the inversions, for every width: the reflected check of mirrored bytes is the mirror image of the normal check |
| Crc.GzipIsIeee | crc/crc_ref.h:100-134 | The gzip check of mirrored bytes is the mirror image of the IEEE check |
| Crc.WideMirrors | crc/crc64_ref.h:46-142 | So are the reflected ECMA, ISO and Jones checks of the normal ones |
| Adler.ChunkFits | igzip/adler32_base.c:33-63 | Over 2^28 bytes from halves below 2^16, both sums stay below 2^64 |
| Adler.Adler32Base | igzip/adler32_base.c:33-63 | Deferring the remainder to the end of chunks gives the remainders of the exact sums |
| Adler.AdlerRef | igzip/checksum_test_ref.h:89-100 | The per-byte form |
| Adler.BaseIsRef | igzip/adler32_base.c:33-63 | Both agree if and only if there is input or the halves of the start value are reduced |
| Adler.IsalAdler32Bam1 | igzip/igzip.c:143-156 | The form that stores A - 1 keeps its halves reduced and is the check in that form |
| Adler.TrailerIsAdler | igzip/igzip.c:2004-2012 | However the input is divided into buffers, the trailer holds the Adler-32 value of section 9 of RFC 1950 |

## Left out

- CodeLengths.ScanTree: takes the counts array to cover the depth of the tree; the source's scan from the deepest level runs within the memory it shares with the nodes. Nodes, depths and counts are separate arrays here.
- HuffTree.BuildHuffTree: says that the tree has least cost only while the frequencies add up to less than 2^48, as the heap keeps them in the upper 48 bits of a word. Above, the shape of the tree still makes a complete code.
- HuffTree.GenHuffCodeLens: does not say that limited lengths are the best among those within the limit; the source's limiting does not look at the frequencies.
- CreateHufftables.Tables.Create: promises 56 bits for all lengths but 258, because the source's check leaves that symbol out.
- IcfTables.CreateHufftablesIcf: takes any fixed tables with the code words of the fixed codes; `Inflate.StaticTables` gives them by formula, the source's literals are not copied. The exact size is stated for records that contain the end of the block, which is how the function is called.
- IcfPass.WriteBlock: takes the branches that write a compressed block, its header in place or buffered; the branch to stored blocks is modelled by `Stored.Writer`. Of each further buffer all but seven bytes are counted as room, and of the first one nothing.
- HeaderWrite.HeaderWriter.Write: leaves out the gzip or zlib header in front of the block header.
- DeflateBase.WriteStoredHeader: starts at a byte boundary, as the source's comment demands for changing the final flag (igzip/igzip.c:1885).
- IcfPass.CollectMapFlushed: says what the records stand for; the map pass may fill the record buffer to its end, so closing the block is left to a further call.
- Cauchy.CauchyNull: stated over bytes, as that is the field of the library.
- StreamBuffer.Zstream.DeflateInt: stands for the compressor between the buffers and is left free in what it consumes and writes; when it may enter a stored block follows the guard in igzip/igzip.c:423-430.
- StreamBuffer.Zstream.IsalDeflate: counters are unbounded, so the wrap-around of total_in and total_out at 2^32 is not modelled there; the match finders model it. In a call that brings input after live history was lost, the compressor works on the memory there is, and nothing is promised about its window; the input is conserved there too. The blocks of a whole stream are put together by `Inflate.ReadsOn`, not by this method, which leaves the compressor free.
- Stored.Writer.WriteStoredBlock: does not model the reset of the match history behind a full flush, which `IcfHash.ResetMatchHistory` covers.
- Erasure.EcDecodePerf: the buffers are arrays of their own; blocks that share memory are not modelled. Recovery through incremental updates is covered by `Erasure.EncodeByUpdates`.
- Singular.AreSubmatricesSingular: the scratch matrices are allocated at their size instead of at a fixed maximum, and sets are bounded by the 63 elements of a word. The source computes `1 << subsize` in a 32-bit int (erasure_code/gen_rs_matrix_limits.c:63), which is defined for sizes up to 30 only; beyond, the model stands for the 64-bit shift that the other shifts there use.
- The histogram counters are unbounded; the source's have 32 bits.
- The concrete hash functions: any function of the loaded bytes will do for every result.
- Vector and assembly kernels and their dispatch, the field-multiplication table form of the dot product, gzip and zlib header fields, the dictionary objects, the statelessly compressed form with repeated characters, and the library's own inflate.
- The literal CRC, field and code tables: they are defined by their generating rule, or taken as given where a method receives them.
- Benchmark programs, file handling and option parsing.
