# rpb core in Dafny

A model of the sequential logic of `rpb`, a Rust port of the parallel
benchmark suite PBBS and of its primitives library `parlay`.  The modelled
core is:

- **parlay primitives**: the `pack` family (`pack_serial_at`, `pack_serial`,
  the blocked `pack_helper`, `pack`, `pack_index`), the non-copy pack
  (`nc_pack*`), `flatten` / `flatten_by_val` and tokenisation (`tokens`,
  `map_tokens`, its start/end predicates and the pair combine `g`);
- **Morton-order bit logic** of the Chan 2005 nearest-neighbour code
  (`max_val`, `less_msb`, `set_below_msb`, `cmp_shuffle`, `dist_sq_to_box`);
- **the quick-hull partition** `split`;
- **the inverted index**: the serial `search` and `build_index` (document
  loop, word scan, word to document-id grouping, sorted output) and, from
  the parallel version, the djb2 hashes, document-start detection, document
  ranges, byte normalisation and per-document tokens;
- **the serial word count**: the streaming `Djb2` hasher, normalisation,
  whitespace tokenisation and counting.

Parallel loops are modelled as sequential loops over the same blocks.  The
blocked algorithms keep their shape: per-block counts, an exclusive scan
giving offsets, then per-block serial writes at those offsets.  Mutable
slices are values passed in and returned.  Closures `arr_f` are the
materialised sequences they index.  Hash maps are association lists in
first-occurrence order, and what is stated about them does not depend on
that order.  Machine integers are `nat` below an explicit bound (`U64`,
`Byte`), and wrap-around is written out as `% 2^64`.

Modules, one per source component:

| module | file | models |
|---|---|---|
| `Wrappers` | wrappers.dfy | `Option` and `Result` |
| `SequenceOps` | sequence_ops.dfy | the helpers of parlay's `sequence_ops`, stated by contract |
| `Pack`, `NcPack` | pack.dfy, nc_pack.dfy | pack and the non-copy pack |
| `Flatten` | flatten.dfy | flatten |
| `Tokens` | tokens.dfy | `tokens`, `map_tokens`, `g`, `block_delayed_scan` |
| `Words` | words.dfy | bits of unbounded naturals: `Bit`, `Xor`, `And`, `Or`, `Shr`, bit length |
| `Chan05` | chan05.dfy | the Morton-order helpers |
| `QuickHull` | quick_hull.dfy | `split` |
| `Ascii`, `LetterRuns`, `AssocLists` | ascii.dfy, letter_runs.dfy, assoc_lists.dfy | ASCII classes, the words of a text, association lists |
| `Djb2` | djb2.dfy | the three djb2 hashes |
| `IndexSerial` | index_serial.dfy | the serial inverted index |
| `IndexParallel` | index_parallel.dfy | the parallel inverted index up to the tokens |
| `WordCounts` | word_counts.dfy | the serial word count |

Reference definitions are the partners against which the code-shaped
members are proved:

- `Pack.Packed`: the kept entries in order.
- `Flatten.Concat`: concatenation.
- `Tokens.Runs`: the maximal runs, with `IsToken` as the characterisation.
- `Chan05.Interleave` with `LexCompare`: the bit-interleaved key order.
- `QuickHull.Picked`: the bag of elements satisfying a criterion.
- `LetterRuns.LetterWords`: the lower-cased maximal letter runs.
- `IndexSerial.DocsWith`: which documents contain a word.
- `IndexSerial.ParseIndex`: the parser that inverts the output format.
- `Djb2.HashFrom`: the multiply-by-33 recurrence.

## Model

| member | source | states |
|---|---|---|
| `SequenceOps.ScanInplace` | parlay/src/primitives.rs:79 | `scan_inplace` with `+`: entry i becomes the sum of the entries before i, the total is returned, and offsets never decrease and never pass the total |
| `SequenceOps.NumBlocks` | parlay/src/primitives.rs:66-68 | `num_blocks` is ceiling division: the blocks cover all n positions and the last block is not empty |
| `SequenceOps.BlockCountsScan` | parlay/src/primitives.rs:74-79 | the scanned count of block i equals the number of true flags before block i starts |
| `SequenceOps.BlockCountsTotal` | parlay/src/primitives.rs:79 | the total `m` returned by the scan is the number of true flags |
| `Pack.TruePositions` | parlay/src/primitives.rs:105-111 | one position per true flag, each inside the flags |
| `Pack.PackedLength` | parlay/src/primitives.rs:56-58 | the pack has exactly `sum_bool_serial(flags)` entries |
| `Pack.PackedSplit` | parlay/src/primitives.rs:83-90 | packing a prefix of the flags is the pack before any cut point followed by the pack of the block after it |
| `Pack.PackedPositions` | parlay/src/primitives.rs:42-47 | entry j of the pack is the source entry at the j-th true flag, the positions strictly increase, and a flag is true exactly when its position is among them |
| `Pack.PackedIota` | parlay/src/primitives.rs:105-111 | packing the identity sequence gives the true positions, which is what `pack_index` computes |
| `Pack.PackedAllTrue` | parlay/src/primitives.rs:42-47 | with every flag true the pack is the source prefix |
| `Pack.PackedAllFalse` | parlay/src/primitives.rs:42-47 | with no flag true the pack is empty |
| `Pack.PackSerialAt` | parlay/src/primitives.rs:35-49 | returns k = the number of true flags, writes the pack into `dest[..k]` and leaves `dest[k..]` as it was |
| `Pack.PackSerial` | parlay/src/primitives.rs:51-59 | `dest` has length `sum_bool_serial(flags)` and equals the pack |
| `Pack.BlockOffsets` | parlay/src/primitives.rs:74-83 | the scanned offset of block i, and that of block i+1 or `m` for the last block, are the true-flag counts before the two block starts |
| `Pack.PackBlockStep` | parlay/src/primitives.rs:83-90 | block i's serial pack written at its offset extends the pack of the flags before block i to those before block i+1 |
| `Pack.PackHelper` | parlay/src/primitives.rs:61-91 | the blocked pack equals the serial pack for every block size of at least 1 |
| `Pack.Pack` | parlay/src/primitives.rs:93-103 | an empty `arr` gives an empty `dest`; otherwise `dest` lists `arr` at the true flags, in order |
| `Pack.PackIndex` | parlay/src/primitives.rs:105-112 | fails with InvalidArgument exactly on empty flags and with ConversionError exactly when a true position exceeds the target type's maximum; otherwise yields the strictly increasing list of true positions |
| `NcPack.NcPackSerialAt` | parlay/src/primitives.rs:116-127 | places the pack, in order, into the first uninitialised slots, one write per slot, and leaves the other slots alone |
| `NcPack.NcPackSerial` | parlay/src/primitives.rs:129-137 | reserves exactly as many slots as true flags and ends with the pack |
| `NcPack.SpliceBlock` | parlay/src/primitives.rs:161-168 | writing a block's slice into still-uninitialised slots extends the initialised prefix by the block's values and leaves the rest uninitialised |
| `NcPack.BlockSlot` | parlay/src/primitives.rs:152-167 | block i reads flags `[i*bls, next start)` and owns buffer slots `[offsets[i], next offset)`, which have room for exactly its kept entries |
| `NcPack.PlaceBlock` | parlay/src/primitives.rs:164-168 | one block keeps the buffer holding the pack of all flags before the next block start, with every later slot still uninitialised |
| `NcPack.NcPackHelper` | parlay/src/primitives.rs:139-169 | the blocked non-copy pack writes every slot exactly once and yields the serial pack for every block size |
| `NcPack.NcPack` | parlay/src/primitives.rs:171-181 | the same sequence as `pack`: empty for an empty `arr`, otherwise the entries at true flags |
| `Flatten.ConcatLength` | parlay/src/primitives.rs:189-193 | the concatenation is as long as the scanned sum of the input lengths |
| `Flatten.ConcatAppend` | parlay/src/primitives.rs:194-201 | concatenation distributes over splitting the list of inputs |
| `Flatten.ConcatOfEmpties` | parlay/src/primitives.rs:185-202 | inputs that are all empty flatten to an empty sequence |
| `Flatten.CopyInto` | parlay/src/primitives.rs:196-200 | the per-input element copy leaves the output chunk equal to the input |
| `Flatten.Flatten` | parlay/src/primitives.rs:185-202 | `dest` is the concatenation of the inputs in order, of the scanned total length |
| `Flatten.FlattenByVal` | parlay/src/primitives.rs:204-210 | gives the same result as `flatten` |
| `Tokens.GAssociative` | parlay/src/primitives.rs:245-251 | `g` is associative on pairs with non-negative counts |
| `Tokens.GNotAssociativeWithNegativeCounts` | parlay/src/primitives.rs:245-251 | a concrete triple with a negative count shows where associativity stops |
| `Tokens.GIdentity` | parlay/src/primitives.rs:245-251 | `(0,0)` is a right identity, and a left identity for every value the scan can produce |
| `Tokens.FoldGNonNegative` | parlay/src/primitives.rs:254-266 | folding start pairs never gives a negative count |
| `Tokens.FoldGAppend` | parlay/src/primitives.rs:271 | the fold of a concatenation combines the folds of the parts, so scans can be split at blocks |
| `Tokens.BlockDelayedScan` | parlay/src/primitives.rs:271 | offset i is the fold of the pairs before i and the total is the fold of all of them |
| `Tokens.FoldBlockTotals` | parlay/src/primitives.rs:271 | folding the first q block totals equals folding the elements before block q |
| `Tokens.BlockedScanAgrees` | parlay/src/primitives.rs:271 | the blocked scan (block totals scanned, then a scan inside each block) agrees with the plain exclusive scan at every index, for every block size |
| `Tokens.ScanOfStarts` | parlay/src/primitives.rs:268-271 | the scan up to p counts the starts before p and carries the last of them |
| `Tokens.RunEnd` | parlay/src/primitives.rs:239-240 | the end of the run from i is the first separator at or after i, or n |
| `Tokens.RunsFromSamePattern` | parlay/src/primitives.rs:237-240 | the runs depend only on where the separators are |
| `Tokens.RunsAreTokens` | parlay/src/primitives.rs:237-240 | every run is a maximal non-separator segment, the runs are ordered and disjoint, and every maximal segment is a run |
| `Tokens.EndsMatchRuns` | parlay/src/primitives.rs:274-278 | the filtered `is_end` positions are exactly the run ends, in order |
| `Tokens.StartsMatchRuns` | parlay/src/primitives.rs:288-289 | the number of starts equals the number of runs, so the asserted length check holds |
| `Tokens.CarriedStarts` | parlay/src/primitives.rs:280-285 | at each run end the scan carries that run's start |
| `Tokens.EndIndices` | parlay/src/primitives.rs:274-278 | the loop collects exactly the token ends in increasing order |
| `Tokens.MapEnds` | parlay/src/primitives.rs:280-286 | reading the carried start at each end yields `f` of every token, in order |
| `Tokens.MapTokens` | parlay/src/primitives.rs:223-292 | the result applies `f` to every maximal non-separator run, left to right, and is empty for empty input |
| `Tokens.TokensOf` | parlay/src/primitives.rs:214-221 | `tokens` is `map_tokens` with the identity: the token slices |
| `Tokens.TokensOfExample` | parlay/src/primitives.rs:214-221 | leading, repeated and trailing separators give no empty tokens |
| `Chan05.MaxVal` | pbbs/src/benchmarks/nearest_neighbor/chan05.rs:8-10 | `max_val(d)` + 1 is 2^(60/d), so the value has 60/d bits |
| `Chan05.MaxValOfDims` | pbbs/src/benchmarks/nearest_neighbor/chan05.rs:6-10 | `max_val(2) = 2^30 - 1` and `max_val(3) = 2^20 - 1` |
| `Chan05.LessMsb` | pbbs/src/benchmarks/nearest_neighbor/chan05.rs:40-43 | true exactly when x's highest set bit is strictly below y's, with 0 lowest |
| `Chan05.LessMsbIsBitLen` | pbbs/src/benchmarks/nearest_neighbor/chan05.rs:41-43 | the expression `x < y && x < x ^ y` is equivalent to a smaller bit length, in both directions |
| `Chan05.LessMsbIrreflexive` | pbbs/src/benchmarks/nearest_neighbor/chan05.rs:41-43 | no value has its msb below its own |
| `Chan05.SetBelowMsb` | pbbs/src/benchmarks/nearest_neighbor/chan05.rs:67-75 | bit l of the result is set iff x has a set bit in `[l, l+32)`; for x < 2^32 the result is 2^(msb+1) - 1 |
| `Chan05.SetBelowMsbCovers` | pbbs/src/benchmarks/nearest_neighbor/chan05.rs:67-75 | for x < 2^32 the smeared value is at least x |
| `Chan05.SetBelowMsbIdempotent` | pbbs/src/benchmarks/nearest_neighbor/chan05.rs:67-75 | for x < 2^32 smearing twice equals smearing once |
| `Chan05.SetBelowMsbWide` | pbbs/src/benchmarks/nearest_neighbor/chan05.rs:70-74 | the shifts stop at 16, so bit 40 alone leaves bit 0 clear |
| `Chan05.Highest` | pbbs/src/benchmarks/nearest_neighbor/chan05.rs:50-58 | the loop picks the first dimension whose difference has the highest msb, starting from `(0, 0)` |
| `Chan05.CmpShuffle` | pbbs/src/benchmarks/nearest_neighbor/chan05.rs:49-60 | the result is the lexicographic order of the interleaved keys, without building them |
| `Chan05.CmpShuffleIsLex` | pbbs/src/benchmarks/nearest_neighbor/chan05.rs:45-60 | comparing the chosen dimension agrees with comparing the bit-interleaved keys, dimension 0 first in each level |
| `Chan05.OrderAtTopDifference` | pbbs/src/benchmarks/nearest_neighbor/chan05.rs:54-59 | when some dimension differs, the dimension with the top differing bit decides the interleaved order |
| `Chan05.InterleaveInjective` | pbbs/src/benchmarks/nearest_neighbor/chan05.rs:45-48 | different points have different interleaved keys |
| `Chan05.CmpShuffleEqual` | pbbs/src/benchmarks/nearest_neighbor/chan05.rs:49-60 | `cmp_shuffle` is Equal iff the points are equal |
| `Chan05.CmpShuffleAntisymmetric` | pbbs/src/benchmarks/nearest_neighbor/chan05.rs:49-60 | swapping the arguments reverses the result |
| `Chan05.LowerBound` | pbbs/src/benchmarks/nearest_neighbor/chan05.rs:97 | `b & !box_size` is at most b |
| `Chan05.UpperBound` | pbbs/src/benchmarks/nearest_neighbor/chan05.rs:98 | for every b and box_size, `lower + box_size` equals `b OR box_size`, so it never wraps and is at least b |
| `Chan05.DistLoopWraps` | pbbs/src/benchmarks/nearest_neighbor/chan05.rs:95-104 | the accumulation loop is the exact sum of squared gaps reduced mod 2^64 |
| `Chan05.DistSqToBox` | pbbs/src/benchmarks/nearest_neighbor/chan05.rs:82-107 | the sum over dimensions of the squared gap from p to `[lower, lower + box_size]`, mod 2^64 |
| `Chan05.DistInsideIsZero` | pbbs/src/benchmarks/nearest_neighbor/chan05.rs:95-106 | a point inside the box in every dimension has distance 0 |
| `Chan05.SameLowerBound` | pbbs/src/benchmarks/nearest_neighbor/chan05.rs:86-97 | for coordinates below 2^32, both box endpoints share the bits above the box size in every dimension |
| `Chan05.EndpointsInsideBox` | pbbs/src/benchmarks/nearest_neighbor/chan05.rs:77-104 | for coordinates below 2^32, where `set_below_msb` spreads the top bit all the way down, either endpoint of the box is at distance 0 |
| `Chan05.BoxFits` | pbbs/src/benchmarks/nearest_neighbor/chan05.rs:86-93 | with coordinates below 2^30 the box size is below 2^30 |
| `Chan05.SumBound` | pbbs/src/benchmarks/nearest_neighbor/chan05.rs:95-104 | with coordinates below 2^30 each dimension adds at most 2^60 |
| `Chan05.DistNeverWraps` | pbbs/src/benchmarks/nearest_neighbor/chan05.rs:95-104 | for D = 2 or 3 (coordinates below 2^30), the sum never wraps |
| `QuickHull.PickedAppend` | pbbs/src/benchmarks/convex_hull/sequential.rs:3-7 | the bag of matching elements of a concatenation is the sum of the bags |
| `QuickHull.RightCountBound` | pbbs/src/benchmarks/convex_hull/sequential.rs:26-28 | if some element fails the right criterion, the right-matching elements already consumed are fewer than the slice length |
| `QuickHull.RoomAtBack` | pbbs/src/benchmarks/convex_hull/sequential.rs:26-28 | under that condition `rr` never underflows when a right element is moved back |
| `QuickHull.Start` | pbbs/src/benchmarks/convex_hull/sequential.rs:13-16 | the initial cursors satisfy the partition invariant |
| `QuickHull.StepFront` | pbbs/src/benchmarks/convex_hull/sequential.rs:19-23 | one step of the front scan keeps the partition invariant |
| `QuickHull.ScanFront` | pbbs/src/benchmarks/convex_hull/sequential.rs:18-24 | the front scan keeps the invariant and stops at a right element or the meeting point |
| `QuickHull.StepBack` | pbbs/src/benchmarks/convex_hull/sequential.rs:26-31 | one step of the back scan keeps the invariant |
| `QuickHull.ScanBack` | pbbs/src/benchmarks/convex_hull/sequential.rs:25-32 | the back scan keeps the invariant and stops at a left element or the meeting point |
| `QuickHull.Exchange` | pbbs/src/benchmarks/convex_hull/sequential.rs:36-42 | swapping the stuck right and left elements into the outer segments keeps the invariant |
| `QuickHull.Meet` | pbbs/src/benchmarks/convex_hull/sequential.rs:33-35 | when the scans stop within one slot of each other they have met |
| `QuickHull.SplitFrom` | pbbs/src/benchmarks/convex_hull/sequential.rs:17-43 | the outer loop ends with the middle consumed and the invariant intact |
| `QuickHull.ExchangeFrom` | pbbs/src/benchmarks/convex_hull/sequential.rs:36-43 | the exchange then the next round ends with the invariant intact |
| `QuickHull.Finish` | pbbs/src/benchmarks/convex_hull/sequential.rs:44 | at the end the prefix `ll` holds exactly the left bag and the last `r` entries exactly the right bag |
| `QuickHull.SplitWith` | pbbs/src/benchmarks/convex_hull/sequential.rs:13-44 | `ll + r <= len`, the prefix is all left, the suffix all right, and each is a permutation of the original matching elements |
| `QuickHull.Split` | pbbs/src/benchmarks/convex_hull/sequential.rs:8-45 | the same for a non-empty slice with exclusive criteria and one element that is not right |
| `Djb2.StepIsMultiplyAdd` | pbbs/src/benchmarks/inverted_index/index_parallel.rs:19 | `((h << 5) + h) + c` with wrap-around is `33h + c` mod 2^64 |
| `Djb2.HashFromAppend` | pbbs/src/benchmarks/inverted_index/index_parallel.rs:18-20 | hashing in two pieces from the intermediate state equals hashing the whole |
| `Djb2.HashChar` | pbbs/src/benchmarks/inverted_index/index_parallel.rs:15-22 | the byte hash is the djb2 recurrence from 5381, so an empty slice gives 5381 |
| `Djb2.Codes` | pbbs/src/benchmarks/inverted_index/index_parallel.rs:27-28 | `char as usize` gives code points that are all below 128 exactly for an ASCII string, and then they are the string's UTF-8 bytes |
| `Djb2.HashStr` | pbbs/src/benchmarks/inverted_index/index_parallel.rs:24-31 | the string hash runs over code points, and for an ASCII string equals the byte hash of its bytes |
| `Djb2.Default` | pbbs/src/benchmarks/word_counts/wc_serial.rs:12-16 | a fresh hasher hashes any bytes written to it as djb2 from 5381 |
| `Djb2.Write` | pbbs/src/benchmarks/word_counts/wc_serial.rs:18-28 | what `finish` returns after `write` is the recurrence continued from what it returned before, over the bytes |
| `Djb2.HashPieces` | pbbs/src/benchmarks/word_counts/wc_serial.rs:12-30 | `default`, then `write` of any number of pieces, then `finish` gives the djb2 hash of all the bytes from 5381, the value `djb2_hash_char` computes |
| `Ascii.ToLower` | pbbs/src/benchmarks/inverted_index/index_serial.rs:60-63 | lower-casing keeps letters letters and other characters unchanged, and yields lower case for letters |
| `Ascii.AsciiRoundTrip` | pbbs/src/benchmarks/inverted_index/index_parallel.rs:39 | `as_bytes` of an ASCII string gives bytes below 128 that decode back to the string, and every byte string below 128 is the encoding of its decoding |
| `Ascii.Utf8LenAscii` | pbbs/src/benchmarks/inverted_index/index_serial.rs:27 | `doc_start.len()`, the UTF-8 byte length, equals the character count iff the string is ASCII |
| `LetterRuns.LetterWordsAreRuns` | pbbs/src/benchmarks/inverted_index/index_serial.rs:45-75 | the words of a text are its maximal ASCII-letter runs, lower-cased, and every such run appears |
| `LetterRuns.LetterWordsLower` | pbbs/src/benchmarks/inverted_index/index_serial.rs:60-63 | every word is non-empty and lower case |
| `IndexSerial.SearchFrom` | pbbs/src/benchmarks/inverted_index/index_serial.rs:15-20 | the loop returns the first match at or after i, or the input length if there is none |
| `IndexSerial.Search` | pbbs/src/benchmarks/inverted_index/index_serial.rs:7-21 | `Some(0)` for an empty delimiter; `None` when it is longer than the input; otherwise the first match, or the input length as sentinel |
| `IndexSerial.SearchOrEnd` | pbbs/src/benchmarks/inverted_index/index_serial.rs:5-6 | the `std::search` the comment names: the first match, or the end |
| `IndexSerial.MatchInSuffix` | pbbs/src/benchmarks/inverted_index/index_serial.rs:43 | a match in `s[b..]` at k is a match in s at b + k |
| `IndexSerial.DocsFromStep` | pbbs/src/benchmarks/inverted_index/index_serial.rs:39-79 | one round of the corrected document loop emits the body up to the next delimiter and resumes there |
| `IndexSerial.NextMatch` | pbbs/src/benchmarks/inverted_index/index_serial.rs:43 | `search(&s[b..], ..).unwrap() + b` is `None` (the panic) exactly when fewer characters than the delimiter's remain, and otherwise the next match at or after b, or the end |
| `IndexSerial.AsWrittenStep` | pbbs/src/benchmarks/inverted_index/index_serial.rs:27-43 | one round as written, skipping m = the delimiter's byte length: it panics when fewer than m plus the delimiter's characters remain after the match, and otherwise records the body from the match plus m up to the next match and resumes there |
| `IndexSerial.AsWrittenBodies` | pbbs/src/benchmarks/inverted_index/index_serial.rs:27-79 | for any byte length m, every body the loop as written records starts m characters after a match, holds no match, and ends at a match or the end of the text |
| `IndexSerial.DocsFromAsWrittenAgrees` | pbbs/src/benchmarks/inverted_index/index_serial.rs:39-79 | when m equals the delimiter's character count, the loop as written either matches the corrected loop, or panics exactly when the last body is shorter than the delimiter |
| `IndexSerial.AsWrittenPanics` | pbbs/src/benchmarks/inverted_index/index_serial.rs:27-43 | for an ASCII delimiter, `build_index` panics iff the text is shorter than the delimiter or the last document body is, and otherwise finds the corrected documents |
| `IndexSerial.ShortLastBody` | pbbs/src/benchmarks/inverted_index/index_serial.rs:43 | the text "abx" with delimiter "ab" panics as written but has one document |
| `IndexSerial.NonAsciiDelimiter` | pbbs/src/benchmarks/inverted_index/index_serial.rs:27-43 | with the two-byte delimiter "é", the text "éab" gives the body "b" as written and "ab" corrected; "aéb" panics as written and has the body "b" corrected |
| `IndexSerial.DocsFromEnds` | pbbs/src/benchmarks/inverted_index/index_serial.rs:39-79 | the loop yields documents iff it starts before the end; the first body follows the delimiter and the last ends at the text's end |
| `IndexSerial.DocsFromBodies` | pbbs/src/benchmarks/inverted_index/index_serial.rs:43 | every body is preceded by a delimiter and holds no delimiter match |
| `IndexSerial.DocsFromChain` | pbbs/src/benchmarks/inverted_index/index_serial.rs:43-77 | each body ends where the next delimiter starts |
| `IndexSerial.DocumentsTile` | pbbs/src/benchmarks/inverted_index/index_serial.rs:33-79 | no documents iff no delimiter occurs; otherwise they begin after the first delimiter, are delimiter-free, chain, and the last ends at the end |
| `IndexSerial.SkipNonLetters` | pbbs/src/benchmarks/inverted_index/index_serial.rs:46-50 | skips to the next letter or the end without changing the runs still ahead |
| `IndexSerial.FindRunEnd` | pbbs/src/benchmarks/inverted_index/index_serial.rs:52-58 | the `position(...).unwrap_or(len)` search finds the end of the letter run |
| `IndexSerial.DocWords` | pbbs/src/benchmarks/inverted_index/index_serial.rs:45-75 | the token loop yields the body's words: its maximal letter runs, lower-cased, in order |
| `IndexSerial.DocsWithSpec` | pbbs/src/benchmarks/inverted_index/index_serial.rs:65-68 | the documents containing a word, strictly increasing, with d listed iff document d contains it |
| `IndexSerial.AddWordIds` | pbbs/src/benchmarks/inverted_index/index_serial.rs:65-68 | `entry().or_default()` then push-unless-contained changes only that word's list, appending d when it is new |
| `IndexSerial.AddWordKeys` | pbbs/src/benchmarks/inverted_index/index_serial.rs:65-68 | the map keeps distinct keys and gains the word |
| `IndexSerial.AddDocIds` | pbbs/src/benchmarks/inverted_index/index_serial.rs:52-75 | after a document's words, each word's list gains d iff the document contains it |
| `IndexSerial.AddDocKeys` | pbbs/src/benchmarks/inverted_index/index_serial.rs:52-75 | the keys gain exactly the document's words |
| `IndexSerial.GroupIds` | pbbs/src/benchmarks/inverted_index/index_serial.rs:37-79 | the list kept for a word is the reference list of documents containing it |
| `IndexSerial.GroupKeys` | pbbs/src/benchmarks/inverted_index/index_serial.rs:37-79 | the keys are distinct and are exactly the words of all documents |
| `IndexSerial.IdsEntry` | pbbs/src/benchmarks/inverted_index/index_serial.rs:88 | `words.get(word)` of a listed key returns that key's entry |
| `IndexSerial.LexIrreflexive` | pbbs/src/benchmarks/inverted_index/index_serial.rs:82-83 | the `Vec<char>` order is irreflexive |
| `IndexSerial.LexTransitive` | pbbs/src/benchmarks/inverted_index/index_serial.rs:82-83 | the `Vec<char>` order is transitive |
| `IndexSerial.LexTotal` | pbbs/src/benchmarks/inverted_index/index_serial.rs:82-83 | distinct words are comparable |
| `IndexSerial.InsertEntryMultiset` | pbbs/src/benchmarks/inverted_index/index_serial.rs:83 | insertion adds the entry and loses nothing |
| `IndexSerial.InsertEntryBelow` | pbbs/src/benchmarks/inverted_index/index_serial.rs:83 | insertion keeps a lower bound of all keys |
| `IndexSerial.InsertEntrySorted` | pbbs/src/benchmarks/inverted_index/index_serial.rs:83 | inserting a new key into a sorted list keeps it sorted |
| `AssocLists.KeysOfPermutation` | pbbs/src/benchmarks/inverted_index/index_serial.rs:82-83 | reordering the entries keeps the set of keys, and keeps distinct keys distinct |
| `IndexSerial.SortEntriesSpec` | pbbs/src/benchmarks/inverted_index/index_serial.rs:82-83 | sorting distinct keys gives a strictly ascending permutation of the entries |
| `IndexSerial.Decimal` | pbbs/src/benchmarks/inverted_index/index_serial.rs:89 | `to_string` of an id is non-empty, all digits, with a leading zero only for 0 |
| `IndexSerial.DecimalRoundTrip` | pbbs/src/benchmarks/inverted_index/index_serial.rs:89 | the printed id parses back to the id |
| `IndexSerial.JoinIdsChars` | pbbs/src/benchmarks/inverted_index/index_serial.rs:88-93 | the id list prints as digits and blanks only |
| `IndexSerial.JoinIdsRoundTrip` | pbbs/src/benchmarks/inverted_index/index_serial.rs:88-93 | ids separated by single blanks, with no trailing blank, parse back to the list |
| `IndexSerial.LineEnd` | pbbs/src/benchmarks/inverted_index/index_serial.rs:85-94 | a line's only newline is its last character |
| `IndexSerial.LineRoundTrip` | pbbs/src/benchmarks/inverted_index/index_serial.rs:85-94 | `word ' ' ids` parses back to the entry |
| `IndexSerial.ParseIndexStep` | pbbs/src/benchmarks/inverted_index/index_serial.rs:85-95 | the parser takes one line per newline |
| `IndexSerial.FormatRoundTrip` | pbbs/src/benchmarks/inverted_index/index_serial.rs:85-95 | the whole output parses back to the sorted entries |
| `IndexSerial.AppendIds` | pbbs/src/benchmarks/inverted_index/index_serial.rs:88-93 | the id loop appends the blank-separated ids to `result` |
| `IndexSerial.AppendIndex` | pbbs/src/benchmarks/inverted_index/index_serial.rs:85-95 | the formatting loop appends one line per entry to `result` |
| `IndexSerial.IndexDocuments` | pbbs/src/benchmarks/inverted_index/index_serial.rs:37-79 | the map after all documents has distinct keys and, for every word, the increasing list of documents containing it |
| `IndexSerial.GroupEntry` | pbbs/src/benchmarks/inverted_index/index_serial.rs:65-68 | every entry's list is non-empty, strictly increasing and exact, and its word is lower case |
| `IndexSerial.IndexEntriesSpec` | pbbs/src/benchmarks/inverted_index/index_serial.rs:82-95 | the printed entries are sorted by word, keyed by exactly the words of the text, each with the exact increasing document list |
| `IndexSerial.BuildIndex` | pbbs/src/benchmarks/inverted_index/index_serial.rs:23-97 | `result` is kept as a prefix and followed by exactly the formatted index entries, the appended text parses back to those entries, and nothing is appended when the delimiter never occurs |
| `IndexParallel.ProbeFromSpec` | pbbs/src/benchmarks/inverted_index/index_parallel.rs:46-50 | the inner loop keeps i iff the delimiter matches at i, and reads past the end iff a partial match runs off the end |
| `IndexParallel.ProbeSpec` | pbbs/src/benchmarks/inverted_index/index_parallel.rs:45-52 | the same for the probe from position 0 of the delimiter |
| `IndexParallel.MatchesFromSpec` | pbbs/src/benchmarks/inverted_index/index_parallel.rs:42-53 | the reference list is increasing and holds exactly the match positions |
| `IndexParallel.StartsFromSpec` | pbbs/src/benchmarks/inverted_index/index_parallel.rs:42-53 | the filter panics iff some partial match runs off the end, and otherwise yields the reference list |
| `IndexParallel.StartsSpec` | pbbs/src/benchmarks/inverted_index/index_parallel.rs:42-53 | `starts` is the increasing list of all positions where the delimiter occurs, or a panic exactly on a partial match at the end |
| `IndexParallel.PartialMatchPanics` | pbbs/src/benchmarks/inverted_index/index_parallel.rs:46-47 | the text `[1,2,1]` with delimiter `[1,2]` reads past the end, while the bounds-checked version finds `[0]` |
| `IndexParallel.StartsGuardedSpec` | pbbs/src/benchmarks/inverted_index/index_parallel.rs:42-53 | the bounds-checked filter lists exactly the match positions, in order, and every position for an empty delimiter |
| `IndexParallel.EveryPositionMatches` | pbbs/src/benchmarks/inverted_index/index_parallel.rs:46 | an empty delimiter matches at every position |
| `IndexParallel.DocRangesFail` | pbbs/src/benchmarks/inverted_index/index_parallel.rs:61-69 | the slice `s[start..end]` panics iff two consecutive starts are closer than the delimiter length |
| `IndexParallel.DocRangesShape` | pbbs/src/benchmarks/inverted_index/index_parallel.rs:58-66 | document k spans from `starts[k] + m` to the next start, or to n for the last one |
| `IndexParallel.NoMatchBetween` | pbbs/src/benchmarks/inverted_index/index_parallel.rs:42-53 | no match lies strictly between consecutive starts |
| `IndexParallel.DocRangesOverlap` | pbbs/src/benchmarks/inverted_index/index_parallel.rs:58-69 | on real starts, the ranges fail iff two delimiter occurrences overlap |
| `IndexParallel.DocRangesTile` | pbbs/src/benchmarks/inverted_index/index_parallel.rs:58-66 | each body follows a delimiter occurrence, ends at the next one, and the last ends at n |
| `IndexParallel.DocBodiesHoldNoMatch` | pbbs/src/benchmarks/inverted_index/index_parallel.rs:58-66 | no body contains a delimiter occurrence |
| `IndexParallel.DocumentRangesSpec` | pbbs/src/benchmarks/inverted_index/index_parallel.rs:42-69 | the document ranges fail on a partial match at the end and are the bounds-checked ranges otherwise |
| `IndexParallel.NormalizeByte` | pbbs/src/benchmarks/inverted_index/index_parallel.rs:71-79 | a byte becomes non-zero iff it is a letter, and then its lower-case form |
| `IndexParallel.NormalizedRun` | pbbs/src/benchmarks/inverted_index/index_parallel.rs:69-80 | on a run of letters normalisation is lower-casing |
| `IndexParallel.DocTokensAreLetterWords` | pbbs/src/benchmarks/inverted_index/index_parallel.rs:69-83 | a body's tokens are the same words, in the same order, as the serial index finds |
| `WordCounts.NormalizeChar` | pbbs/src/benchmarks/word_counts/wc_serial.rs:44-52 | letters become lower case and every other character a blank |
| `WordCounts.Normalize` | pbbs/src/benchmarks/word_counts/wc_serial.rs:42-53 | the normalised text keeps the length, with whitespace exactly where the input has no letter |
| `WordCounts.NormalizedLetters` | pbbs/src/benchmarks/word_counts/wc_serial.rs:42-53 | on a run of letters the normalised text is the lower-cased text |
| `WordCounts.TokensAreLetterWords` | pbbs/src/benchmarks/word_counts/wc_serial.rs:56-57 | the whitespace tokens are the input's maximal letter runs, lower-cased, in order |
| `WordCounts.BumpKeys` | pbbs/src/benchmarks/word_counts/wc_serial.rs:66-71 | the entry update keeps keys distinct and adds the token |
| `WordCounts.BumpLookup` | pbbs/src/benchmarks/word_counts/wc_serial.rs:66-71 | the token's count goes up by one and no other count changes |
| `WordCounts.BumpTotal` | pbbs/src/benchmarks/word_counts/wc_serial.rs:66-71 | the sum of counts goes up by one |
| `WordCounts.CountTokens` | pbbs/src/benchmarks/word_counts/wc_serial.rs:66-76 | one pair per distinct token, each count its number of occurrences and at least 1, and the counts sum to the token count |
| `WordCounts.WordCountsOf` | pbbs/src/benchmarks/word_counts/wc_serial.rs:32-78 | `result` is cleared, then holds one pair per distinct word of the text with its exact count |

## Left out

- Parallel scheduling is not modelled: rayon, `par_chunks`, `par_ind_chunks_mut`, `with_gran` and `with_min_len`. Each parallel loop is a sequential loop over the same blocks, and the block size is a parameter of at least 1, in place of `_BLOCK_SIZE * 10`.
- The `sequence_ops` module is not part of this model. `scan_inplace`, `num_blocks`, `sum_bool_serial` and `block_delayed_scan` are stated by contract (`SequenceOps`, `Tokens.BlockDelayedScan`).
- The unsafe memory mechanics of the non-copy pack (`set_len`, `ptr::copy`) are a write-once sequence of optional cells.
- Pack.PackSerial: requires a non-empty source, because the source fills the buffer with `arr_f(0)`; `pack` handles the empty case itself.
- Pack.PackHelper: requires a non-empty source, for the same reason.
- Pack.Pack: requires flags no longer than a non-empty `arr`. The source panics on a true flag past the end of `arr`, and it accepts extra flags that are all false, which the model excludes.
- NcPack.NcPack: requires flags no longer than a non-empty `arr`, for the same reason.
- Pack.PackIndex: `T::from` is a bound `maxValue` on the result type, and its panic is an error value. The debug assertion on empty flags is the error InvalidArgument. What release builds do on empty flags depends on `num_blocks(0, ..)`, which is not part of this model.
- Chan05.SetBelowMsb: the exact value `2^(msb+1) - 1` is proved only below 2^32. Callers only use D = 2 or 3, where coordinates stay below 2^30; `SetBelowMsbWide` shows the limit.
- Chan05.SameLowerBound: proved only for coordinates below 2^32. `set_below_msb` spreads the top bit only 31 places down, so wider coordinates can leave low differing bits outside the box size, and the lower bounds then differ.
- Chan05.DistNeverWraps: proved for D ≤ 3 and coordinates below 2^30, the range `knn` uses. `DistSqToBox` states the wrapped sum for all inputs; debug-mode overflow panics are not modelled.
- Djb2: the hashes wrap modulo 2^64 as in release builds. Debug-build overflow panics in `((hash << 5) + hash) + c` are not modelled.
- `convert`, `check_dist`, `sss_query`, `knn` and all of `geometry.rs` are float code and are left out, as are `serial_quick_hull` and `hull`, which rest on float `tri_area`.
- QuickHull.Split: requires an element that fails the right criterion. If every element is right, `rr -= 1` underflows, which panics in debug builds. The cursors `rm` and `rr` are `rm + 1` and `rr + 1` as naturals, so the `wrapping_sub` to -1 is the value 0.
- IndexSerial.BuildIndex: requires a non-empty delimiter. With an empty one, `search` returns `Some(0)` for every suffix and the source loops forever.
- IndexSerial.BuildIndex: models the corrected document loop (see Findings), which moves past a delimiter by its character count. The loop as written is `DocumentsAsWritten`, which moves by the UTF-8 byte count; `AsWrittenPanics` says exactly when the two differ for ASCII delimiters such as the `"<doc"` the benchmark driver passes.
- IndexSerial.AsWrittenPanics: the exact panic condition is stated for ASCII delimiters only. For other delimiters `AsWrittenBodies` states where the bodies lie, and `NonAsciiDelimiter` shows both ways the loop as written departs from the corrected one.
- IndexSerial.DocsFromAsWrittenAgrees: stated for a skip equal to the delimiter's character count, which is the byte count exactly for ASCII delimiters (`Ascii.Utf8LenAscii`).
- IndexSerial.BuildIndex: document ids are unbounded naturals. The source's `u32` ids would wrap after 2^32 documents.
- IndexSerial.BuildIndex: the output is stated exactly as `FormatIndex` of the sorted entries, and also through its parser (`ParseIndex`), which is proved to invert the format (`FormatRoundTrip`).
- The document loop and the search loop are recursive functions rather than `while` loops. Their step lemmas tie each recursion step to one loop round.
- IndexParallel: after the tokens, `build_index` groups with `histogram_by_key` and `group_by_key`, sorts and formats. Those helpers are not part of this model, so lines 86-148 are left out. The per-document tokens are proved equal to the serial word lists.
- IndexParallel.DocBodiesHoldNoMatch: requires a non-empty delimiter. With an empty one every position matches and bodies are empty.
- `HashMap` iteration order, and the `0xff` suffix that `Hash for str` feeds the hasher, are not modelled. Counts are stated per key and by sum, which do not depend on order.
- `wc_histogram.rs` is left out. Its hash closure parses as `hash << (5 + hash)`, a shift that overflows.
- `Timer` calls and all `*_time.rs` drivers are I/O and timing, and are left out.

## Findings

| source | as written | input that shows it | evidently intended | confidence | as-written member | corrected member |
|---|---|---|---|---|---|---|
| pbbs/src/benchmarks/inverted_index/index_serial.rs:43 | `search(&s[doc_begin + m..], ..).unwrap()` panics when the last document's body is shorter than the delimiter, because `search` returns `None` there (lines 11-13) | text "abx", delimiter "ab": the body "x" is shorter than "ab" | `std::search` semantics, which the comment cites: no match means the end, so the last document runs to the end of the text | not executed | `IndexSerial.ShortLastBody` | `IndexSerial.DocumentsTile` |
| pbbs/src/benchmarks/inverted_index/index_serial.rs:27-46 | `m = doc_start.len()` is the delimiter's length in UTF-8 bytes, but the text is a `Vec<char>` searched by characters (line 34), so the loop skips `m` characters after each delimiter | delimiter "é" (two bytes, one character): text "éab" gives the body "b" instead of "ab"; text "aéb" panics on `search` of the empty rest | skip the delimiter's character count, `doc_start_vec.len()` | not executed | `IndexSerial.NonAsciiDelimiter` | `IndexSerial.DocumentsTile` |
| pbbs/src/benchmarks/inverted_index/index_parallel.rs:46-47 | the start filter reads `s[i + j]` without a bounds check, so a delimiter prefix near the end of the text indexes out of bounds | text `[1,2,1]`, delimiter `[1,2]`: at i = 2, `s[3]` is read | positions whose remaining text is shorter than the delimiter are skipped, since they cannot start a document | not executed | `IndexParallel.PartialMatchPanics` | `IndexParallel.StartsGuardedSpec` |
