# Huffman codec of compress.cpp, modelled in Dafny

This project models the `Huffman` class of `compress.cpp` and the
`HuffmanNode` record it uses. The model follows the C++ code as written:

- `encode` counts the bytes of a message.
- It seeds a `std::priority_queue<HuffmanNode>` with a copy of one leaf per
  distinct byte.
- It merges the two least entries until one entry is left.
- It reads each byte's code off the parent links of the leaf recorded in
  `base_nodes`.
- It translates the message into a `'0'`/`'1'` string and packs that string
  8 characters at a time with `std::bitset<8>`.
- It emits `[table length mod 256][serialised table][packed bits]`.
- `decode` parses the table inline, expands every remaining byte into 8
  characters, and scans the characters greedily against the table.

Modules, one per stage:

| file | module | stage |
|---|---|---|
| `bytes.dfy` | `Bytes` | bytes, 8-bit `char`, code tables, ascending `std::map` order |
| `translation_table.dfy` | `TranslationTable` | `encode_translation_table`, `decode_translation_table`, `decode`'s inline table parse |
| `huffman_tree.dfy` | `HuffmanTree` | `HuffmanNode`, counting, the queue, merging, walking parent links |
| `bit_packing.dfy` | `BitPacking` | `std::bitset<8>` packing and `to_string` expansion |
| `greedy_scan.dfy` | `GreedyScan` | the bit-by-bit exact-match scan of `decode` |
| `huffman.dfy` | `Huffman` | `encode` and `decode` assembled from the stages |

The stages are methods with loops, each proved against a specification
function, and the properties are lemmas about those functions.
`HuffmanNode` is a class whose `parent` field the merge loop assigns. The
queue holds `NodeCopy` values, because `pq.push(*node)` stores a copy.

The model shows this outcome:

- The merge loop links only nodes it has just allocated.
- The leaves in `base_nodes` therefore never get a parent, and every code
  is the empty string.
- `Encode` returns the serialised table of empty codes and no body.
- `decode` of that container returns the empty message
  (`AsWrittenLosesMessage`).
- For code tables that are prefix-free, binary, short and of a whole number
  of bytes, the container does decode back to the message
  (`PrefixFreeRoundTrip`).

Measured against what a Huffman codec does, the code differs in four
places, and the model follows the code in each:

- **Codes.** A Huffman codec gives every symbol a non-empty prefix-free
  code. This code gives every symbol the empty code, because `pq` holds
  copies and the leaves in `base_nodes` are never linked to a parent.
- **Short final group.** `std::bitset<8>` puts a short final group in the
  low-order bits, so after unpacking the padding zeros come in front of
  the group rather than after it (`UnpackPackPartial`).
- **Over-long tables and codes.** A table of 256 bytes or more, and a code
  of 256 characters or more, cannot be represented in the one-byte length
  fields; the code writes both lengths mod 256 without complaint.
- **Single distinct byte.** With only one distinct byte the tree is a
  single leaf, and the code gives that case no special treatment, so the
  byte's code is empty here too.

## Model

| member | source | states |
|---|---|---|
| HuffmanTree.HuffmanNode.constructor | compress.cpp:17-18 | a new node holds the given name, value, tag and parent |
| HuffmanTree.TopIsLeast | compress.cpp:20-23 | under the inverted `operator<`, an entry can be the queue's top exactly when no entry has a smaller value |
| HuffmanTree.TopIndex | compress.cpp:82-85 | a non-empty queue has a top entry |
| HuffmanTree.PopTop | compress.cpp:82-85 | `top()` then `pop()` removes one entry of least value, keeps the others as a multiset, and lowers the sum of values by the popped value |
| HuffmanTree.LinkPair | compress.cpp:82-89 | after fresh left, right and internal nodes are allocated and linked, the pushed copy is `Merged` of the two popped entries |
| HuffmanTree.PopTwo | compress.cpp:83-89 | two pops and a push replace the two popped entries by the merged one in the multiset of entries |
| HuffmanTree.MergeStep | compress.cpp:80-90 | one iteration pops a least entry, then a least entry of the rest, pushes their merge, shrinks the queue by one and keeps the sum of values |
| HuffmanTree.MergeLoop | compress.cpp:80-90 | the loop ends with one entry for a non-empty queue and none for an empty one, with the starting sum of values; it changes no node that existed before it |
| HuffmanTree.RootValue | compress.cpp:80-90 | the single entry left holds the sum of the starting values |
| HuffmanTree.MapSumRemove | compress.cpp:68-71 | the sum of a count map does not depend on which key is taken first |
| HuffmanTree.MapSumIncrement | compress.cpp:70 | `counts[byte]++` raises the sum of the counts by one, whether or not the key existed |
| HuffmanTree.CountBytes | compress.cpp:68-71 | the keys are exactly the message's distinct bytes, each count is that byte's number of occurrences, and the counts add up to the message length |
| HuffmanTree.LeavesSum | compress.cpp:73-78 | the leaves pushed in ascending key order add up to the sum of the counts |
| HuffmanTree.SeedQueue | compress.cpp:73-78 | the queue holds the leaf copies in ascending key order; `base_nodes` maps every counted byte to a fresh leaf with that name and count and no parent |
| HuffmanTree.TagsOrder | compress.cpp:97-101 | character `j` of the tags collected along a path is the tag of the `j`-th node counted back from the path's end |
| HuffmanTree.ChainCodeShape | compress.cpp:95-101 | a code has one character per parent link, and its last character is the leaf's own tag |
| HuffmanTree.WalkToRoot | compress.cpp:95-101 | from a leaf whose parent links form a chain, prepending each tag while walking up yields exactly the code read off that chain, root end first |
| HuffmanTree.ExtractCodes | compress.cpp:92-103 | when every leaf of `base_nodes` has a parent chain, `translation` has exactly the keys of `base_nodes`, and each code is the one read off that leaf's chain |
| HuffmanTree.UnlinkedLeafCode | compress.cpp:96-102 | a leaf without a parent gets the empty code |
| Bytes.SortedKeys | compress.cpp:32 | iterating a `std::map` visits exactly the map's keys (each once and in ascending order by `SortedKeysAscending`) |
| Bytes.SortedKeysAscending | compress.cpp:156 | the keys are visited in strictly ascending order |
| Bytes.CharsRoundTrip | compress.cpp:55 | storing code characters as bytes and reading them back as characters gives the code back |
| TranslationTable.PushEntry | compress.cpp:34-39 | one entry appends the symbol, the code length mod 256, and one byte per code character |
| TranslationTable.EncodeTranslationTable | compress.cpp:29-42 | the output is the entries of every key in ascending key order |
| TranslationTable.EntriesLength | compress.cpp:32-40 | the serialised entries of a key list take 2 + the code length bytes per key |
| TranslationTable.TableBytesLength | compress.cpp:29-42 | the serialised table is 2 + the code length bytes per entry |
| TranslationTable.ParseEntries | compress.cpp:131-142 | the parse stops past `limit` without leaving the input, and keeps every key it started with |
| TranslationTable.DecodeTranslationTable | compress.cpp:44-60 | the loop reads entries while the index is inside the input, and returns the parsed table |
| TranslationTable.ParseHeader | compress.cpp:129-142 | `decode`'s inline loop reads entries from index 1 while the index is at most the header byte, and returns the table and the index where the body starts |
| TranslationTable.ParseShift | compress.cpp:131-142 | the parse does not depend on the bytes before or after the entries: moving them moves the stopping index and keeps the table |
| TranslationTable.InsertedLookup | compress.cpp:57 | after inserting keys one after another, a later entry for a key replaces an earlier one and the other keys are untouched |
| TranslationTable.InsertedAll | compress.cpp:57 | inserting every key of a table into an empty table rebuilds it |
| TranslationTable.ParseEntryThenRest | compress.cpp:48-57 | parsing one serialised entry followed by other entries inserts that entry, then parses the rest |
| TranslationTable.EntriesRoundTrip | compress.cpp:29-60 | parsing the serialised entries of a key list inserts every key's code in order |
| TranslationTable.TableRoundTrip | compress.cpp:29-60 | `decode_translation_table(encode_translation_table(t)) == t` when every code is shorter than 256 characters |
| TranslationTable.HeaderParseAgrees | compress.cpp:129-142 | when the header byte is the serialised table's length, `decode`'s inline parse yields the same table as `decode_translation_table` and stops exactly at the table's end |
| BitPacking.BitsValue | compress.cpp:114-115 | a string of n digits read as a binary number is below 2^n |
| BitPacking.PackBits | compress.cpp:111-116 | packing n characters yields ceil(n/8) bytes |
| BitPacking.PackStep | compress.cpp:112-115 | packing from index i is the group at i followed by packing from i + 8 |
| BitPacking.Pack | compress.cpp:111-116 | the packing loop yields one byte per group of 8 characters and one for a shorter final group |
| BitPacking.PackBitsGroup | compress.cpp:112-115 | byte i is the value of characters 8i up to 8i + 8, or up to the end for a short final group |
| BitPacking.FirstCharIsMostSignificant | compress.cpp:114 | a group's first character is its most significant bit |
| BitPacking.ToBits | compress.cpp:147-148 | `to_string` writes exactly n characters |
| BitPacking.UnpackBytes | compress.cpp:145-149 | expansion yields exactly 8 characters per byte |
| BitPacking.Unpack | compress.cpp:144-149 | the expansion loop yields the 8-character strings of every byte from the body's start on |
| BitPacking.ToBitsBinary | compress.cpp:148 | `to_string` writes only `'0'` and `'1'` |
| BitPacking.UnpackBinary | compress.cpp:145-149 | the expanded string is binary |
| BitPacking.ZerosValue | compress.cpp:147-148 | the value 0 expands to n zeros |
| BitPacking.ToBitsOfValue | compress.cpp:114-148 | expanding the value of a group of r <= n digits to n digits gives n - r zeros followed by the group |
| BitPacking.HalveValue | compress.cpp:114 | dropping a group's last digit halves its value, and that digit is the remainder |
| BitPacking.GroupUnpacks | compress.cpp:114-148 | a packed group expands to itself behind 8 - r zeros |
| BitPacking.UnpackPackPadded | compress.cpp:111-149 | unpacking packed bits gives every full group unchanged and the final short group behind its padding zeros |
| BitPacking.PaddedWhole | compress.cpp:111-149 | with a whole number of groups there is no padding |
| BitPacking.PaddedSplit | compress.cpp:111-149 | with a short final group, the padding zeros come just before it |
| BitPacking.UnpackPackWhole | compress.cpp:111-149 | unpacking what was packed returns the string when its length is a multiple of 8 |
| BitPacking.UnpackPackPartial | compress.cpp:111-149 | otherwise the short final group comes back with its padding zeros in front of it |
| BitPacking.BitsValueOfToBits | compress.cpp:114-148 | reading back the n digits of a value below 2^n gives the value |
| BitPacking.PackUnpack | compress.cpp:111-149 | packing the expansion of bytes returns the bytes |
| GreedyScan.FirstMatch | compress.cpp:156-163 | the search returns a key whose code equals the candidate, or reports that no key in the list has it |
| GreedyScan.MatchMeaning | compress.cpp:156-163 | a hit is a symbol with the candidate as its code; a miss means no symbol has that code |
| GreedyScan.FirstMatchIsSmallest | compress.cpp:156-163 | on an ascending key list the search returns the smallest key with the candidate as code |
| GreedyScan.MatchIsSmallest | compress.cpp:156-163 | when several symbols share a code, the smallest wins |
| GreedyScan.ScanAppend | compress.cpp:153-164 | reading one bit appends it to the candidate; on a hit the symbol is emitted and the candidate reset |
| GreedyScan.Scan | compress.cpp:151-165 | the scan loop returns the symbols emitted by the bit-by-bit scan |
| GreedyScan.ScanEmitsKeys | compress.cpp:151-165 | every emitted symbol is a table key with a non-empty code |
| GreedyScan.PendingIsSuffix | compress.cpp:151-165 | the pending candidate is a suffix of the bits read |
| GreedyScan.PendingSinceLastHit | compress.cpp:151-165 | the pending candidate starts right after the last hit: the bits before it leave nothing pending and have emitted every symbol emitted so far |
| GreedyScan.EmptyCodesDecodeNothing | compress.cpp:151-165 | a table whose codes are all empty decodes nothing |
| GreedyScan.UnmatchedTailDropped | compress.cpp:151-165 | bits after the last hit that complete no code are dropped from the result |
| GreedyScan.CleanTailPending | compress.cpp:151-165 | from a clean state, bits that complete no code stay pending |
| GreedyScan.ProperPrefixesMiss | compress.cpp:156-163 | in a prefix-free table no proper prefix of a code matches |
| GreedyScan.OwnCodeMatches | compress.cpp:156-163 | in a prefix-free table a symbol's code finds that symbol |
| GreedyScan.CodeBodyPending | compress.cpp:151-165 | reading all but the last bit of a code emits nothing |
| GreedyScan.ScanOneCode | compress.cpp:151-165 | reading one symbol's code from a clean state emits exactly that symbol and leaves a clean state |
| GreedyScan.ScanConcat | compress.cpp:151-165 | with a prefix-free table, scanning the concatenated codes of a message gives back the message with nothing pending |
| Huffman.Translate | compress.cpp:105-109 | the translation loop yields the message's codes one after the other and the table with the defaults inserted |
| Huffman.TranslateStep | compress.cpp:105-109 | translating one more byte appends that byte's code (empty when missing) and makes the byte a key |
| Huffman.TranslateComplete | compress.cpp:105-109 | when every byte has a code, nothing is inserted and the bits are the concatenated codes |
| Huffman.TranslateBinary | compress.cpp:105-109 | binary codes give a binary string |
| Huffman.TranslateEmptyCodes | compress.cpp:105-109 | a table of empty codes translates every message to no bits |
| Huffman.Container | compress.cpp:118-122 | the container is one header byte holding the table length mod 256, then the table, then ceil(n/8) body bytes |
| Huffman.EmptyCodesUnique | compress.cpp:92-103 | any table with those keys and only empty codes is that table |
| Huffman.BuildCodes | compress.cpp:64-103 | counting, seeding, merging and walking yield the table of empty codes; for a non-empty message the root's value is the message length |
| Huffman.Encode | compress.cpp:62-125 | `encode` returns the container of the empty-code table with no body |
| Huffman.Decode | compress.cpp:127-169 | `decode` returns the scan of the expanded body under the table parsed from the header; every output byte is a key of that table |
| Huffman.EmptyEntriesParse | compress.cpp:129-142 | entries with empty codes are read in bounds from any limit inside the input and yield only empty codes |
| Huffman.AsWrittenLosesMessage | compress.cpp:62-169 | every container `encode` produces can be read by `decode`, even when the header byte has wrapped, and decodes to the empty message |
| Huffman.EmptyMessage | compress.cpp:62-169 | `encode([]) == [0]` and `decode([0]) == []` |
| Huffman.ContainerParse | compress.cpp:118-142 | with a table under 256 bytes, `decode` reads the table back and finds the packed body right after it |
| Huffman.PrefixFreeRoundTrip | compress.cpp:105-165 | for prefix-free binary codes under 256 characters, a table under 256 bytes and a whole number of body bytes, decoding the container of a message gives the message |

## Left out

- `main` (compress.cpp:172-188) is not part of this model. It reads and writes files and asserts the round trip, which `AsWrittenLosesMessage` shows fails for every non-empty input.
- Deallocation is not modelled: the nodes allocated with `new` are never freed in the source, and Dafny objects are not freed either.
- Huffman.Decode: reading past the end of `encoded` is undefined behaviour in C++. The model requires `|encoded| >= 1` and that every entry the header announces lies inside the input (`EntriesFit`), instead of modelling an outcome.
- TranslationTable.DecodeTranslationTable: requires `EntriesFit` for the same reason.
- HuffmanTree.PopTop: which of several least entries `std::priority_queue` pops depends on its heap layout. The model pops some least entry and proves nothing about which.
- BitPacking.Pack: `std::bitset` throws on a character other than `'0'` or `'1'`, so the method requires a binary string. The tags are only ever `'0'` and `'1'`, so this cannot happen. `BitsValue` counts any other character as 0.
- HuffmanTree.CountBytes: counts and node values are unbounded integers, so the model does not capture `int` overflow for a byte occurring more than 2^31 - 1 times.
- Whether the code is optimal is not modelled, because the source asserts nothing about it.
- Conversions between `char` and `unsigned char` are identity on the 256 values. A `char` is modelled as a character below 256 whatever its signedness.
