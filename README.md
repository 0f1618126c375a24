# xrosslexiord core in Dafny

A model of two parts of the xrosslexiord crossword tooling, with proofs about them.

- **Puzzle grid access** (`puzzle.rs`). A puzzle has `rows`, `cols` and a flat row-major buffer `backing` of characters. The model covers two things:
  - cell access: read and write at flat index `cols*row + col`;
  - wordspan access: reading and writing a run of cells. An Across span is a contiguous slice. A Down span strides by `cols`.
- **Length-partitioned lexicon** (`lexicon.rs`). There is one prefix tree per word length `0..=n`. The tree for length `i` holds the ASCII-uppercased dictionary words whose length is exactly `i`. Lengths are `str::len`, which counts UTF-8 bytes, not characters. A query is looked up verbatim in the tree for its byte length. The model also covers the line filter of `load_dictionary`: trim each line, then drop any line that contains an apostrophe.

Files and modules:

- `grid.dfy`, module `Grid`. The value types `Orientation` and `WordspanAddress`. The source's `WordspanAddress::new` only fills the four fields, so the datatype constructor `WordspanAddress(...)` models it. The module also holds the read-only operations, as functions of the width `cols` and the cell contents:
  - `Read` models `read`;
  - `ReadSpan` models `read_wordspan`;
  - `Written` is the specification of what `write_wordspan` leaves in the buffer.
  - The number of rows plays no part in addressing. The source never reads `rows`.
- `puzzle.dfy`, module `Puzzles`. The class `Puzzle` has the fields `rows`, `cols` and `backing` (an array); all three are constant, and only the array's cells change. Its method `Write` updates one cell in place. Its method `WriteWordspan` writes a word with the source's loop: one cell per letter, with an `offset` that grows by 1 Across and by `cols` Down. The client method `WriteScenarios` replays the two write tests of the source (`PLATE` Across, `FAITH` Down) on the 5×5 `WRITE/AARON/GIANT/ESTER/REEDY` grid.
- `order.dfy`, module `LexOrder`. Lexicographic string order, and the fact that a strictly sorted sequence is determined by its elements.
- `trie.dfy`, module `Tries`. `radix_trie::Trie<String, ()>` is a foreign library, so it is modelled abstractly: a `Trie` is the strictly sorted sequence of its keys, and `Insert` is sorted insertion.
- `lexicon.dfy`, module `Lexicons`. It holds:
  - `AsciiUpper` and `Upper`;
  - `Utf8Len`, the byte length that partitions the words;
  - the specification `IndexKeys` of one index;
  - the methods `CompileNPrefixTree` and `Build`, with the source's loops;
  - the lookups `Contains` and `NDictionary`.
  - The dictionary is a `seq<string>` parameter in place of the global `DICTIONARY`.
- `dictionary.dfy`, module `Dictionary`. `Trim` (str::trim, Unicode White_Space), the filter `Kept`, and `LoadDictionary`, which is the loop of `load_dictionary` over lines already read.

What the code does not check or normalise:

- `read` and `write` do not check `col < cols` or `row < rows`. The only failure is an index past the end of `backing`.
  - Column 7 of row 0 on a width-5 grid is column 2 of row 1 (`Grid.ReadPastRowEnd`).
  - For the same reason, an Across span may run past the end of its row into the next row.
- `contains` does not uppercase its query. A query with a lowercase letter is never found (`Lexicons.LowercaseQueryNotFound`).
- `write_wordspan` writes `|word|` cells and never consults the address's `length`. A length mismatch is not an error: the word simply covers a different number of cells.
- Reading an empty Across span still needs its start square to be at most the buffer length, because the slice `start..start` is taken. Writing an empty word needs nothing.

The round trip "write a word, then read it back" needs the span's cells to be distinct. They are distinct in every puzzle whose buffer has `rows*cols` cells (`Grid.WellFormedSpansSeparated`). They are not distinct if the buffer is non-empty and `cols == 0`: then every cell of a Down span is one square, so the last letter written wins (`Grid.ZeroWidthDownSpanCollapses`). `Puzzle.Valid()` states the `rows*cols` shape, and `WriteWordspan` promises the round trip under it.

## Model

| member | source | states |
|---|---|---|
| `Grid.Read` | xrosslexiord/src/puzzle.rs:40-42 | Has no `ensures`. Its meaning is given by `Grid.ReadSpanVisitsLocales` (span letters are cell reads) and `Grid.ReadPastRowEnd` (the column is not checked). Its `requires` is the bounds panic of the indexing. |
| `Grid.ReadSpan` | xrosslexiord/src/puzzle.rs:52-64 | The result has length `a.length` and every cell it visits is in bounds. Its i-th letter is the cell at `cols*start_row + start_col + i*stride`, with stride 1 Across and `cols` Down. Across, the slice end must not pass the buffer end. Down, every visited cell must exist. |
| `Grid.ReadSpanVisitsLocales` | xrosslexiord/src/puzzle.rs:53-62 | Letter i of a span is the cell `read(start_row, start_col + i)` Across and `read(start_row + i, start_col)` Down. |
| `Grid.ReadPastRowEnd` | xrosslexiord/src/puzzle.rs:40-42 | The column is not bounds-checked: on a width-5 grid, `read(0, 7)` and `read(1, 2)` are both `backing[7]`. |
| `Grid.Written` | xrosslexiord/src/puzzle.rs:66-76 | Writing a word along a span keeps the buffer length. |
| `Grid.WrittenOffSpan` | xrosslexiord/src/puzzle.rs:66-76 | Every square that is not one of the word's `start + i*stride` squares keeps its old letter. |
| `Grid.WrittenOnSpan` | xrosslexiord/src/puzzle.rs:66-76 | When the span's squares are distinct, square `start + i*stride` holds letter `i` of the word. |
| `Grid.ReadSpanOfWritten` | xrosslexiord/src/puzzle.rs:113-130 | Round trip: take a readable span with distinct squares and a word of the address's length. After writing the word, the span is still readable and reads back as the word. |
| `Grid.WellFormedSpansSeparated` | xrosslexiord/src/puzzle.rs:32-36 | In a buffer of `rows*cols` cells, any in-bounds span of two or more squares has a positive stride, and its squares are pairwise distinct. |
| `Grid.ZeroWidthDownSpanCollapses` | xrosslexiord/src/puzzle.rs:66-76 | With `cols == 0`, a two-letter Down write hits one square twice. The span then reads back as the second letter twice. |
| `Grid.TestGridAcross` | xrosslexiord/src/puzzle.rs:99-104 | On the 5×5 test grid, Across at (0,0) with length 5 reads `WRITE`. |
| `Grid.TestGridDown` | xrosslexiord/src/puzzle.rs:106-111 | On the 5×5 test grid, Down at (0,1) with length 5 reads `RAISE`. |
| `Puzzles.Puzzle.constructor` | xrosslexiord/src/puzzle.rs:85-97 | A fresh buffer holding the given cells, with the given dimensions. The puzzle has the `rows*cols` shape exactly when the cell count is `rows*cols`. |
| `Puzzles.Puzzle.Write` | xrosslexiord/src/puzzle.rs:44-47 | Only `backing[cols*row + col]` changes, and it becomes the letter. That index must be inside `backing`. Dimensions and buffer length are unchanged. |
| `Puzzles.WriteScenarios` | xrosslexiord/src/puzzle.rs:113-130 | On the 5×5 test grid, writing `PLATE` Across at (0,0) and reading the span back gives `PLATE`. Writing `FAITH` Down at (0,4) and reading it back gives `FAITH`. |
| `Puzzles.Puzzle.WriteWordspan` | xrosslexiord/src/puzzle.rs:66-76 | The buffer becomes `Written(old buffer)`, and every square off the word's squares is unchanged. On a `rows*cols` puzzle, a readable span written with a word of its length reads back as that word. Every square written must exist. |
| `LexOrder.SortedUnique` | xrosslexiord/src/lexicon.rs:49-51 | Two strictly increasing key lists with the same elements are equal. So a trie's key listing is fixed by its key set. |
| `LexOrder.Less` | xrosslexiord/src/lexicon.rs:50 | Has no `ensures`. It is the order in which the trie lists its keys: a proper prefix comes first, otherwise the smaller character at the first difference. Comparing code points orders strings as Rust orders `String` bytes. Its meaning is given by `LexOrder.SortedUnique` and the irreflexive, transitive and total lemmas beside it. |
| `Tries.Trie.Has` | xrosslexiord/src/lexicon.rs:46 | Has no `ensures`. It is the lookup `get(&key).is_some()`: the key is among the trie's keys. Its meaning is given by `Tries.Insert`, `Lexicons.CompileNPrefixTree` and `Lexicons.ContainsIff`. |
| `Tries.Empty` | xrosslexiord/src/lexicon.rs:55 | A new trie has no keys. |
| `Tries.InsertKey` | xrosslexiord/src/lexicon.rs:61 | Sorted insertion keeps the key list strictly increasing and adds exactly `key`. Inserting a key already present changes nothing. |
| `Tries.Insert` | xrosslexiord/src/lexicon.rs:61 | After `tree.insert(key, ())`, the trie has its old keys plus `key`. Insertion is idempotent. |
| `Lexicons.AsciiUpper` | xrosslexiord/src/lexicon.rs:60 | `'a'..'z'` map to `'A'..'Z'` (code point minus 32). Every other character is unchanged. No lowercase ASCII letter remains. |
| `Lexicons.Upper` | xrosslexiord/src/lexicon.rs:60 | Each character of the word is mapped by `AsciiUpper`. The length in characters and the length in UTF-8 bytes are both unchanged. |
| `Lexicons.Utf8Width` | xrosslexiord/src/lexicon.rs:57 | A character takes 1 to 4 bytes in UTF-8, and exactly 1 when it is ASCII (below `0x80`). |
| `Lexicons.Utf8Len` | xrosslexiord/src/lexicon.rs:57 | `str::len` counts UTF-8 bytes. That is at least the number of characters and at most four times it. |
| `Lexicons.AsciiLenIsCharCount` | xrosslexiord/src/lexicon.rs:57 | An ASCII word has as many bytes as characters. |
| `Lexicons.UpperNormalizes` | xrosslexiord/src/lexicon.rs:60 | An uppercased word has no ASCII lowercase letter, and uppercasing it again changes nothing. |
| `Lexicons.IndexKeys` | xrosslexiord/src/lexicon.rs:56-62 | Every key of the index for length n is n bytes long and has no ASCII lowercase letter. |
| `Lexicons.CompileNPrefixTree` | xrosslexiord/src/lexicon.rs:54-64 | The trie's keys are strictly sorted. `k` is a key iff some dictionary word `w` of n bytes uppercases to `k`. Words of other byte lengths are skipped. |
| `Lexicons.IndexUnique` | xrosslexiord/src/lexicon.rs:54-64 | Any two valid tries that index the same words of n bytes are the same trie. |
| `Lexicons.Build` | xrosslexiord/src/lexicon.rs:36-42 | Exactly `n+1` indices are built, and index `i` indexes the dictionary words of `i` bytes. |
| `Lexicons.BuiltIndexIsCompiled` | xrosslexiord/src/lexicon.rs:36-42 | Index `i` of a built lexicon equals any trie that `CompileNPrefixTree(dict, i)` can return. |
| `Lexicons.ContainsIff` | xrosslexiord/src/lexicon.rs:44-47 | For a query of at most n bytes, `contains` is true iff some dictionary word uppercases to the query itself. Such a word always has the query's byte length. |
| `Lexicons.Contains` | xrosslexiord/src/lexicon.rs:44-47 | Has no `ensures`. Its meaning is given by `Lexicons.ContainsIff` and `Lexicons.LowercaseQueryNotFound`. Its `requires` is the index panic: the query's byte length must name a built index. |
| `Lexicons.NDictionary` | xrosslexiord/src/lexicon.rs:49-51 | Has no `ensures`. Its meaning is given by `Lexicons.NDictionaryListsIndex`. Its `requires` is the index panic: `m` must name a built index. |
| `Lexicons.LowercaseQueryNotFound` | xrosslexiord/src/lexicon.rs:44-47 | A query with an ASCII lowercase letter is never contained. |
| `Lexicons.DictionaryWordFound` | xrosslexiord/src/lexicon.rs:56-61 | Every dictionary word of at most n bytes is found in its uppercased form. |
| `Lexicons.NDictionaryListsIndex` | xrosslexiord/src/lexicon.rs:49-51 | `n_dictionary(m)` lists strictly increasing keys with no duplicates. They are exactly the uppercased dictionary words of m bytes, each of m bytes with no lowercase letter. |
| `Lexicons.CaseVariantsCollapse` | xrosslexiord/src/lexicon.rs:60-61 | From `cat`, `Cat`, `CAT`, `dog`, `horse`, the length-3 index is exactly `CAT`, `DOG`. |
| `Lexicons.NonAsciiWordPartitionedByBytes` | xrosslexiord/src/lexicon.rs:57-61 | `café` has four characters and five bytes. Its uppercased form `CAFé` is listed for length 5 and not for length 4. |
| `Dictionary.IsWhitespace` | xrosslexiord/src/lexicon.rs:16 | Has no `ensures`. It is the set `trim` removes, Unicode White_Space: the 25 code points `U+0009`..`U+000D`, `U+0020`, `U+0085`, `U+00A0`, `U+1680`, `U+2000`..`U+200A`, `U+2028`, `U+2029`, `U+202F`, `U+205F` and `U+3000`. |
| `Dictionary.TrimStart` | xrosslexiord/src/lexicon.rs:16 | The result is a suffix of the line. Only whitespace was removed, and the result does not start with whitespace. |
| `Dictionary.TrimEnd` | xrosslexiord/src/lexicon.rs:16 | The result is a prefix of the line. Only whitespace was removed, and the result does not end with whitespace. |
| `Dictionary.Trim` | xrosslexiord/src/lexicon.rs:16 | The trimmed line neither starts nor ends with whitespace and is no longer than the line. |
| `Dictionary.TrimIsInfix` | xrosslexiord/src/lexicon.rs:16 | The trimmed line is a contiguous stretch of the line, with only whitespace before and after it. |
| `Dictionary.TrimIdempotent` | xrosslexiord/src/lexicon.rs:16 | Trimming twice is trimming once. |
| `Dictionary.TrimPadded` | xrosslexiord/src/lexicon.rs:16 | Text with no whitespace at its ends, padded with whitespace, trims back to the text. |
| `Dictionary.Trimmed` | xrosslexiord/src/lexicon.rs:15-16 | Entry `i` is line `i` trimmed, and there is one entry per line. |
| `Dictionary.Kept` | xrosslexiord/src/lexicon.rs:15-21 | No kept word contains an apostrophe, and there are at most as many words as lines. |
| `Dictionary.KeptMembers` | xrosslexiord/src/lexicon.rs:15-21 | `w` is kept iff `w` has no apostrophe and is among the trimmed lines. Case is not changed. |
| `Dictionary.KeptAppend` | xrosslexiord/src/lexicon.rs:15-21 | Filtering distributes over concatenation, so kept lines stay in their original order. |
| `Dictionary.LoadDictionary` | xrosslexiord/src/lexicon.rs:11-23 | The pushed word list is exactly `Kept(lines)`. |

## Left out

- Reading `/usr/share/dict/words` and propagating its `io::Error` (lexicon.rs:12-16) are file I/O. `LoadDictionary` takes the lines as a parameter.
- The `lazy_static` global `DICTIONARY` (lexicon.rs:25-28) is replaced by a word-list parameter of `CompileNPrefixTree` and `Build`.
- The internals of `radix_trie::Trie` are a foreign library. Only its key set, `insert`, `get` and its key order are modelled.
- `Lexicons.Contains`, `Lexicons.NDictionary`: the index out of range is a panic in the source. It is modelled as a precondition: the byte length of the query, and `m`, must be below the number of indices.
- A Dafny `char` is a Unicode scalar value, as a Rust `char` is, and `Utf8Len` gives the length of its UTF-8 encoding. The encoding itself is not modelled: nothing in these files looks at the bytes except through `len()`.
- `usize` overflow of `cols*row + col`, of `start + offset`, and of `n+1` in `build` is not modelled. Integers are unbounded.
- The source's tests whose expected values depend on the host's word list (lexicon.rs:72-99) are not modelled. Their shape is stated instead: keys sorted, of n bytes, uppercase.
- A concrete example of the line filter on literal lines is not included. It is covered by `Dictionary.KeptMembers` with `Dictionary.TrimPadded`.
- `macros.rs` (`charvec!`) is not part of this model. In Dafny, a string already is a character sequence.
- `Puzzle.read` and `Puzzle.read_wordspan` are modelled as the functions `Grid.Read` and `Grid.ReadSpan` of the buffer's contents. They are not member functions of the class.
- `BARRIER` (puzzle.rs:29) is declared but unused in the source, so it is not modelled.
- Slot derivation, cross-requirements and the full/solved predicates do not exist in these files and are not modelled.
