# Longest-line post-processing of the LSTM OCR demo

The OCR demo hands an image to the Tesseract engine and gets back one UTF-8 text
blob. It then keeps only the longest line of that text. This project models that
post-processing step from `src/ocr/lstm_ocr/lstm_ocr.cpp` and proves its
properties in Dafny:

- `filterChars` overwrites, in place, every byte that is not an ASCII letter or
  digit with a space.
- `getLongestLine` walks the text with `find_first_not_of('\n', end)` and
  `find('\n', start)`. It cuts out every maximal run of non-`'\n'` bytes with
  `substr`, optionally filters the run, and appends it to a vector. It then scans
  the vector from `lines[0]`, replacing its choice only when a line is strictly
  longer.

Text is a sequence of bytes (`StdString.Byte`), as in a `std::string`. A UTF-8
character of several bytes therefore becomes several spaces under the filter.
`std::string::npos` is the largest 64-bit `size_t` (`StdString.NPos`). Every string
is shorter than that (`ValidString`), as `max_size()` guarantees.

Files, one module each:

- `std_string.dfy`: `StdString` holds the byte type and the three `std::string`
  operations the loop uses (`find_first_not_of`, `find`, `substr`), with their
  `npos` conventions.
- `alnum_filter.dfy`: `AlnumFilter` holds the C-locale character class, the
  reference function `FilterAlnum`, the in-place method `FilterChars` over an
  array, and the fixed-point and idempotence lemmas.
- `line_splitter.dfy`: `LineSplitter` holds the reference split `Split` and its
  characterisation. The text is its lines woven with runs of `'\n'`, at least one
  between two lines, and that decomposition is unique. The file also holds the
  loop `SplitLines`, proved equal to the reference.
- `longest_line.dfy`: `LongestLine` holds the first-longest selection, the second
  loop `SelectLongest` and the whole `GetLongestLine`. `LongestLineExamples` holds
  two worked examples.

The code reads `lines[0]` of an empty vector, which is undefined
behaviour, and no caller handles it. `GetLongestLine` therefore requires
`HasText(str)`, meaning at least one byte other than `'\n'`. `SplitNoLines` proves
that this is exactly the condition under which the vector is non-empty.

## Model

| member | source | states |
|---|---|---|
| `StdString.FindFirstNotOf` | src/ocr/lstm_ocr/lstm_ocr.cpp:54 | the result is npos or a position at or after `pos` whose byte differs from the delimiter, and every byte between `pos` and the result is the delimiter |
| `StdString.Find` | src/ocr/lstm_ocr/lstm_ocr.cpp:56 | the result is npos or a position at or after `pos` holding the delimiter, and no byte between `pos` and the result is the delimiter |
| `StdString.Substr` | src/ocr/lstm_ocr/lstm_ocr.cpp:57 | the result is the slice of the string starting at `pos`, at most `count` long, and shorter only when it reaches the end of the string (so `end - start` with `end == npos` takes the rest) |
| `AlnumFilter.FilterAlnum` | src/ocr/lstm_ocr/lstm_ocr.cpp:34-35 | the filtered string has exactly the input's length; every letter or digit stays in place; every other byte becomes `' '` |
| `AlnumFilter.FilterChars` | src/ocr/lstm_ocr/lstm_ocr.cpp:26-36 | after the in-place pass, the array holds `FilterAlnum` of its old contents |
| `AlnumFilter.FilterFixedPoints` | src/ocr/lstm_ocr/lstm_ocr.cpp:34-35 | filtering leaves a string unchanged if and only if it holds only letters, digits and spaces |
| `AlnumFilter.FilterIdempotent` | src/ocr/lstm_ocr/lstm_ocr.cpp:34-35 | filtering twice gives the same string as filtering once |
| `LineSplitter.Split` | src/ocr/lstm_ocr/lstm_ocr.cpp:54-57 | every line of the split is non-empty and contains no `'\n'` |
| `LineSplitter.SplitDropNewlines` | src/ocr/lstm_ocr/lstm_ocr.cpp:54 | any run of `'\n'` in front of the text adds no line |
| `LineSplitter.SplitRun` | src/ocr/lstm_ocr/lstm_ocr.cpp:56-57 | a line followed by the end of the text or by `'\n'` is cut off whole as the next line |
| `LineSplitter.SplitNoLines` | src/ocr/lstm_ocr/lstm_ocr.cpp:54-65 | the split is empty exactly when the text is empty or consists of `'\n'` only, so `lines[0]` exists if and only if `HasText` holds |
| `LineSplitter.SplitConcat` | src/ocr/lstm_ocr/lstm_ocr.cpp:54-57 | the unfiltered lines, concatenated in order, equal the text with every `'\n'` deleted |
| `LineSplitter.SplitWeaves` | src/ocr/lstm_ocr/lstm_ocr.cpp:54-57 | the text equals its lines interleaved with runs of `'\n'` (`Gaps`); the runs between two lines are non-empty; leading and trailing runs may be empty |
| `LineSplitter.SplitUnique` | src/ocr/lstm_ocr/lstm_ocr.cpp:54-57 | conversely, any such interleaving of non-empty newline-free lines splits back into exactly those lines, so the split is the unique decomposition into maximal runs |
| `LineSplitter.SkipToText` | src/ocr/lstm_ocr/lstm_ocr.cpp:54 | skipping delimiters with `find_first_not_of` loses no line, and reaching npos means no line is left |
| `LineSplitter.TakeLine` | src/ocr/lstm_ocr/lstm_ocr.cpp:56-57 | from a non-delimiter `start`, the bytes up to `find('\n', start)` (or the end) form the next line, and the remaining lines come after it |
| `LineSplitter.NextLine` | src/ocr/lstm_ocr/lstm_ocr.cpp:54-57 | one turn of the loop: `end` moves strictly past `start`, and the `substr` it takes is the first of the lines left from the previous `end` |
| `LineSplitter.FilterLine` | src/ocr/lstm_ocr/lstm_ocr.cpp:59-61 | filtering the local copy `line` in place yields `FilterAlnum(line)` |
| `LineSplitter.FilterKeepsLines` | src/ocr/lstm_ocr/lstm_ocr.cpp:59-62 | filtering the lines keeps their number and each line's length, and every filtered line is still non-empty and free of `'\n'` (the filter turns `'\n'` into `' '`), so the filtered vector is made of lines too |
| `LineSplitter.SplitLines` | src/ocr/lstm_ocr/lstm_ocr.cpp:54-63 | the while loop terminates and the vector it builds is the split of the text, each line filtered when `filter` is set |
| `LongestLine.FirstLongest` | src/ocr/lstm_ocr/lstm_ocr.cpp:65-70 | the selected position holds a line at least as long as every line, and every line before it is strictly shorter |
| `LongestLine.FirstLongestUnique` | src/ocr/lstm_ocr/lstm_ocr.cpp:65-70 | only one position has both properties, so the first-longest choice is determined |
| `LongestLine.SameLengthsSameChoice` | src/ocr/lstm_ocr/lstm_ocr.cpp:67 | two vectors whose lines have the same lengths select the same position |
| `LongestLine.FilterKeepsChoice` | src/ocr/lstm_ocr/lstm_ocr.cpp:59-70 | the position selected is the same whether `filter` is true or false; only the content differs |
| `LongestLine.SelectLongest` | src/ocr/lstm_ocr/lstm_ocr.cpp:65-70 | the scan from `lines[0]` with a strict `>` returns the line at `FirstLongest`, so a later line of equal length never replaces an earlier one |
| `LongestLine.GetLongestLine` | src/ocr/lstm_ocr/lstm_ocr.cpp:38-73 | given a text with at least one non-`'\n'` byte, the vector is non-empty and the result is its first longest entry. That entry is the raw line at the position chosen for the unfiltered lines, filtered when `filter` is set. The result is a non-empty line without `'\n'` |
| `LongestLineExamples.SplitDropsEmptyLine` | src/ocr/lstm_ocr/lstm_ocr.cpp:54-57 | `"a\nbb\n\nccc"` splits into `"a"`, `"bb"`, `"ccc"` |
| `LongestLineExamples.TieGoesToFirst` | src/ocr/lstm_ocr/lstm_ocr.cpp:65-70 | of `"abc"`, `"xyz"`, `"b"`, the first line `"abc"` is selected |

## Left out

- `main` (src/ocr/lstm_ocr/lstm_ocr.cpp:75-128) is not modelled: the argument-count check, the usage message, the header and footer printing and the timing are console I/O and clock reads.
- Image loading with `imread` and OpenCV `Mat` is not modelled; it is a foreign library call.
- The Tesseract calls (`Init`, `SetPageSegMode`, `SetImage`, `GetUTF8Text`, `End`) are not modelled. The OCR engine is opaque: its output is the arbitrary byte string `str` given to `GetLongestLine`.
- The `TessBaseAPI` object allocated with `new` and never deleted is outside the model (resource handling).
- Character classification is the fixed ASCII ranges of the "C" locale. Other locales are not modelled. Neither is the undefined behaviour of passing a negative `char` to `isalpha`/`isdigit`: bytes 0x80 and above are simply not alphanumeric.
- `GetLongestLine` requires a text with at least one byte other than `'\n'`. For any other text the code reads `lines[0]` of an empty vector, which is undefined behaviour with no defined result to model.
- Strings are bounded by `ValidString` (shorter than `npos`). Every `std::string` satisfies this, and `size_t` wrap-around in `end - start` cannot occur below that bound.
- The copies made by `std::string` assignment (`line = ...`, `longstLine = s`) are modelled as values. Only `filterChars` works on a mutable buffer, because it is the one operation that updates its argument in place.
