# Favicon ICO builder, modelled in Dafny

This project models `scripts/make_favicon_ico.py`, the repository's favicon
builder. The script reads square PNG icons and picks the sizes to ship. It
keeps one icon per size, orders them by size and writes a multi-image ICO
file whose images are the PNG streams themselves.

The model has seven modules, one file each:

- `Bytes` (`bytes.dfy`) — bytes, plus the fixed-width little- and big-endian
  fields that stand in for the `struct` formats `<H`, `<I` and `>I`. It also
  holds small lemmas about slices of concatenations.
- `Icons` (`icons.dfy`) — the `PngIcon` record (`Icon`) and one error
  constructor per exception the script raises. Also `Option`, `Result`, and
  the position of the first error in a list of outcomes.
- `Png` (`png.dfy`) — `read_png` on the contents of a file. It checks the
  8-byte signature (section 5.2 of the PNG specification, ISO/IEC 15948) and
  the IHDR chunk (sections 5.3 and 11.2.2), and decodes the big-endian width
  and height.
- `SizeList` (`sizelist.dfy`) — `parse_sizes`: Python's `str.split(",")`,
  `str.strip()` and `int()`, and the loop that collects the sizes.
- `Selection` (`selection.dfy`) — `filter_icons`, `unique_by_size` (a Python
  dict: keys in first-insertion order, last value wins) and `sort_icons` (a
  stable sort by size).
- `Ico` (`ico.dfy`) — `ico_size_byte` and `build_ico`. The output is the
  6-byte ICONDIR header, one 16-byte ICONDIRENTRY per icon, then the images
  in order.
- `Favicon` (`favicon.dfy`) — the `try` block of `main`: the classic-size
  fallback, reading every discovered file, and the stages in order.

The script's loops are methods with loop invariants: `build_ico`,
`filter_icons`, `unique_by_size` and the loop of `parse_sizes`. Each is
proved equal to a specification function, and the properties are proved as
lemmas about that function. The expression-only parts are functions:
`read_png`'s header checks, `ico_size_byte`, `sort_icons` and the size
preference.

Integers are unbounded in Dafny. The widths of the `struct` fields are
written out: `struct.pack` raises when a field does not fit, and the model
returns `FieldOverflow` in that case.

## Model

| member | source | states |
|---|---|---|
| Bytes.LE | scripts/make_favicon_ico.py:123 | the n-byte little-endian encoding of a value (the `struct` `<` formats), exactly n bytes long; its inverse is DecodeLE, by the round trips below |
| Bytes.DecodeLE | scripts/make_favicon_ico.py:123 | the value of a little-endian byte string: the first byte is the lowest; the reader's view of the `<H` and `<I` fields |
| Bytes.BE | scripts/make_favicon_ico.py:39 | the n-byte big-endian encoding of a value (the `>I` format), exactly n bytes long; its inverse is DecodeBE |
| Bytes.DecodeBE | scripts/make_favicon_ico.py:39-45 | the value of a big-endian byte string, as `struct.unpack(">I", ...)` reads the IHDR length, width and height |
| Bytes.U16LE | scripts/make_favicon_ico.py:123 | `struct.pack("<H", x)`: two bytes, low byte first; U16LEIsLE and DecodeU16LE show it decodes to x for every x below 65536 |
| Bytes.U32LE | scripts/make_favicon_ico.py:136-146 | `struct.pack("<I", x)`: four bytes, low byte first; U32LEIsLE and DecodeU32LE show it decodes to x for every x below 2^32 |
| Bytes.DecodeEncodeLE | scripts/make_favicon_ico.py:123 | a value below 256^n, written as n little-endian bytes, decodes back to itself |
| Bytes.EncodeDecodeLE | scripts/make_favicon_ico.py:123 | any n bytes are the little-endian encoding of the value they decode to |
| Bytes.DecodeEncodeBE | scripts/make_favicon_ico.py:39 | a value below 256^n, written as n big-endian bytes, decodes back to itself (the `>I` unpacking) |
| Bytes.EncodeDecodeBE | scripts/make_favicon_ico.py:44-45 | any n bytes are the big-endian encoding of the value they decode to |
| Bytes.DecodeLEBound | scripts/make_favicon_ico.py:136-146 | a reader's value of an n-byte little-endian field, such as the `<H` and `<I` fields packed here, is below 256^n |
| Bytes.DecodeBEBound | scripts/make_favicon_ico.py:44-45 | a decoded n-byte big-endian field is below 256^n, so a width fits 32 bits |
| Bytes.U16LEIsLE | scripts/make_favicon_ico.py:123 | the two-byte `<H` field equals the general little-endian encoding at width 2 |
| Bytes.U32LEIsLE | scripts/make_favicon_ico.py:136-146 | the four-byte `<I` field equals the general little-endian encoding at width 4 |
| Bytes.DecodeU16LE | scripts/make_favicon_ico.py:123 | a `<H` field below 65536 decodes to the value written |
| Bytes.DecodeU32LE | scripts/make_favicon_ico.py:136-146 | a `<I` field below 2^32 decodes to the value written |
| Png.U32At | scripts/make_favicon_ico.py:39-45 | `struct.unpack(">I", ...)` of the four bytes at a position: the IHDR length at 8, the width at 16, the height at 20 |
| Png.IsSquarePngHeader | scripts/make_favicon_ico.py:36-50 | all the conditions `read_png` checks: at least 33 bytes, the signature, type "IHDR" declared at least 8 bytes long, and an equal, non-zero width and height |
| Png.ReadPng | scripts/make_favicon_ico.py:32-52 | succeeds iff the data is at least 33 bytes, starts with the signature, has type "IHDR" at 12..16 with a declared length of at least 8, and has an equal, non-zero big-endian width and height; the icon's size is then that width (below 2^32) and its data is the whole file; a short or unsigned file gives "not a valid PNG", and a bad IHDR gives "invalid IHDR" |
| Png.HeaderFields | scripts/make_favicon_ico.py:39-45 | a header built from a length, width and height reads back those three values, the signature and the chunk type |
| Png.AcceptsSquare | scripts/make_favicon_ico.py:44-52 | every square, non-empty header with a valid IHDR is accepted, with its width as the size |
| Png.RejectsNonSquare | scripts/make_favicon_ico.py:47-48 | a w x h header with w != h is rejected with an error naming both |
| Png.RejectsZeroSize | scripts/make_favicon_ico.py:49-50 | a 0 x 0 header is rejected as size 0 |
| Png.RejectsShortIhdr | scripts/make_favicon_ico.py:39-42 | an IHDR declaring fewer than 8 bytes is rejected before width and height are compared |
| SizeList.Split | scripts/make_favicon_ico.py:66 | `str.split(",")`: always at least one piece, so empty pieces are kept; SplitJoin pins the pieces down exactly |
| SizeList.SplitJoin | scripts/make_favicon_ico.py:66 | the pieces of `split(",")` contain no comma and join back with commas to the input |
| SizeList.Strip | scripts/make_favicon_ico.py:67 | the result is empty iff the token is all whitespace; it is the infix starting at the first non-space, everything after it is whitespace, and a non-empty result neither starts nor ends with whitespace |
| SizeList.ParseInt | scripts/make_favicon_ico.py:70-73 | `int(token)`: a token is an integer iff it is one or more digits, optionally after a single `+` or `-`; its value is the digits' decimal value, negated after `-`; every other token is refused |
| SizeList.ParseDecimal | scripts/make_favicon_ico.py:71 | every integer written in decimal, with a minus sign when negative, parses back to itself |
| SizeList.DecimalValue | scripts/make_favicon_ico.py:71 | the digits of n have the value n |
| SizeList.TokenSize | scripts/make_favicon_ico.py:67-76 | an accepted token contributes a positive size |
| SizeList.TokenErrors | scripts/make_favicon_ico.py:70-76 | a non-blank token that is not an integer is an invalid value, an integer <= 0 is refused as not positive, and a positive integer is added |
| SizeList.BlankToken | scripts/make_favicon_ico.py:67-69 | a token is skipped iff it is all whitespace |
| SizeList.GatherErrors | scripts/make_favicon_ico.py:66-76 | the loop's outcomes give a set iff none is an error; otherwise the error is the first one |
| SizeList.GatherMembers | scripts/make_favicon_ico.py:66-76 | a value is in the collected set iff some outcome is that size |
| SizeList.CollectSizesErrors | scripts/make_favicon_ico.py:66-76 | the tokens are accepted iff every token is; otherwise the error is that of the first bad token (an invalid value, or a value <= 0), and all tokens before it are accepted |
| SizeList.CollectSizesMembers | scripts/make_favicon_ico.py:66-76 | a value is in the collected set iff some token is that positive integer |
| SizeList.CollectSizesPositive | scripts/make_favicon_ico.py:74-76 | every collected size is positive |
| SizeList.CollectSizes | scripts/make_favicon_ico.py:65-76 | the set the loop builds, or its first error; CollectSizesErrors and CollectSizesMembers state exactly which |
| SizeList.SizeFilterResult | scripts/make_favicon_ico.py:77-79 | after the loop, the loop's error is passed on, an empty set is the "at least one size" error, a non-empty set is returned as the filter, and "no filter" never comes out |
| SizeList.ParseSizesSpec | scripts/make_favicon_ico.py:62-79 | `parse_sizes` as a value: no filter for an absent or empty option, else the collected sizes or the first error; ParseSizesResult, ParseSizesErrors and ParseSizesMember state its properties |
| SizeList.ParseSizesErrors | scripts/make_favicon_ico.py:62-79 | for a non-empty option: a bad token makes `parse_sizes` fail with the first bad token's error, and it succeeds iff no token is bad and some token is not blank |
| SizeList.ParseSizesResult | scripts/make_favicon_ico.py:62-79 | "no filter" iff the option is absent or empty; any filter is a non-empty set of positive sizes |
| SizeList.ParseSizesMember | scripts/make_favicon_ico.py:62-79 | a value is in the filter iff some comma-separated token is that integer |
| SizeList.AllBlankIsError | scripts/make_favicon_ico.py:77-78 | a non-empty option whose tokens are all blank is the "at least one size" error |
| SizeList.GatherStep | scripts/make_favicon_ico.py:66-76 | one loop iteration either stops with the token's error or adds the token's size and moves on |
| SizeList.ParseTokens | scripts/make_favicon_ico.py:65-79 | the loop over tokens returns exactly the collected sizes, or the error of the first bad token |
| SizeList.ParseSizes | scripts/make_favicon_ico.py:62-79 | `parse_sizes` returns exactly the specified filter or error |
| Selection.SizeSet | scripts/make_favicon_ico.py:204 | `{icon.size for icon in icons}`, characterised exactly by SizeSetMembers |
| Selection.SizeSetMembers | scripts/make_favicon_ico.py:204 | the set of discovered sizes holds exactly the sizes that occur among the icons |
| Selection.Keep | scripts/make_favicon_ico.py:89-92 | the test `filter_icons` applies: a size not above the ceiling and, when a whitelist is given, in the whitelist |
| Selection.Filtered | scripts/make_favicon_ico.py:87-93 | the icons passing Keep, in input order; FilteredIsSubsequence and FilteredCount state exactly which |
| Selection.FilteredIsSubsequence | scripts/make_favicon_ico.py:87-93 | the kept icons are a subsequence of the input, in input order |
| Selection.FilteredCount | scripts/make_favicon_ico.py:88-93 | each icon is kept exactly as often as it occurs when it is not above the ceiling and (with a whitelist) its size is listed, and never otherwise |
| Selection.FilterIcons | scripts/make_favicon_ico.py:82-96 | the loop returns the kept icons when there are any, and otherwise the "no icons left" error |
| Selection.DistinctSizesNoRepeat | scripts/make_favicon_ico.py:99-104 | in a list of distinct sizes no icon occurs twice |
| Selection.PermutationKeepsDistinctSizes | scripts/make_favicon_ico.py:107-109 | a reordering of icons with distinct sizes still has distinct sizes |
| Selection.FirstSeenSizes | scripts/make_favicon_ico.py:100-103 | the dict's key order lists each size of the input exactly once |
| Selection.LastIndexOfSize | scripts/make_favicon_ico.py:102-103 | the position found holds an icon of that size, and no later icon has it |
| Selection.Insertions | scripts/make_favicon_ico.py:100-103 | the dict's keys are exactly the input's sizes, and its key order lists exactly its keys |
| Selection.Values | scripts/make_favicon_ico.py:104 | the dict's values are listed in key order |
| Selection.InsertionsKeys | scripts/make_favicon_ico.py:100-103 | the key order is the order in which sizes first appear |
| Selection.InsertionsLastWins | scripts/make_favicon_ico.py:102-103 | under each size the dict holds the last icon of that size |
| Selection.UniqueBySizeSpec | scripts/make_favicon_ico.py:99-104 | `list(by_size.values())` after the dict is filled; UniqueBySizeResult states what it holds |
| Selection.UniqueBySizeResult | scripts/make_favicon_ico.py:99-104 | the result has the input's sizes, each once, in first-appearance order, and for each size it has the last icon given with it |
| Selection.UniqueBySize | scripts/make_favicon_ico.py:99-104 | the dict-filling loop returns exactly that list |
| Selection.AdjacentToSorted | scripts/make_favicon_ico.py:107-109 | neighbours in size order means the whole list is in size order |
| Selection.ConsInOrder | scripts/make_favicon_ico.py:107-109 | an icon that may precede the head of a sorted list can be put in front of it |
| Selection.Insert | scripts/make_favicon_ico.py:107-109 | inserting into a sorted list adds exactly that icon and keeps the list sorted |
| Selection.SortIcons | scripts/make_favicon_ico.py:107-109 | the result is a permutation of the input, ordered by size: non-increasing for "desc", non-decreasing otherwise |
| Ico.SizeByte | scripts/make_favicon_ico.py:112-116 | 256 is stored as 0 and every other size as itself; sizes up to 256 fit a byte |
| Ico.SizeByteRoundTrip | scripts/make_favicon_ico.py:112-116 | a reader mapping byte 0 back to 256 recovers every size from 1 to 256 |
| Ico.Header | scripts/make_favicon_ico.py:123 | the 6-byte ICONDIR `<HHH` of 0, 1 and the count; HeaderRoundTrip reads it back |
| Ico.Entry | scripts/make_favicon_ico.py:136-146 | the 16-byte ICONDIRENTRY `<BBBBHHII`; ReadEntryRoundTrip reads its eight fields back |
| Ico.TotalLength | scripts/make_favicon_ico.py:127-149 | the number of image bytes before a position, which the running offset adds to 6 + 16n |
| Ico.Payloads | scripts/make_favicon_ico.py:125-148 | the `image_data` buffer: the images back to back, TotalLength bytes long; PayloadAt places each image |
| Ico.Directory | scripts/make_favicon_ico.py:124-147 | the `entries` buffer: 16 bytes per icon; DirectoryAt places each icon's entry at its running offset |
| Ico.IconProblem | scripts/make_favicon_ico.py:129-146 | an icon has no problem iff its side is at most 256 and its length and offset fit 32 bits; an oversized side is reported as SizeNotStorable before any overflow, and otherwise a length or offset of 2^32 or more is FieldOverflow |
| Ico.BuildIcoSpec | scripts/make_favicon_ico.py:119-151 | `build_ico` as a value: too many icons, else the first icon's problem, else header, directory and images; BuildIcoSucceeds and the BuildIco* lemmas state its properties |
| Ico.Layout | scripts/make_favicon_ico.py:151 | `header + entries + image_data` for icons that all fit; BuildIcoLength, BuildIcoPayloads and BuildIcoEntry state its shape |
| Ico.ReadEntryRoundTrip | scripts/make_favicon_ico.py:136-146 | a packed entry reads back as width, height, palette 0, reserved 0, 1 plane, 32 bits per pixel, the length and the offset |
| Ico.HeaderRoundTrip | scripts/make_favicon_ico.py:123 | the packed header reads back as reserved 0, type 1 and the count |
| Ico.FirstProblem | scripts/make_favicon_ico.py:128-146 | when no icon has a problem, every side fits a directory byte |
| Ico.FirstProblemPrefix | scripts/make_favicon_ico.py:128-132 | the first problem in a prefix is the first problem of the whole list |
| Ico.FirstProblemStep | scripts/make_favicon_ico.py:128-146 | one more icon adds exactly its own check, made at the running offset |
| Ico.BuildStep | scripts/make_favicon_ico.py:128-149 | one loop iteration appends the icon's entry, at the running offset, and its image |
| Ico.BuildIcoOutcome | scripts/make_favicon_ico.py:119-151 | with at most 65535 icons, the result is the first problem's error, or the header, the entries and the images |
| Ico.BuildIcoParts | scripts/make_favicon_ico.py:151 | a successful output is header, directory and images, and every icon fits a directory byte |
| Ico.BuildIcoFails | scripts/make_favicon_ico.py:128-146 | the first problem met is the error raised |
| Ico.BuildIcoStops | scripts/make_favicon_ico.py:128-146 | at the first icon that is over 256 pixels, or whose length or offset overflows 32 bits, `build_ico` fails with that icon's error |
| Ico.BuildIco | scripts/make_favicon_ico.py:119-151 | the loop with its running offset returns exactly the specified output or error |
| Ico.FirstProblemNone | scripts/make_favicon_ico.py:128-146 | no icon has a problem iff each fits a byte and has a length and offset below 2^32 |
| Ico.BuildIcoSucceeds | scripts/make_favicon_ico.py:119-146 | `build_ico` succeeds iff there are at most 65535 icons, each at most 256 pixels, with every length and offset below 2^32; too many icons gives the "too many icons" error |
| Ico.DirectoryPrefix | scripts/make_favicon_ico.py:128-147 | the entries of the first k icons are the first 16k bytes of the directory |
| Ico.DirectoryUpTo | scripts/make_favicon_ico.py:147 | the directory of the first i + 1 icons is that of the first i, then icon i's entry |
| Ico.DirectoryAt | scripts/make_favicon_ico.py:127-149 | bytes 16i..16i+16 of the directory are icon i's entry, at the offset just past the images before it |
| Ico.PayloadAt | scripts/make_favicon_ico.py:148-149 | icon i's image sits in the images right after the images before it |
| Ico.BuildIcoHeader | scripts/make_favicon_ico.py:123 | the output starts with little-endian 0, 1 and the icon count |
| Ico.BuildIcoLength | scripts/make_favicon_ico.py:119-151 | the output is 6 + 16n bytes plus the sum of the image lengths |
| Ico.BuildIcoPayloads | scripts/make_favicon_ico.py:148-151 | after the 6 + 16n header and directory bytes come the images, concatenated in input order |
| Ico.BuildIcoEntryBytes | scripts/make_favicon_ico.py:127-147 | the 16 bytes of entry i are icon i's packed entry |
| Ico.BuildIcoEntry | scripts/make_favicon_ico.py:127-149 | entry i reads back as the size byte twice, palette 0, reserved 0, 1 plane, 32 bits per pixel, the image's length, and offset 6 + 16n plus the lengths of the images before it |
| Ico.BuildIcoImage | scripts/make_favicon_ico.py:127-151 | the bytes that entry i points at are exactly icon i's image |
| Favicon.DefaultIcoSizesValid | scripts/make_favicon_ico.py:22 | the classic sizes are distinct, listed largest first, and each fits an ICO directory entry |
| Favicon.KeepDiscovered | scripts/make_favicon_ico.py:205 | the preferred list holds exactly the classic sizes that were discovered |
| Favicon.IncludeSizes | scripts/make_favicon_ico.py:202-207 | a given whitelist or explicit inputs leave the filter unchanged; otherwise the filter is the discovered classic sizes, or none when no classic size was discovered |
| Favicon.ReadResults | scripts/make_favicon_ico.py:201 | one `read_png` outcome per file, in order |
| Favicon.AllValues | scripts/make_favicon_ico.py:201 | when every outcome is an icon, the result lists them in order |
| Favicon.AllValuesErrors | scripts/make_favicon_ico.py:201 | the list comprehension fails iff some file fails, and then with the first file's error |
| Favicon.ReadAll | scripts/make_favicon_ico.py:201 | every file is read iff all are square PNGs, giving their icons in order; otherwise the error is that of the first bad file, and all files before it are good |
| Favicon.SelectIcons | scripts/make_favicon_ico.py:196-211 | the icons handed to `build_ico`, or the first error: bad `--sizes`, no files, a bad file, nothing left after filtering; SelectIconsOutcome and SelectIconsResult state when and what |
| Favicon.SelectIconsOutcome | scripts/make_favicon_ico.py:196-209 | a bad `--sizes` gives its error, no files gives "no PNG files", an unreadable file gives the first such file's error, and after a good read the only failure is "nothing left after filtering"; the selection succeeds iff the sizes parse, there are files, all are square PNGs, and some icon read passes the size tests |
| Favicon.MakeFaviconSpec | scripts/make_favicon_ico.py:195-212 | the bytes `main` writes: the selection, then `build_ico`, or the first error either raises; MakeFaviconOutcome states when it succeeds |
| Favicon.MakeFaviconOutcome | scripts/make_favicon_ico.py:195-212 | a selection error is the one reported; after a successful selection, the file is produced iff there are at most 65535 icons, each at most 256 pixels, with every length and offset below 2^32 |
| Favicon.MakeFavicon | scripts/make_favicon_ico.py:195-212 | the stages, run in order, return exactly the specified bytes or the first error raised |
| Favicon.FilteredMember | scripts/make_favicon_ico.py:209 | an icon that survives filtering was read and passes the size tests |
| Favicon.UniqueBySizeKeeps | scripts/make_favicon_ico.py:210 | deduplicating a non-empty list gives a non-empty list of distinct sizes, drawn from the input |
| Favicon.StagesResult | scripts/make_favicon_ico.py:209-211 | after filtering, deduplication and sorting, the icons are non-empty, of distinct sizes, ordered as asked, each read and each passing the size tests |
| Favicon.StagesKeepEverySize | scripts/make_favicon_ico.py:209-211 | the size of every icon read that passes the size tests survives filtering, deduplication and sorting |
| Favicon.SelectIconsResult | scripts/make_favicon_ico.py:195-211 | what reaches `build_ico` is non-empty, has distinct sizes, is ordered as asked, holds only icons read that pass the filter in force, and has every size of such an icon, exactly once |
| Favicon.ClassicSizesPreferred | scripts/make_favicon_ico.py:202-211 | with no `--sizes` and no `--inputs`, once a classic size was discovered, only classic sizes reach `build_ico` |

## Left out

- File and OS access is not modelled. `read_png` takes the file's contents instead of opening the path. `discover_pngs` (the `glob` and sort, or the explicit inputs) is replaced by the list of files it would return, together with their contents. The directory creation and the write of the output are also left out.
- `parse_args` is not modelled: the option values are parameters. `--order` accepts any string, and only "desc" sorts descending, as in `sort_icons`. `--inputs` is reduced to whether it named at least one file, which is all that `main` looks at once the files are known.
- The error messages and the exit code are not modelled. Each exception is one constructor of `Icons.Error`, with the values its message names.
- SizeList.ParseInt: accepts an optional sign and ASCII decimal digits only. Python's `int()` also accepts underscores between digits and non-ASCII decimal digits; those tokens are errors here. In the other direction, CPython 3.11 and later refuse a token of more than 4300 digits, which `parse_sizes` then reports as an invalid size value; the model accepts such a token.
- SizeList.Strip: strips only the ASCII characters that Python's `str.isspace` accepts, not non-ASCII whitespace.
- Selection.SortIcons: does not state stability, meaning that icons of equal size keep their input order. The insertion it uses is stable, but no lemma says so. In the pipeline the sizes are already distinct, so the order is fully determined anyway.
- Ico.BuildIco: every `struct.error` from an `<I` field (a length or offset of 2^32 or more) is the single constructor `FieldOverflow`. The `B` and `<H` fields cannot overflow, because the size and count checks come first.
- Ico.BuildIco: the `bytearray` buffers are modelled as sequences that the loop reassigns, not as buffers extended in place.
- The repository's pool-chemistry code (dosing, classification and analytics) is not part of this model. Its formulas are floating point.
