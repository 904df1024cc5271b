# PAK archive codec: a Dafny model

This project models the archive codec of the Debonosu Works tools: the
`game.pak` container, its extractor (`depress.py`), its repacker
(`compress.py`, class `PakBuilder`), and the text clean-up that
`script/decompiler.py` applies to decompiled Lua.

A container has four parts, in this order:

- a 16-byte global header: magic `PAK\0`, the offset of the extended header, a version word and a zero word;
- a 24-byte extended header of six u32 words, in this order: the index offset relative to the extended header, an unknown word, the root count, the raw index size, the compressed index size and a second unknown word;
- the index, compressed as raw DEFLATE;
- the data section.

Each index record has a 52-byte little-endian fixed header: u64 offset, u64 uncompressed size, u64 compressed size, u32 flags and a 24-byte time field. The entry name follows, ended by a zero byte. A record with flag bit 0x10 is a directory. Its size field holds the number of its direct children, and those children follow it in pre-order.

The modules follow the program:

| module | file | models |
|---|---|---|
| `Wrappers` | wrappers.dfy | `Option`, `Result` and the error kinds the tools raise |
| `Bytes` | bytes.dfy | little-endian `struct` packing and unpacking |
| `Hex` | hex.dfy | `bytes.hex()` and `bytes.fromhex()` |
| `Deflate` | deflate.dfy | raw DEFLATE as a pair of functions passed in as a parameter |
| `IndexRecord` | index_record.dfy | one index record: encoding, decoding, the name terminator search |
| `Forest` | forest.dfy | the pre-order shape that child counts describe |
| `PakHeader` | pak_header.dfy | `read_header` and the header bytes `save` writes |
| `Meta` | meta.dfy | the dumped per-entry JSON object and POSIX path text |
| `Depress` | depress.dfy | `parse_entries`, `extract_file`, `serialize_entries`, index loading |
| `Compress` | compress.dfy | `PakBuilder` and the repacker's main loop |
| `RoundTrip` | roundtrip.dfy | the repacker's output read back by the extractor |
| `Finding` | finding.dfy | the equal-size file that the extractor misreads |
| `Decompiler` | decompiler.dfy | `decode_decimal_escapes` and the newline clean-up of `script/decompiler.py` |

The decoder keeps names as raw bytes. The encoder takes names as bytes
too, so neither the Shift-JIS nor the cp932 codec appears.

`parse_entries` is modelled twice:

- `ParseEntries` follows the recursive code.
- `Nest` and `Forest.Trees` are independent descriptions of the tree shape.

Lemmas tie the two together. `compress.py`'s `save` is modelled as the
byte string it writes. The repacker's loop, `Pack`, runs over any list of
items, each a dumped entry object with its file's bytes. `PackMade` says
which entry each directory or file item becomes, in order. The main round
trip, `PackRoundTrip`, saves the loop's builder, loads the index back and
extracts every file. The loaded entries are the builder's entries, and
every file extracts to its item's bytes. The contents part holds for the
corrected store rule only (see Findings): `Pack` runs the corrected
`AddFile`.

The model follows the code:

- A directory's size field counts its direct children, not all of its descendants (depress.py:88-90).
- A container with an empty index is rejected, not decoded as empty. `save` writes raw index size 0, and `read_header` refuses a zero size (depress.py:47).
- `save` always writes the extended header at byte 16 and the index at byte 40. The offsets it records in the header do not move them.
- An index that is too short fails as a truncated record, or as an unterminated name when the cut falls inside a name (depress.py:73-79). The code sets no bound on the entries consumed.

## Model

| member | source | states |
|---|---|---|
| Bytes.ToLE | compress.py:101 | packing a value below 256^w into w little-endian bytes gives exactly w bytes that unpack to the value |
| Bytes.FromLE | depress.py:76 | unpacking w little-endian bytes gives a value below 256^w |
| Bytes.ToLEFromLE | depress.py:30 | repacking an unpacked field gives back the same bytes |
| Bytes.ToLEInjective | compress.py:126-142 | two values of the same width pack to the same bytes exactly when they are equal |
| Hex.ToHex | depress.py:141 | the hex text has two lower-case hex digits per byte |
| Hex.FromHex | compress.py:56-60 | a successful parse yields at most one byte per two characters |
| Hex.FromHexToHex | compress.py:56-58 | parsing the hex that `serialize_entries` writes gives back the original bytes |
| Hex.ToHexFromHex | compress.py:56-58 | any text that parses is, whitespace dropped and lower-cased, the hex of what it parses to |
| IndexRecord.EncodeRecord | compress.py:101-109 | a record is 52 fixed bytes, the name and one terminating zero |
| IndexRecord.FindZero | depress.py:77 | a found position holds a zero byte at or after the start |
| IndexRecord.FindZeroFirst | depress.py:77-79 | the found zero is the first one, and none is found exactly when no zero follows |
| IndexRecord.DecodeRecord | depress.py:73-82 | a decoded record ends 52 + name length + 1 bytes after it starts, inside the buffer |
| IndexRecord.DecodeRecordFailure | depress.py:73-79 | decoding fails exactly when fewer than 52 bytes remain or no zero follows the fixed header, with the matching error |
| IndexRecord.DecodeEncodeRecord | depress.py:76-82 | an encoded record with a zero-free name, found anywhere in a buffer, decodes to itself and the position after it |
| IndexRecord.EncodeRecordInjective | compress.py:101-109 | two records with the same bytes are the same record |
| Forest.Trees | depress.py:87-91 | n trees described by child counts, if they fit, end at least n entries on and inside the list |
| Forest.TreesCount | depress.py:88-91 | n trees span n entries plus the sum of the child counts inside them |
| PakHeader.Candidates | depress.py:35-38 | the low 16 bits come first, and the raw value is second exactly when it differs from them |
| PakHeader.ExtHeaderAt | depress.py:43-46 | the header read at a candidate puts the index at candidate + relative offset and the data after the compressed index |
| PakHeader.Qualifies | depress.py:41-47 | a candidate is accepted when its 24-byte extended header fits in the file, both index sizes are non-zero and the data section starts inside the file |
| PakHeader.QualifiesIndexInside | depress.py:41-47 | an accepted candidate's compressed index is a non-empty slice lying inside the file |
| PakHeader.FirstQualifying | depress.py:40-60 | a result is the extended header read at one of the candidates, and a failure is a missing extended header error |
| PakHeader.FirstQualifyingIsFirst | depress.py:40-60 | the search succeeds exactly when some remaining candidate qualifies, and then returns the header read at the first qualifying one |
| PakHeader.ReadHeader | depress.py:20-60 | errors for short input and wrong magic; low candidate first, raw candidate second, else failure; a result has nonzero sizes, consistent offsets and data inside the file |
| PakHeader.ReadHeaderAt | depress.py:40-58 | a file whose header field is a qualifying 16-bit candidate is read at that candidate |
| PakHeader.ReadHeaderNone | depress.py:40-60 | a file whose only candidate does not qualify is rejected |
| PakHeader.GlobalHeaderBytes | compress.py:126-132 | the global header is 16 bytes |
| PakHeader.ExtHeaderBytes | compress.py:134-142 | the extended header is 24 bytes |
| PakHeader.GlobalHeaderRoundTrip | compress.py:126-132 | the written global header reads back as the magic and the header offset field |
| PakHeader.ExtHeaderRoundTrip | compress.py:134-142 | the written extended header, wherever it sits, reads back as every field written, with the derived offsets |
| PakHeader.ReadBackHeaders | compress.py:148-150 | both headers written back to back read back at offset 16 |
| Meta.JoinPath | depress.py:139 | the empty path prints as `.`, and a one-component path prints as that component |
| Meta.JoinPathParses | depress.py:139 | the printed text of a path whose components pathlib keeps reads back, through pathlib's splitting, as the same components; `.` reads back as the empty path |
| Meta.LastComponent | compress.py:40 | the name taken from a path is empty or a proper component |
| Meta.LastComponentJoin | compress.py:70 | the name taken from a dumped path is the entry's own last component |
| Depress.Classify | depress.py:84-103 | an entry is a directory exactly when bit 0x10 is set, with the size field as child count; otherwise a file with its fields unchanged |
| Depress.ParseEntries | depress.py:63-105 | zero entries parse to nothing at the start; a successful parse of some entries ends after at least one record and inside the buffer |
| Depress.ParseErrors | depress.py:72-79 | the parser fails only with a truncated-record or unterminated-name error, each in its own case |
| Depress.ParseFileStep | depress.py:92-103 | a file record is followed at once by the parse of the remaining siblings |
| Depress.ParseNested | depress.py:87-91 | every successful parse is a run of count trees: each root's path is the prefix plus its name, and its children follow it under its path |
| Depress.ParseShape | depress.py:72-91 | a successful parse under a prefix holds exactly count entries one level below the prefix, every entry lies below the prefix, and the child counts describe count trees covering the list |
| Depress.ParseEncodeAll | depress.py:63-105 | parsing a concatenation of well-formed records shaped as count trees consumes all of it and gives back every record |
| Depress.ExtractFile | depress.py:108-128 | range error exactly when the slice overruns; equal sizes pass the slice through; otherwise an inflate failure, a size mismatch or the inflated bytes |
| Depress.Files | depress.py:165 | the file list holds exactly the file entries |
| Depress.FilesOne | depress.py:165 | a single entry is selected exactly when it is a file |
| Depress.FilesAppend | depress.py:165 | selecting the files of a concatenation selects from each part in turn, so order is kept and nothing is added or dropped |
| Depress.ExtractFiles | depress.py:199-200 | all files extract, giving each file's contents, or the error is the first failing file's, every earlier file having extracted |
| Depress.ExtractAll | depress.py:199-200 | the extraction loop agrees with the list-level extraction, each output of the declared size |
| Depress.IndexBlob | depress.py:157 | the compressed index is the header's compressed size of bytes taken from the archive at the index offset |
| Depress.LoadIndex | depress.py:154-164 | header errors pass through; the index must inflate to exactly the declared size; the parse result is returned, with root-count trees covering it |
| Depress.Serialize | depress.py:139-142 | the dumped object carries the printed path, the hex time and exactly the kind's fields |
| Depress.SerializeEntries | depress.py:135-144 | one dumped object per entry, in order |
| Depress.SerializeTime | depress.py:141 | the dumped hex time parses back to the time field |
| Compress.New | compress.py:23-27 | a new builder has no data, no entries, cursor 0, and satisfies the builder invariant |
| Compress.TimeField | compress.py:55-62 | a missing or unparsable time text gives 24 zero bytes; a parsable one, in any case and spacing, gives the bytes whose hex is its lower-case, space-free spelling |
| Compress.TimeFieldOfDump | compress.py:56-58 | the time text of a dump gives back the dumped time bytes |
| Compress.AddDir | compress.py:29-45 | appends one directory entry with the last path component, child count default 0, attributes default 0x10; data and cursor unchanged |
| Compress.Stored | compress.py:65-66 | corrected store rule (see Findings): the stored bytes are the raw bytes when deflating does not change the length, else the deflated bytes |
| Compress.AddFile | compress.py:47-80 | corrected store rule (see Findings): missing source fails; otherwise one file entry at the old cursor with the stored and raw sizes, the stored bytes appended, the cursor advanced by their length |
| Compress.AddFileAsWritten | compress.py:47-80 | as the code is written: always stores the deflated bytes, with the same bookkeeping |
| Compress.Valid | compress.py:25-27 | the builder invariant: the cursor is the data length, the file sizes add up to it, and each file's offset is the total size of the files added before it |
| Compress.ValidInside | compress.py:78-80 | under the invariant every file's stored bytes lie inside the data, and a later file starts no earlier than an earlier one ends |
| Compress.AppendKeepsValid | compress.py:78-80 | appending an entry at the cursor with its bytes keeps the cursor equal to the data length and every file at the sum of earlier sizes |
| Compress.Pack | compress.py:174-191 | corrected store rule (see Findings): the loop keeps the builder invariant and adds one entry per directory or file item |
| Compress.PackFails | compress.py:183-189 | the loop fails exactly when some file item's source is missing, and then with that error |
| Compress.PackMade | compress.py:174-191 | corrected store rule (see Findings): on success the earlier entries stay in front, and the k-th directory or file item has become the k-th new entry, named by its path's last component, with its dumped fields and, for a file, the sizes of its bytes |
| Compress.Kept | compress.py:178-191 | the items the loop acts on are the directory and file items |
| Compress.KeptOne | compress.py:178-191 | a single item is kept exactly when it is a directory or a file |
| Compress.KeptAppend | compress.py:176-191 | the items kept from a concatenation are those kept from each part in turn, so order is kept and nothing is added or dropped |
| Compress.Pad24 | compress.py:87-88 | a time field is cut to 24 bytes or padded with zeros to 24 bytes |
| Compress.ToRecord | compress.py:90-99 | a directory is written with offset 0, compressed size 0 and the child count as size; a file with its own fields |
| Compress.BuildIndex | compress.py:82-111 | the index is empty exactly when there are no entries, and holds at least one full record per entry |
| Compress.HeaderOffset | compress.py:120 | the extended header offset `save` records: the given value, else 16 |
| Compress.IndexRel | compress.py:121 | the index offset relative to the extended header that `save` records: the given value, else 24 |
| Compress.RootCount | compress.py:122 | the root count `save` records: the given value, else 0 |
| Compress.Unknown1 | compress.py:123 | the first unknown word `save` records: the given value, else 0 |
| Compress.Unknown2 | compress.py:124 | the second unknown word `save` records: the given value, else 0 |
| Compress.Save | compress.py:113-152 | the saved file is the two headers, then the compressed index at byte 40, then the data |
| RoundTrip.SaveHeader | compress.py:120-152 | with default offsets and at least one entry, the extractor reads the header at 16, with the index at 40 and the data right after it |
| RoundTrip.SaveEmptyRejected | compress.py:114-139 | a builder with no entries writes a file whose header the extractor rejects |
| RoundTrip.IndexRoundTrip | compress.py:82-111 | the extractor loads from a saved file one entry per builder entry, each with the same kind, name, attributes, padded time, child count or offset and sizes |
| RoundTrip.ExtractStored | depress.py:117-128 | bytes stored by the corrected rule extract to the raw file for every lossless codec |
| RoundTrip.PackLayout | compress.py:72-80 | corrected store rule (see Findings): after the loop, each file's slice of the data holds the bytes stored for that file's contents |
| RoundTrip.ExtractSaved | depress.py:110-128 | corrected store rule (see Findings): a file entry read back from a saved file extracts to the contents that were added |
| RoundTrip.PackRoundTrip | compress.py:174-191 | corrected store rule (see Findings): running the loop over any items, saving and loading gives one entry per kept item, the builder's entries restored, and every file extracting to its item's bytes |
| Finding.AsWrittenMisreads | compress.py:65-80 | as written, a file whose deflated form has its own length extracts as the deflated bytes |
| Finding.CorrectedRestores | compress.py:65-80 | with the corrected rule, the same file extracts as itself |
| Finding.AbcabcCounterexample | compress.py:65-80 | for "abcabc" and a lossless codec that deflates it to six bytes, the code as written gives back the six deflated bytes and the corrected one gives back "abcabc" |
| Decompiler.Latin1 | script/decompiler.py:97 | a character below 256 becomes its own code, any other becomes `?` |
| Decompiler.DigitCount | script/decompiler.py:70-73 | at most three digits are taken, all inside the text |
| Decompiler.DigitCountSpec | script/decompiler.py:71-73 | the digits taken are digits, and the run stops at a non-digit unless it reached the end or three digits |
| Decompiler.Scan | script/decompiler.py:67-98 | one step consumes at least one character and produces at most as many bytes as it consumed; its only error is a value above 255 |
| Decompiler.Decode | script/decompiler.py:63-99 | the decoded bytes are never longer than the text; the only error is a value above 255 |
| Decompiler.DecodeDecimalEscapes | script/decompiler.py:63-99 | the index loop gives the same result as the recursive reading of the text |
| Decompiler.ScanAt | script/decompiler.py:67-98 | one loop step at position i agrees with the recursive step on the rest of the text |
| Decompiler.DecimalEscape | script/decompiler.py:68-77 | a backslash with one to three digits gives one byte of that decimal value, or an error above 255; decoding resumes after the digits |
| Decompiler.KeptEscapeDecodes | script/decompiler.py:79-95 | backslash followed by n, r, t or backslash stays as those two bytes, and decoding resumes after both |
| Decompiler.LoneBackslash | script/decompiler.py:68-98 | a backslash at the end or before any other non-digit gives the backslash byte alone, and decoding resumes at the next character |
| Decompiler.Latin1All | script/decompiler.py:97 | text without escapes maps character by character to one byte each |
| Decompiler.PlainText | script/decompiler.py:97 | text without a backslash decodes to its Latin-1 bytes |
| Decompiler.EscapeRoundTrip | script/decompiler.py:63-77 | any byte string written in three-digit escapes decodes back to itself |
| Decompiler.ReplaceCRLF | script/decompiler.py:104 | replacing CR LF pairs never lengthens the text |
| Decompiler.ReplaceCR | script/decompiler.py:104 | replacing CR keeps the length and turns each CR into LF, leaving every other character alone |
| Decompiler.Normalize | script/decompiler.py:104 | the normalised text has no CR and is no longer than the input |
| Decompiler.NormalizeOnePass | script/decompiler.py:104 | the two replacements equal one left-to-right pass turning CR LF or a lone CR into LF |
| Decompiler.NormalizeNoCR | script/decompiler.py:104 | text without CR is left unchanged |
| Decompiler.NormalizeIdempotent | script/decompiler.py:104 | normalising twice is normalising once |
| Decompiler.NormalizeKeepsText | script/decompiler.py:104 | apart from line breaks, normalising keeps every character in order |

## Left out

- File I/O, `argparse`, JSON loading and dumping, printing, `mkdir` and the exit-on-error flow of both `main` functions. In the extractor, an index blob that does not inflate raises an uncaught `zlib.error` (depress.py:158) and ends the program with a traceback rather than the "Error:" message; the model reports it as `Failure(IndexInflateFailed)`, like the handled errors. The repacker's loop takes each file's bytes as an `Option` (None for a missing file), and the dumped JSON is the `Meta` datatype.
- Raw DEFLATE. It is a `Codec` parameter, and the round trips assume it is lossless (`Lossless`) and never empty (`NeverEmpty`); DEFLATE itself is not modelled.
- The Shift-JIS name decoding, the cp932 name encoding and its UTF-8 fallback. Names stay bytes, and the round trip requires zero-free names.
- `pathlib` beyond POSIX splitting. `LastComponent` splits at `/` and drops empty and `.` parts, as pathlib does. pathlib does not resolve `..`, and neither does the model.
- Meta.JoinPath: the model keeps a path as its list of names and prints it by joining them. pathlib would also print `.` for a path whose only names are empty or `.`; the model prints those names as they are.
- Depress.ParseEntries: a record's name becomes exactly one path component (depress.py:85). pathlib's `prefix / name` drops an empty or `.` name, splits a name at `/`, and restarts the path at a leading `/`; none of this is modelled. ParseNested and ParseShape, including "one level below the prefix", hold for the model's paths, which match pathlib's only when every name is non-empty, not `.` and slash-free.
- Compress.Pack: runs the corrected AddFile; the loop with AddFileAsWritten is not modelled. Finding.AsWrittenMisreads shows the as-written rule on a single file.
- `struct.pack` overflow exceptions. Values that must fit 32 or 64 bits are preconditions (`Fits`, `Savable`).
- Python's recursion limit. `ParseEntries` recurses without a depth bound.
- `run_unluac` (a Java subprocess) and the final `buf.decode(encoding)` of the decoded bytes. `DecodeDecimalEscapes` returns the bytes.
- Decompiler.DigitCount: `str.isdigit` also accepts non-ASCII digits such as `²`; only ASCII `0`–`9` count as digits here.
- Decompiler.Decode: an escape above 255 makes `bytearray.append` raise, and the decompiler does not catch it. The model returns `Failure(ByteOutOfRange)` for the whole text instead.
- Decompiler.EscapeRoundTrip: `Escape` is a reference encoder in the three-digit form a Lua decompiler writes. It is not part of the repository.
- `extract_file`'s final write of the payload to disk; `ExtractFile` returns the payload.

## Findings

| source | as written | input that shows it | evidently intended | confidence | as-written member | corrected member |
|---|---|---|---|---|---|---|
| compress.py:65-80 with depress.py:119 | `add_file` always stores the deflated bytes and records their length as the compressed size, while `extract_file` passes a payload through uninflated when compressed and uncompressed sizes are equal | a file whose raw DEFLATE stream is exactly as long as the file, such as `abcabc` (three literals and one back-reference in one fixed-Huffman block: 46 bits, six bytes) | a file extracts to its own bytes: store the raw bytes when deflating does not change the length, which the extractor then passes through | medium, not executed | Finding.AsWrittenMisreads, Finding.AbcabcCounterexample | Compress.AddFile, Finding.CorrectedRestores |
