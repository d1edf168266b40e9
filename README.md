# libmobi loader and mobitool conversion core, in Dafny

This project models the part of libmobi that reads a Mobipocket/KF8 book from a
memory buffer, and the `mobitool` code that turns the loaded book into an EPUB
archive or dumps its parts, cover and embedded source into directories.

The loader reads the book from a `MEMORY_FILE` cursor (`mread`, `mseek`,
`mtell`). It reads:

- the 78-byte Palm database header;
- the list of 8-byte record-info entries;
- each record's data, whose size is the gap to the next record's offset, or the
  rest of the file for the last record.

It then parses record 0:

- the PalmDOC header;
- the MOBI header, read through a window of its declared length, with the KF8
  fields chosen by version 8;
- the EXTH header with its records;
- for a hybrid KF7/KF8 file, record 0 of the KF8 part after the boundary record.

Beside the loader, the project models:

- the sizes of the trailing entries of text records;
- the HUFF and CDIC records of the Huffman dictionary;
- the FDST section table.

The tool's side is modelled as follows:

- `create_epub` packs the reconstructed parts into a ZIP archive in a fixed
  order.
- `dump_rawml_parts`, `dump_cover` and `dump_embedded_source` write files
  through helpers that can fail.
- `create_path` refuses a name that does not fit its buffer.
- `loadmemory` and `ConvertMobiToEpub` gate the reconstruction and the EPUB on
  the global options. `loadmemory` never calls the dump functions: they are
  modelled on their own. The parts option only reconstructs the parts, frees
  them and suppresses the EPUB.

Imperative code keeps its form:

- `MEMORY_FILE`, `MOBIBuffer`, `MOBIData`, `MOBIHuffCdic`, the ZIP writer, the
  file system and the option flags are classes.
- Their methods are proved against specification functions on the bytes and on
  the old state.
- The round trips, bounds and orderings that the code relies on are proved as
  lemmas about those functions.

Decoded structures are datatypes. The linked lists of the library (records,
EXTH records, parts) are sequences in list order.

Names of the code outside the model that the model takes as parameters:

- `mobi_is_mobipocket`, `mobi_get_kf8boundary_seqnumber`, `mobi_get_kf8offset`,
  `mobi_get_fdst_record_number`, `mobi_is_replica`, `mobi_is_hybrid`;
- `mobi_parse_rawml`, `mobi_get_filemeta_by_type`, `mobi_get_embedded_source`,
  `mobi_get_embedded_log`;
- the EXTH cover lookup and the first resource record number;
- which call of the ZIP writer or of the file-system helpers fails.

The byte readers of `MOBIBuffer` (buffer.c) are modelled on the library's
documented behaviour:

- a read past `maxlen` returns zero, sets the error flag and leaves the offset;
- `dup32` and `dup16` give no value there;
- `setpos` refuses a position past `maxlen`;
- the backward varlen read takes up to four bytes and stops at a byte with the
  high bit set.

## Model

| member | source | states |
|---|---|---|
| MemFile.MemoryFile.Read | src/read.c:22-32 | at most `length` bytes are copied, fewer at the end of the buffer; the bytes are the buffer's from the old position; the position advances by the count returned |
| MemFile.MemoryFile.Seek | src/read.c:34-61 | returns 0 and moves the cursor exactly when the target lies within the buffer; SEEK_END counts the offset back from the end; otherwise returns 1 and leaves the position |
| MemFile.MemoryFile.Tell | src/read.c:63-66 | returns the current position, which always lies within the buffer |
| MemFile.MemoryFile.constructor | mobiconvert/mobitool.c:805-808 | the memory file starts at position 0 over the whole buffer |
| MemFile.SeekTarget | src/read.c:34-61 | a seek lands inside the buffer or fails; an unknown origin always fails |
| MemFile.SeekCurUndone | src/read.c:43-50 | a relative seek is undone by the opposite relative seek |
| Pdb.DecodePdbHeader | src/read.c:147-173 | the 78 header bytes decode into a well-formed header: a 32-byte name, then attributes, version, times, offsets, type, creator, uid, next record and record count, big-endian |
| Pdb.PdbHeaderRoundTrip | src/read.c:147-173 | decoding an encoded header gives the header back |
| Pdb.PdbHeaderEncodes | src/read.c:147-173 | encoding a decoded header gives the 78 bytes back: every byte is read |
| Pdb.DecodeRecordInfo | src/read.c:266-271 | a record-info entry gives a 32-bit offset, the attributes and a 24-bit uid from one byte and a 16-bit word |
| Pdb.Uid24 | src/read.c:268-270 | the uid is `h << 16 \| l`: the high byte and the low word are recovered from it |
| Pdb.RecordInfoRoundTrip | src/read.c:266-271 | decoding an encoded record-info entry gives it back |
| Pdb.RecordInfoEncodes | src/read.c:266-271 | encoding a decoded entry gives its 8 bytes back |
| Pdb.GapSize | src/read.c:341-343 | the size between two offsets is their difference modulo 2^32, as the 32-bit subtraction wraps |
| Loader.MobiData.Init | mobiconvert/mobitool.c:793 | a fresh structure holds no header, no records and no KF8 part, as `mobi_init`'s result is assumed to |
| Loader.PdbHeaderAt | src/read.c:141-145 | the header is present exactly when 78 bytes remain from the position |
| Loader.LoadPdbHeader | src/read.c:126-176 | SUCCESS stores the decoded header; a short read is DATA_CORRUPT and leaves the structure; the cursor advances by what was read |
| Loader.RecListSpec | src/read.c:232-275 | the list reads SUCCESS exactly when all `rec_count` entries fit; the cursor then moves past them and the list is the decoded entries, with one empty record when the count is zero; a short entry is DATA_CORRUPT with the cursor at the end |
| Loader.LoadRecList | src/read.c:232-275 | the record list, state and cursor the loop leaves are those of the specification |
| Loader.ListAfterNext | src/read.c:255-271 | each turn appends the decoded entry; the first turn fills the record allocated before the loop |
| Loader.InfoRecordsAt | src/read.c:246-271 | entry `j` is decoded from bytes `pos + 8j` on |
| Loader.RecordUidsBounded | src/read.c:268-270 | every uid read is below 2^24 |
| Loader.RecordSize | src/read.c:338-352 | a record's size is the wrapped gap to the next offset; the last record runs to the end of the file and has no size when its offset is not inside the file |
| Loader.RecDataSpec | src/read.c:401-418 | the data are present exactly when the seek and the whole read succeed, and are then the record's bytes |
| Loader.LoadRecData | src/read.c:401-418 | the data read and the cursor left are those of the specification |
| Loader.LoadStep | src/read.c:336-364 | one turn of the record loop: SUCCESS keeps the list length |
| Loader.LoadRecs | src/read.c:330-366 | the loop over the records ends in SUCCESS or DATA_CORRUPT and keeps the list length on success |
| Loader.LoadOne | src/read.c:336-364 | one record's size and data are set as the specification says, or the list is freed on a read failure |
| Loader.LoadRec | src/read.c:330-366 | the records, state and cursor the loop leaves are those of the specification |
| Loader.LoadRecsStop | src/read.c:346-362 | after the first failure the remaining records change nothing |
| Loader.LoadRecsLoaded | src/read.c:330-366 | on success every record holds its size and exactly its bytes of the file, and nothing else changed |
| Loader.LoadStepLoads | src/read.c:355-363 | one successful turn loads exactly the next record |
| Loader.LastRecordInside | src/read.c:346-350 | a last record whose offset is not inside the file makes the load DATA_CORRUPT |
| Loader.LoadFileSpec | src/read.c:1143-1203 | a short header is DATA_CORRUPT; an unknown type is FILE_UNSUPPORTED exactly; a zero record count is DATA_CORRUPT; the header stored is the one decoded |
| Loader.SupportedType | src/read.c:1153-1156 | only the database types `BOOK` and `TEXt` are read |
| Loader.Hybrid | src/read.c:1179-1181 | a file is hybrid when record 0 has an EXTH header and the boundary is set and below UINT32_MAX |
| Loader.StoreHeaders | src/read.c:1169-1200 | a failed record 0 parse returns its code; otherwise its headers are stored, and a hybrid file also stores the boundary and the KF8 part's headers with that parse's code |
| Loader.ParseHeaders | src/read.c:1169-1200 | a failed record 0 parse is returned; on success the headers are record 0's; a hybrid book, one with EXTH and a boundary below UINT32_MAX, also gets the boundary and the KF8 headers from record `boundary + 1`, and that parse's code |
| Loader.LoadHeaders | src/read.c:1169-1200 | the state and the code are those of the header specification |
| Loader.LoadFileMemory | src/read.c:1143-1203 | the code and the whole new state are those of the load specification |
| Loader.LoadFileRecords | src/read.c:1153-1172 | a successful load had a supported type, records, a complete record list, every record loaded from its bytes and a parsed record 0 |
| Loader.TruncatedListRejected | src/read.c:252-256 | a record list that runs past the buffer makes the load DATA_CORRUPT |
| Record0.ParseRecord0Spec | src/read.c:645-699 | SUCCESS exactly when record 0 exists, has at least 16 bytes and a known compression; the PalmDOC header is decoded from it; the MOBI and EXTH headers are parsed only for Mobipocket files; a failure leaves nothing |
| Record0.KnownCompression | src/read.c:674-676 | the compression types accepted: none, PalmDOC and HUFF/CDIC |
| Record0.Record0HeaderAt | src/read.c:672-688 | the PalmDOC header fields are the big-endian words at bytes 0, 4, 8, 10, 12 and 14; bytes 2 and 3 are skipped |
| Record0.ParseRecord0 | src/read.c:645-699 | the result is that of the specification |
| Record0.HeadersAfter | src/read.c:689-696 | an EXTH header is only ever parsed after a MOBI header |
| Record0.Record0HeaderRoundTrip | src/read.c:672-688 | the encoded PalmDOC header decodes back, whatever follows it |
| Record0.Record0Parses | src/read.c:672-688 | a record starting with an encoded header of known compression parses to that header |
| Record0.MissingMobiHeaderIgnored | src/read.c:689-698 | a record 0 without the MOBI magic still parses with SUCCESS and without MOBI or EXTH headers |
| MobiHeader.ParseMobiSpec | src/read.c:493-634 | SUCCESS exactly when eight bytes are left and the magic is "MOBI"; the magic and the declared length are kept |
| MobiHeader.ParseMobiHeader | src/read.c:493-634 | the header and the buffer state left are those of the specification |
| MobiHeader.ParseMobiBody | src/read.c:512-633 | the fields read inside the length window are those of the specification; the full name is read exactly when its offset and length are present |
| MobiHeader.MobiBodyOf | src/read.c:512-633 | the fields come from the window; the full name is present exactly when both its offset and its length are |
| MobiHeader.ParseAfterMagic | src/read.c:504-517 | after the magic, parsing is reading the body with the declared length |
| MobiHeader.HeaderLength | src/read.c:514 | a zero declared length is read as 24 bytes |
| MobiHeader.LeftLength | src/read.c:516 | the window length is `header_length + offset - 8`, in 64-bit arithmetic |
| MobiHeader.WindowEnd | src/read.c:516-517 | the window ends at the smaller of the buffer end and the declared length |
| MobiHeader.Window | src/read.c:516-517 | the window starts at the cursor and never reaches past the buffer limit |
| MobiHeader.FieldsOf | src/read.c:518-615 | the fields are read in on-disk order within the window |
| MobiHeader.FieldsPresentFront | src/read.c:518-572 | with a full window, the type, encoding, uid, version, the 23 index words and the DRM words sit at their offsets |
| MobiHeader.FieldsPresentBack | src/read.c:573-615 | with a full window, the text range, the section words, `extra_flags` and the tail sit at their offsets, and the cursor ends at the window end |
| MobiHeader.TextRangeOf | src/read.c:574-579 | KF8 reads `fdst_index` and no text indices; KF7 reads the two 16-bit text indices and no FDST index |
| MobiHeader.FullNameOf | src/read.c:617-632 | the name is read only when offset and length are present, is at most the title maximum long, and the cursor is restored |
| MobiHeader.ReadLeading | src/read.c:518-539 | the leading fields are those of the specification |
| MobiHeader.ReadIndices | src/read.c:544-566 | the 23 index words are the `dup32` reads |
| MobiHeader.ReadDrm | src/read.c:567-573 | the DRM words are those of the specification |
| MobiHeader.ReadTextRange | src/read.c:574-579 | the text range is that of the specification |
| MobiHeader.ReadSections | src/read.c:580-590 | the 11 section words are the `dup32` reads |
| MobiHeader.ReadTail | src/read.c:591-610 | the flags and tail words are those of the specification |
| MobiHeader.ReadFullName | src/read.c:617-632 | the name and the cursor are those of the specification |
| MobiHeader.ReadFields | src/read.c:518-615 | the header fields read are those of the specification |
| MobiHeader.LeadingPresent | src/read.c:518-539 | with 16 bytes left, the leading fields are the words at the cursor |
| MobiHeader.DrmPresent | src/read.c:567-573 | with 60 bytes left, the DRM words are the five after 32 skipped bytes |
| MobiHeader.TextRangePresent | src/read.c:574-579 | with 4 bytes left, the text range is the word at the cursor |
| MobiHeader.TailPresent | src/read.c:591-610 | with 40 bytes left, the flags follow 2 fill bytes and nine words follow |
| MobiHeader.FrontPresent | src/read.c:518-572 | with 168 bytes left, the front of the header is the words at their offsets |
| MobiHeader.FrontEnd | src/read.c:518-572 | the front takes exactly 168 bytes |
| MobiHeader.BackPresent | src/read.c:574-610 | with 88 bytes left, the back of the header is the words at their offsets |
| Exth.ParseExthSpec | src/read.c:427-484 | the result is SUCCESS or DATA_CORRUPT, the records are present exactly on success, and on success the limit of the buffer is restored |
| Exth.ReadExthHead | src/read.c:434-436 | the magic, the declared length and the record count are read from the 12 header bytes, and the limit is kept |
| Exth.HeadPasses | src/read.c:437-442 | the sanity check: the magic, the end of the declared length within the buffer, and a count from 1 to 1024 |
| Exth.ExthRecordsFrom | src/read.c:451-481 | the loop over the remaining records keeps the buffer valid and its limit; None when a record's data would cross the limit |
| Exth.ExthPass | src/read.c:452-480 | one pass reads a record, reusing the node of a skipped one, then the remaining passes |
| Exth.ParseExtHeader | src/read.c:427-484 | the records and the buffer state are those of the specification |
| Exth.ReadExthRecords | src/read.c:451-481 | the loop's records and cursor are those of the specification |
| Exth.ReadRecord | src/read.c:461-479 | a record read keeps the buffer valid and its limit unchanged |
| Exth.ExthLimit | src/read.c:435-444 | the window is `exth_length + offset` in 64-bit arithmetic, with `exth_length = length - 12` wrapping for short lengths |
| Exth.ExthBody | src/read.c:443-482 | with the limit narrowed to the EXTH window, the records are present exactly on success, and the limit is then restored |
| Exth.DataSize | src/read.c:463 | a record's data size is its declared size minus 8, in 32-bit arithmetic |
| Exth.ReadRecordByTakes | src/read.c:461-479 | a record reads its tag and size; size 0 is skipped; data past the window is a failure; otherwise its data is read |
| Exth.Kept | src/read.c:452-460 | a skipped record's slot is reused by the next record |
| Exth.ParseExthSuccess | src/read.c:434-442 | a parsed EXTH had the magic, a declared length whose end, computed in size_t, fits the buffer, a record count from 1 to the maximum and at most that many well-formed records |
| Exth.ShortDeclaredLengthFails | src/read.c:435-442 | a declared length below 12 wraps the length and is DATA_CORRUPT |
| Exth.KeptFilled | src/read.c:452-460 | after dropping a skipped last record, every record kept has data |
| Exth.RecordsFromShape | src/read.c:451-481 | every record read has data of its declared size, and there are at most as many records as turns |
| Exth.PassShape | src/read.c:451-481 | the same for the turn that may drop a skipped record |
| Exth.ReadRecordShape | src/read.c:461-479 | a record's data has its declared size |
| Exth.AppendShape | src/read.c:473-480 | appending a record with data keeps the list well-formed |
| Exth.RecordAtFromBytes | src/read.c:461-479 | an encoded record lies at its offset |
| Exth.EncodedLaidOut | src/read.c:451-481 | encoded records lie one after another |
| Exth.ReadLaidOut | src/read.c:461-479 | reading a record that lies at the cursor gives it and moves past it |
| Exth.StepLaidOut | src/read.c:451-481 | one turn over a laid-out record appends it |
| Exth.RecordsFromLaidOut | src/read.c:451-481 | the loop over laid-out records appends them all |
| Exth.FirstRecordFills | src/read.c:450-481 | the loop from the calloc'd first record gives exactly the laid-out records |
| Exth.ExthHeadEncoded | src/read.c:434-436 | the magic, length and count are read from their encoding |
| Exth.ExthBlockParts | src/read.c:427-484 | an encoded EXTH block is laid out as its header and records |
| Exth.ExthLaidParses | src/read.c:427-484 | a laid-out EXTH block parses to its records |
| Exth.ExthRoundTrip | src/read.c:427-484 | an encoded EXTH block of records with data parses back to those records, with the cursor after the block |
| Trailing.ExtraSizeSpec | src/read.c:708-737 | the trailing size is at least the sum of the entry sizes, and equal to it when flag bit 0 is clear |
| Trailing.AtLastByte | src/read.c:716 | the cursor at the record's last byte; for an empty record the wrapped position is refused |
| Trailing.SkipEntry | src/read.c:718-726 | one entry skipped backwards: the cursor only moves back and stays ready for the next backward read |
| Trailing.Skips | src/read.c:717-728 | the entries of the set bits from 15 down to 1, skipped in turn; the cursor only moves back |
| Trailing.MbExtraSizeSpec | src/read.c:746-774 | the multibyte size is nonzero exactly when flag bit 0 is set, and at most 4 |
| Trailing.ExtraSize | src/read.c:708-737 | the size computed is that of the specification |
| Trailing.MbExtraSize | src/read.c:746-774 | the size computed is that of the specification |
| Trailing.SkipEntries | src/read.c:717-728 | the loop over flag bits 15 to 1 leaves the cursor and the sum of the specification |
| Trailing.SkipOne | src/read.c:720-726 | one entry is skipped as the specification says |
| Trailing.ExtraSizeSplits | src/read.c:708-774 | the trailing size is the entries' sum plus the multibyte size |
| Trailing.EntrySkipped | src/read.c:722-725 | an entry whose last byte holds its size is skipped whole |
| Trailing.SkipsEntries | src/read.c:717-728 | a run of entries, one per set flag bit, is skipped back to its front, summing their sizes |
| Trailing.ExtraSizeOfLayout | src/read.c:708-774 | for text, a multibyte byte and one entry per set bit, the sizes are the entries' sum plus `(mb & 3) + 1` when bit 0 is set |
| Trailing.MultibyteSize | src/read.c:730-734 | the multibyte size is from 1 to 4 |
| HuffCdic.HuffSpec | src/read.c:783-827 | HUFF parses exactly when the magic is right, the header is long enough and both tables fit; table 1 has 256 words; the code tables start with 0 and 0xFFFFFFFF |
| HuffCdic.Table1At | src/read.c:806-809 | the lookup table is the 256 big-endian words at `data1_offset` |
| HuffCdic.Shl32 | src/read.c:822-823 | `x << k` on a uint32_t, that is `x * 2^k` modulo 2^32 |
| HuffCdic.MinCodeAt | src/read.c:819-822 | entry `i` of the minimum-code table is the `i`-th stored minimum shifted left by `32 - i` |
| HuffCdic.MaxCodeAt | src/read.c:819-823 | entry `i` of the maximum-code table is the successor of the `i`-th stored maximum shifted left by `32 - i`, less one, in 32 bits |
| HuffCdic.MinCodes | src/read.c:816-824 | the minimum-code table has 33 entries, entry 0 being 0 |
| HuffCdic.MaxCodes | src/read.c:816-824 | the maximum-code table has 33 entries, entry 0 being 0xFFFFFFFF |
| HuffCdic.ParseHuff | src/read.c:783-827 | the tables written are those of the specification |
| HuffCdic.ReadTable1 | src/read.c:806-809 | table 1 is the 256 big-endian words at `data1_offset` |
| HuffCdic.ReadCodes | src/read.c:816-824 | the min and max code tables are the shifted pairs at `data2_offset` |
| HuffCdic.ReadCodePair | src/read.c:819-824 | one pair is shifted as the specification says |
| HuffCdic.CodeTablesLowBits | src/read.c:822-823 | entry `i` of the min table has its low `32 - i` bits clear and of the max table set |
| HuffCdic.CodeLowBits | src/read.c:822-823 | the 32-bit shifts clear, and the shift minus one sets, the low bits |
| HuffCdic.CdicSpec | src/read.c:837-925 | on success: the magic was right; the stored code length and index count are the record's words at bytes 12 and 8; the code length is from 1 to 16 and agrees with earlier CDIC records, as does the index count; the index advances by the remaining count capped at `2^code_length`; the symbols are the record after its header; a failure keeps the symbols |
| HuffCdic.CdicRejectsMismatch | src/read.c:855-864 | a CDIC record whose count or code length disagrees with the earlier ones is DATA_CORRUPT and changes nothing |
| HuffCdic.CdicRejectsBadHeader | src/read.c:865-875 | the first CDIC record is DATA_CORRUPT when its code length is 0 or above 16 or its index count is 0; a bad code length changes nothing, a zero count is caught after both values are stored; the symbols are kept either way |
| HuffCdic.CdicIndex | src/read.c:891-925 | the index phase advances by the capped count and stores the symbols |
| HuffCdic.CdicEntries | src/read.c:902-914 | the index loop advances by at most `count` entries, two bytes each, and changes nothing else |
| HuffCdic.EntryStep | src/read.c:903-913 | an entry is stored exactly when its symbol's length lies inside the record |
| HuffCdic.EntryStepByTakes | src/read.c:903-912 | the check made by the buffer reads is the one of the specification |
| HuffCdic.ReadEntry | src/read.c:903-913 | one entry is read as the specification says |
| HuffCdic.ReadEntries | src/read.c:902-914 | the index loop reads as the specification says |
| HuffCdic.ReadIndex | src/read.c:891-925 | the index phase reads as the specification says |
| HuffCdic.ParseCdic | src/read.c:837-925 | the dictionary state and the code are those of the specification |
| HuffCdic.IndexWordsAt | src/read.c:902-914 | entry `j` of the index is the word at `16 + 2j` |
| HuffCdic.EntriesKeep | src/read.c:913 | offsets outside the range read are unchanged |
| HuffCdic.EntriesRead | src/read.c:902-914 | a completed loop stored every word it read |
| HuffCdic.IndexReadsWords | src/read.c:891-925 | a successful index phase stored the words at the header's end and kept the earlier ones |
| HuffCdic.CdicReadsIndex | src/read.c:837-925 | a successful CDIC record stored its index words and kept the earlier ones |
| HuffCdic.CdicRecords | src/read.c:969-981 | the CDIC loop needs every record it reads, and on success leaves a dictionary with entries and a valid code length |
| HuffCdic.CdicRecordsStop | src/read.c:975-979 | after the first failing CDIC record the loop changes nothing |
| HuffCdic.CdicRecordsNext | src/read.c:975-980 | each turn parses the next record with its number |
| HuffCdic.CdicRecordsSymbols | src/read.c:969-981 | the symbols are those of each record in turn |
| HuffCdic.CdicRecordsKeep | src/read.c:969-981 | the symbols of records not yet read are unchanged |
| HuffCdic.SymbolsFromStep | src/read.c:921 | one more record adds its symbols |
| HuffCdic.HuffDicSpec | src/read.c:934-987 | no MOBI header, HUFF index or count is DATA_CORRUPT; otherwise the parse starts at the index plus the KF8 offset |
| HuffCdic.HuffDicAt | src/read.c:941-986 | on success the count was from 2 to the maximum, the records existed, the HUFF record was long enough and parsed; there is one symbol block per CDIC record, and the whole index was read |
| HuffCdic.HuffDicSymbols | src/read.c:961-981 | the symbol blocks are those of the CDIC records after the HUFF record |
| HuffCdic.ParseHuffDic | src/read.c:934-987 | the tables, dictionary and code are those of the specification |
| HuffCdic.ParseHuffDicAt | src/read.c:941-986 | the parse from the index is that of the specification |
| HuffCdic.ParseCdics | src/read.c:969-981 | the CDIC loop leaves the state of the specification |
| HuffCdic.ParseNextCdic | src/read.c:975-980 | one turn of the CDIC loop is that of the specification |
| Fdst.FdstSpec | src/read.c:1014-1062 | SUCCESS exactly with the magic, data offset 12, a count above 1 equal to the MOBI header's, and room for the sections; the sections are the pairs after the header |
| Fdst.FdstOfFile | src/read.c:996-1008 | a missing FDST record number or record is DATA_CORRUPT |
| Fdst.ParseFdst | src/read.c:1009-1062 | the code and the section start and end arrays are those of the specification |
| Fdst.ReadSections | src/read.c:1055-1061 | start `j` and end `j` are the words at `12 + 8j` |
| Fdst.SectionsAtIndex | src/read.c:1055-1061 | section `j` is read from `o + 8j` |
| Fdst.SectionsRoundTrip | src/read.c:1055-1061 | encoded sections read back |
| Fdst.FdstRoundTrip | src/read.c:1014-1062 | an encoded FDST record with more than one section parses back to its sections |
| Fdst.FdstRejectsCount | src/read.c:1018-1025 | a count that differs from the MOBI header's is DATA_CORRUPT |
| Fdst.SplitSections | src/read.c:1055-1061 | the start and end arrays are the section table's columns |
| Names.Pad5 | mobiconvert/mobitool.c:452 | `%05zu` gives at least five decimal digits |
| Names.Pad5Value | mobiconvert/mobitool.c:452 | the padded digits read back as the number |
| Names.Pad5Width | mobiconvert/mobitool.c:452 | numbers below 100000 take exactly five characters |
| Names.DigitsValue | mobiconvert/mobitool.c:452 | the decimal digits read back as the number |
| Names.ZeroPadValue | mobiconvert/mobitool.c:452 | padding with zeroes keeps the value |
| Names.Truncated | mobiconvert/mobitool.c:452 | `snprintf` keeps at most `size - 1` characters, a prefix of its output |
| Names.CreatePath | mobiconvert/mobitool.c:253-273 | the name is `dir + basename + suffix` exactly when it fits the buffer with its terminator, else an error |
| Names.CreatePathWhole | mobiconvert/mobitool.c:259-271 | an accepted name is never truncated |
| Names.NumberedNameInjective | mobiconvert/mobitool.c:452 | two numbered names with one prefix are equal only for the same number and extension |
| Parts.FlowTail | mobiconvert/mobitool.c:460-465 | the flow parts after the first, the raw markup that is skipped |
| Parts.WrittenPartsMembers | mobiconvert/mobitool.c:595 | the written resources are exactly the nonempty ones |
| Epub.ZipWriter.InitHeap | mobiconvert/mobitool.c:538-542 | the writer becomes active exactly when the call succeeds |
| Epub.ZipWriter.constructor | mobiconvert/mobitool.c:535-536 | the writer starts inactive, with no entries and no calls made |
| Epub.ZipWriter.AddMem | mobiconvert/mobitool.c:544-549 | a successful call adds the entry, a failed one adds nothing |
| Epub.ZipWriter.FinalizeHeap | mobiconvert/mobitool.c:616-625 | a successful finalize hands out the archive of the entries added |
| Epub.ZipWriter.End | mobiconvert/mobitool.c:631-635 | ending deactivates the writer and can fail |
| Epub.CreateEpubSpec | mobiconvert/mobitool.c:529-637 | a NULL rawml is an ERROR, empty part lists are not; SUCCESS exactly when no call fails; the archive is handed out exactly when all adds and the finalize succeeded, and is then the planned entries |
| Epub.CreateEpub | mobiconvert/mobitool.c:529-637 | the code and the archive are those of the specification |
| Epub.EpubPlan | mobiconvert/mobitool.c:544-611 | the archive has the two fixed entries, one per markup part, one per flow part after the first and one per nonempty resource |
| Epub.MimetypeEntry | mobiconvert/mobitool.c:544 | the first entry is `mimetype`, holding the media type without terminator, stored uncompressed |
| Epub.ContainerEntry | mobiconvert/mobitool.c:550 | the second entry is `META-INF/container.xml` with the container document, compressed |
| Epub.PartEntries | mobiconvert/mobitool.c:557-588 | one compressed entry per markup or flow part, in list order |
| Epub.ResourceName | mobiconvert/mobitool.c:596-601 | the package document is `OEBPS/content.opf`, any other resource `OEBPS/resource%05zu.ext` |
| Epub.ResourceEntries | mobiconvert/mobitool.c:589-611 | one compressed entry per resource with data, in list order; empty resources are skipped |
| Epub.EpubPlanHead | mobiconvert/mobitool.c:544-555 | the first entry is the stored `mimetype`, then `META-INF/container.xml` |
| Epub.MarkupEntryAt | mobiconvert/mobitool.c:557-571 | markup part `j` is entry `2 + j`, named `OEBPS/part%05zu.ext` |
| Epub.FlowEntryAt | mobiconvert/mobitool.c:572-588 | flow part `j + 1` is the entry after the markup, named `OEBPS/flow%05zu.ext` |
| Epub.ResourceEntryAt | mobiconvert/mobitool.c:589-611 | nonempty resource `j` is the entry after the flow parts, named `OEBPS/content.opf` for the package document |
| Epub.PartEntriesAt | mobiconvert/mobitool.c:557-588 | entry `j` of a part list is that of part `j` |
| Epub.ResourceEntriesAt | mobiconvert/mobitool.c:589-611 | entry `j` of the resource entries is that of the `j`-th nonempty resource |
| Epub.MimetypePayload | mobiconvert/mobitool.c:544 | the media type entry holds exactly the 20 bytes of `application/epub+zip`, without terminator |
| Epub.MimetypeOnlyFirst | mobiconvert/mobitool.c:544-611 | no entry but the first is named `mimetype`, and only it is stored uncompressed |
| Epub.PartEntriesInOebps | mobiconvert/mobitool.c:557-588 | every part entry's name starts with `OEBPS/`, even when truncated, and it is compressed |
| Epub.ResourceEntriesInOebps | mobiconvert/mobitool.c:589-611 | every resource entry's name starts with `OEBPS/`, even when truncated, and it is compressed |
| Epub.NoPartsArchive | mobiconvert/mobitool.c:529-612 | a reconstruction with no parts gives SUCCESS and an archive of just the two fixed entries |
| Epub.PartNamesDistinct | mobiconvert/mobitool.c:557-571 | parts with different numbers get different entry names, when not truncated |
| Epub.EpubWithoutFailure | mobiconvert/mobitool.c:529-637 | with no failing call the archive is the planned one and the code SUCCESS |
| Epub.EpubFailureLeavesNothing | mobiconvert/mobitool.c:538-621 | a failing init, add or finalize is an ERROR with no archive |
| Epub.AddParts | mobiconvert/mobitool.c:557-588 | the part loop adds the planned entries up to the first failure |
| Epub.AddResources | mobiconvert/mobitool.c:589-611 | the resource loop adds the nonempty resources up to the first failure |
| Epub.AddResource | mobiconvert/mobitool.c:590-610 | one resource: added when nonempty, as `OEBPS/content.opf` for the package document |
| Epub.ResourcesRan | mobiconvert/mobitool.c:589-611 | a loop over the first resources that stopped, at the end or at a failure, is the run over all of them |
| Epub.AddHead | mobiconvert/mobitool.c:544-555 | the two fixed entries are added up to the first failure |
| Epub.AddAll | mobiconvert/mobitool.c:544-611 | all planned entries are added in order up to the first failure |
| Epub.Finish | mobiconvert/mobitool.c:612-636 | the finalize and end give the code and archive of the specification |
| Epub.ResourcesPrefix | mobiconvert/mobitool.c:589-611 | the entries of the first resources are a prefix of all resource entries |
| Output.Run | mobiconvert/mobitool.c:409-514 | helper calls run in order and the first failure stops the function |
| Output.RunAppend | mobiconvert/mobitool.c:409-514 | running two lists of steps is running one after the other |
| Output.RunStopped | mobiconvert/mobitool.c:409-514 | after a failure nothing more is done |
| Output.RunAll | mobiconvert/mobitool.c:409-514 | without refusals or failures every helper call is made, in order |
| Output.RunRefused | mobiconvert/mobitool.c:489-495 | a refused name ends the function with an ERROR |
| Output.FileSink.Perform | mobiconvert/mobitool.c:453 | a helper call is counted and logged when it succeeds |
| Dump.DumpPartsSteps | mobiconvert/mobitool.c:409-514 | a NULL rawml is an ERROR, empty part lists are not; otherwise the markup directory, then the EPUB layout or the parts in it |
| Dump.MetaInfSteps | mobiconvert/mobitool.c:422-436 | the EPUB layout makes `META-INF`, then writes `container.xml` and `mimetype` into it |
| Dump.EpubLayoutSteps | mobiconvert/mobitool.c:421-445 | `META-INF` and its two files, then `OEBPS` and every part in it; a subdirectory name that does not fit is refused |
| Dump.ContentSteps | mobiconvert/mobitool.c:446-512 | the markup parts, the flow parts after the first, then the resources |
| Dump.PartStep | mobiconvert/mobitool.c:451-455 | a markup or flow part is written into the directory as `prefix%05zu.ext` |
| Dump.PartSteps | mobiconvert/mobitool.c:447-474 | one write per part, in list order |
| Dump.ResourceFileName | mobiconvert/mobitool.c:483-488 | in the EPUB layout the package document is `content.opf`; other resources are `resource%05zu.ext` |
| Dump.ResourceStep | mobiconvert/mobitool.c:480-508 | an empty resource is skipped, a full path too long for the buffer is refused, any other resource is written to that path |
| Dump.ResourceSteps | mobiconvert/mobitool.c:475-512 | one step per resource, in list order |
| Dump.NoPartsOnlyMakesDir | mobiconvert/mobitool.c:409-514 | with no parts and no EPUB layout only the markup directory is made, and the dump succeeds when that call does |
| Dump.DumpRawmlParts | mobiconvert/mobitool.c:409-514 | the code and the file-system state are those of running the steps |
| Dump.WriteEpubLayout | mobiconvert/mobitool.c:421-445 | the layout is `META-INF` with the container and media type, then `OEBPS`, up to the first failure |
| Dump.WriteMetaInf | mobiconvert/mobitool.c:422-436 | `META-INF` is made, then the container document and the media type are written into it, up to the first failure |
| Dump.WriteOebps | mobiconvert/mobitool.c:438-445 | `OEBPS` is made and all parts are written into it, up to the first failure |
| Dump.WriteContents | mobiconvert/mobitool.c:446-512 | markup, flow after the first, then resources, up to the first failure |
| Dump.WriteParts | mobiconvert/mobitool.c:447-474 | each part is written as `prefix%05zu.ext` into the directory |
| Dump.WriteResources | mobiconvert/mobitool.c:475-512 | empty resources are skipped, a full path that does not fit is an ERROR, the rest are written |
| Dump.WriteResource | mobiconvert/mobitool.c:480-510 | one resource: skipped when empty, an ERROR when its full path does not fit, else written |
| Dump.SubdirPath | mobiconvert/mobitool.c:424-441 | a subdirectory is `parent + separator + name`, refused when it does not fit |
| Dump.ResourcesWritten | mobiconvert/mobitool.c:475-512 | when the names fit, the resource loop refuses nothing and writes exactly the nonempty resources, in order |
| Dump.ResourcesFit | mobiconvert/mobitool.c:489-495 | when every name fits, no resource is refused |
| Dump.PartNameUnderOebps | mobiconvert/mobitool.c:452 | below `OEBPS/`, a dumped part has the name of its EPUB entry |
| Dump.ResourceNameUnderOebps | mobiconvert/mobitool.c:483-488 | below `OEBPS/`, a dumped resource has the name of its EPUB entry, `content.opf` included |
| Dump.MimetypeInMetaInf | mobiconvert/mobitool.c:428-436 | the media-type file is written into `META-INF`, next to the container |
| Dump.CoverExtension | mobiconvert/mobitool.c:367-388 | jpg, gif, png or bmp by the first test that passes, else raw; png needs 8 bytes, bmp needs 6 and its size field equal to the record size |
| Dump.IsJpeg | mobiconvert/mobitool.c:367-375 | a JPEG cover starts with FF D8 FF |
| Dump.IsGif | mobiconvert/mobitool.c:368-378 | a GIF cover starts with `GIF8` |
| Dump.IsPng | mobiconvert/mobitool.c:369-381 | a PNG cover has at least 8 bytes and starts with the PNG signature |
| Dump.IsBmp | mobiconvert/mobitool.c:382-388 | a BMP cover has at least 6 bytes, starts with `BM` and its little-endian size field equals the record size |
| Dump.PngDetected | mobiconvert/mobitool.c:379-381 | an image starting with the PNG signature is saved as png |
| Dump.JpegDetected | mobiconvert/mobitool.c:373-375 | an image starting with FF D8 FF is saved as jpg |
| Dump.BmpDetected | mobiconvert/mobitool.c:382-388 | a bitmap whose header holds its own size is saved as bmp, one with another size as raw |
| Dump.CoverRecord | mobiconvert/mobitool.c:355-361 | the cover is the record at the first resource plus the EXTH cover offset |
| Dump.CoverSuffix | mobiconvert/mobitool.c:390-391 | the suffix fits its 12-byte buffer |
| Dump.CoverSteps | mobiconvert/mobitool.c:352-401 | a missing record or one under 4 bytes is an ERROR; else the cover is written to `dir + basename + "_cover." + ext` |
| Dump.DumpCover | mobiconvert/mobitool.c:352-401 | the cover record is looked up as `CoverRecord` says; the code and the file-system state are those of running the steps on it |
| Dump.SourceExtension | mobiconvert/mobitool.c:665-674 | `.epub` exactly when the archive has more than 58 bytes and the 28 after the local header are "mimetypeapplication/epub+zip", else `.zip` |
| Dump.EpubSourceDetected | mobiconvert/mobitool.c:665-674 | an archive whose first entry is the stored media type is named `.epub` |
| Dump.ShortSourceIsZip | mobiconvert/mobitool.c:669 | an archive of at most 58 bytes is named `.zip` |
| Dump.SourceSteps | mobiconvert/mobitool.c:646-721 | a failure to get the source is an ERROR, no source is SUCCESS; the source directory, the archive, then the log unless it fails or is empty |
| Dump.DumpEmbeddedSource | mobiconvert/mobitool.c:646-721 | the code and the file-system state are those of running the steps |
| Tool.Options.constructor | mobiconvert/mobitool.c:72-80 | `create_epub_opt`, `dump_parts_opt` and `split_opt` start off; `outdir_opt` is not declared in the file and is assumed to start off |
| Tool.LoadMemorySpec | mobiconvert/mobitool.c:789-890 | a load error is an ERROR with the flags unchanged; options are only ever cleared: EPUB for a Print Replica book, split for a book that is not hybrid |
| Tool.LoadRet | mobiconvert/mobitool.c:793-820 | the loader's code for the buffer, from a structure holding nothing |
| Tool.LoadBuffer | mobiconvert/mobitool.c:791-814 | the load over a fresh structure and a memory file at position 0 gives the loader's code |
| Tool.LoadMemory | mobiconvert/mobitool.c:789-890 | the code, the archive and the flags are those of the specification |
| Tool.ConvertMobiToEpub | mobiconvert/mobitool.c:900-907 | the EPUB and output-directory options are turned on, then the book is loaded |
| Tool.ConvertFlags | mobiconvert/mobitool.c:900-906 | the entry point runs with the EPUB and output-directory options on and the others in their initial state |
| Tool.ShortBufferRefused | mobiconvert/mobitool.c:811-820 | a buffer shorter than a database header is an ERROR |
| Tool.ConvertYieldsPlan | mobiconvert/mobitool.c:851-876 | a loadable, reconstructable book that is not a replica converts to the planned EPUB, `mimetype` first |
| Tool.ConvertReplicaYieldsNothing | mobiconvert/mobitool.c:824-827 | a Print Replica book converts to nothing, yet with SUCCESS |
| Tool.DumpPartsSuppressesEpub | mobiconvert/mobitool.c:870 | with the parts option on, no EPUB is built |
| Tool.ConvertSuccess | mobiconvert/mobitool.c:789-907 | the conversion succeeds exactly when the book loads and is a replica, or reconstructs and every ZIP call succeeds |

## Left out

- The code in buffer.c, util.c and common.c is not part of this model.
  - The `MOBIBuffer` readers follow the semantics stated above.
  - `mobi_is_mobipocket`, the KF8 boundary, the KF8 offset, the FDST record number, `mobi_is_replica`, `mobi_is_hybrid`, `mobi_parse_rawml` and the file-type table are parameters.
  - `make_directory`, `write_to_dir` and `write_file` are calls that succeed or fail.
  - `create_subdir` is assumed to form `parent + separator + name` and to check it against FILENAME_MAX.
- Memory allocation never fails in the model, so no path returns MALLOC_FAILED. NULL `MOBIData` and `FILE` arguments (INIT_FAILED, FILE_NOT_FOUND) cannot occur either.
- The `FILE *` loaders (`mobi_load_pdbheader`, `mobi_load_reclist`, `mobi_load_rec`, `mobi_load_recdata`, `mobi_load_file`, `mobi_load_filename`) are not modelled. They are the stream twins of the memory loaders.
- DRM is not modelled. The model stops before `mobi_drm_setkey` for encryption type 1.
- The model leaves out part of the hybrid KF8 link:
  - the cyclic `next->next` link, and the shared header, records and key of the KF8 part;
  - the swap to the KF8 part when `use_kf8` is set;
  - `mobi_parse_kf7`.

  The KF8 part is kept as its three headers.
- Loader.LoadRecList: a short record-info entry leaves the list allocated so far, as the source does. The model keeps the list of the entries read before it.
- HuffCdic.CdicSpec: the cursor left by a failed CDIC index turn is not stated. Only the dictionary state is.
- Fdst.FdstOfFile: the source dereferences `fdst_section_count` without a NULL check. The model requires the field to be present.
- Epub.CreateEpub: the ZIP byte layout, the output buffer's length and `LocalAlloc` are not modelled. The archive is the list of entries with their names, payloads and compression levels.
- `split_hybrid`, `dump_records`, `dump_rawml`, the printing functions and the encryption options are not modelled. They only print or write files; they are neither the reader nor the EPUB naming and packaging policy.
- Names.Truncated: `snprintf` returning a negative count (an encoding error) is not modelled.
- FILENAME_MAX is taken as 260, the value of the Windows C runtime the tool is built for.
- `long` is taken as 64 bits.
- Constants that libmobi defines in headers other than read.h are taken at libmobi's values: HUFF_CODELEN_MAX 16, HUFF_CODETABLE_SIZE 33, HUFF_HEADER_LEN 24, HUFF_RECORD_MINSIZE 2584, HUFF_RECORD_MAXCNT and CDIC_RECORD_MAXCNT 1024, CDIC_HEADER_LEN 16, RECORD0_HEADER_LEN 16, PALMDB_HEADER_LEN 78, MOBI_TITLE_SIZEMAX 1024 and the compression codes 1, 2 and 17480.
- `USE_XMLWRITER` is taken as defined, so `create_epub` exists and `loadmemory` calls it. Without the macro, `ConvertMobiToEpub` returns SUCCESS with no archive.
- `outdir_opt` is not declared in mobitool.c. It is assumed to be a flag that starts off.
