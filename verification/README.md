# libpbo read side, modelled in Dafny

This project models how libpbo reads a PBO archive. PBO is the Arma
container format: a header of named records, followed by a data region
holding the payloads end to end. Each record is:

- a NUL-terminated name;
- five little-endian 32-bit property words (packing method, original size,
  reserved, time stamp, data size).

Two records are special:

- **Version entry.** An empty name at index 0. Extension strings follow its
  properties, up to an empty string.
- **Sentinel.** An empty name at any later index. It ends the header.

The model has six modules (the "## Model" table lists the modelled
members first, then the proof steps its lemmas are built from):

- `Wrappers`: the `Option` type, standing for a NULL pointer or a missing
  result.

- `Bytes`: bytes, `uint32_t`, and the little-endian words that `fread`
  stores into `properties[5]`.
- `Delim`: `pbo_util_getdelim`, the bounded reader of one NUL-terminated
  string.
  - `GetDelimSpec` says what one call reports: the count, and where the
    cursor is left.
  - The method `GetDelim` copies into a caller's buffer and is proved
    against `GetDelimSpec`.
- `Catalog`:
  - `struct pbo_entry`, with its properties and payload offset;
  - the first-match lookup `pbo_find_file`, and the size lookup;
  - `struct header_extension`, the growable string array, as a class over
    an array.
- `Header`: `pbo_read_header` as a function of the archive bytes.
  - `ParseRecords`/`Continue` is the loop.
  - The module also proves the shape of every catalog the loop produces,
    where the loop stops, and a round trip against a reference header
    layout `HeaderBytes`.
- `Archive`: `struct pbo` as the class `Pbo`. It holds the file name,
  `headersz`, and the catalog in list order. Its methods are:
  - `pbo_init`, `pbo_set_filename`, `pbo_clear`, `pbo_list_add_entry`;
  - `pbo_read_header`, an imperative loop proved equal to `ParseHeader`;
  - `pbo_find_file`, `pbo_get_file_list`, `pbo_get_file_size`,
    `pbo_read_file`, `pbo_write_to_file`.

An open `FILE*` on the archive is modelled as a byte sequence and a cursor.
`fopen` is a lookup in a map from file names to contents, and a NULL file
name fails to open.

`pbo_read_header` returns `void` in libpbo/pbo.c. include/libpbo/pbo.h
declares it as returning `pbo_error`. The model returns the outcome the code
reaches:

- `ErrorIo` when the archive cannot be opened;
- `ErrorBroken` on a malformed header;
- `Success` otherwise.

Some small helpers model source lines but have no row of their own. Their
lines are covered by the rows of the members built on them:

- `Header.PropsAt`: the five words `fread` stores from the cursor
  (libpbo/pbo.c:113);
- `Header.EntryOf`: the `struct pbo_entry` built from a record at the running
  offset, with its extension list (libpbo/pbo.c:111-123);
- `Header.IsSentinel`: the test that ends the loop, an empty name after
  index 0 (libpbo/pbo.c:125-126);
- `Archive.Pbo.Root` and `Archive.Pbo.Last`: the `root` and `last` ends of
  the list (libpbo/pbo.c:46-47).

## Model

| member | source | states |
|---|---|---|
| Delim.GetDelimSpec | libpbo/pbo.c:235-251 | the cursor never moves back or past the input; a count of at least 0 leaves the cursor just past the counted bytes and the delimiter |
| Delim.GetDelimSpecExact | libpbo/pbo.c:237-250 | the reported outcome is exactly the described one. With a delimiter among the next `dstsz` bytes, it is the count of bytes before the first delimiter, which is below `dstsz`, and the cursor is just past that delimiter. Otherwise it is -1, with the cursor after the full window or at end of input. The two directions are proved |
| Delim.GetDelimSpecDescribed | libpbo/pbo.c:243-249 | each branch of the read loop (window full, end of input, delimiter) yields the described outcome |
| Delim.DescribesUnique | libpbo/pbo.c:246-250 | at most one outcome fits the description |
| Delim.GetDelim | libpbo/pbo.c:235-251 | a zero size or a null `dst` returns -1 without reading. Otherwise the outcome is `GetDelimSpec`, the bytes read are copied to `dst`, the delimiter is stored at `dst[sz]` on success, and the rest of `dst` is unchanged |
| Delim.CopyUntil | libpbo/pbo.c:243-244 | the copy loop stops at a full window, at end of input or at the delimiter, and copies exactly the bytes it passed |
| Delim.GetDelimAsWritten | libpbo/pbo.c:240-243 | with a signed `char`, a successful read ends on the delimiter or on a 0xFF byte |
| Delim.SignedChar | libpbo/pbo.c:240-243 | storing a byte in a signed `char` keeps values below 128 and maps the others 256 lower, so the result equals `EOF` (-1) exactly for the byte 0xFF |
| Delim.SignedCharEndsName | libpbo/pbo.c:240-243 | the name bytes `a`, 0xFF, `b`, NUL read as the one-byte name `a` as written, but as the three-byte name that the unsigned comparison intends |
| Delim.AsWrittenAgreesWithout0xFF | libpbo/pbo.c:240-243 | on input without a 0xFF byte, the code as written and the intended reader agree |
| Bytes.WordsRoundTrip | libpbo/pbo.c:113 | five words stored little-endian in 20 bytes read back as themselves |
| Bytes.WordsLeRoundTrip | libpbo/pbo.c:113 | every 20-byte property block is the encoding of the words read from it |
| Bytes.LeValueBytes | libpbo/pbo.c:113 | a value below 256^n survives encoding to n little-endian bytes and decoding |
| Bytes.LeBytesValue | libpbo/pbo.c:113 | n little-endian bytes survive decoding and re-encoding |
| Bytes.Words | libpbo/pbo.c:113 | `fread(pe->properties, 4, 5, file)` on a little-endian host: a block of 4n bytes gives n words, each read least significant byte first; with `Bytes.WordsLeRoundTrip` and `Bytes.WordsRoundTrip` this is a bijection onto word sequences |
| Catalog.FindFile | libpbo/pbo.c:227-233 | the result is the index of an entry named exactly `name`, and no earlier entry has that name; None means no entry has the name |
| Catalog.FindFileAppend | libpbo/pbo.c:204-214 | appending keeps earlier entries in place. A name already present still resolves to the same entry, and the new entry is found only when no earlier entry has its name |
| Catalog.FileSize | libpbo/pbo.c:177-184 | 0 when no entry has the name; otherwise the DATA_SIZE of the first entry with that name |
| Catalog.Capacity | libpbo/pbo.c:218-222 | the capacity is a multiple of 4, at least `len`, and less than `len + 4` |
| Catalog.HeaderExtension.Add | libpbo/pbo.c:216-225 | the contents become the old contents plus the new string. When `len % 4 == 0` the array is reallocated 4 slots longer; otherwise it stays in place. The capacity stays at `len` rounded up to 4 |
| Catalog.HeaderExtension.constructor | libpbo/pbo.c:117 | a new extension list is empty |
| Catalog.SizeSumAppend | libpbo/pbo.c:115 | the running offset after one more record grows by that record's DATA_SIZE |
| Catalog.PayloadsDisjoint | libpbo/pbo.c:114-115 | with offsets that are prefix sums of DATA_SIZE, an earlier payload ends before a later payload starts |
| Catalog.PayloadWithin | libpbo/pbo.c:114-115 | every payload lies between the start offset and the start offset plus the total DATA_SIZE |
| Header.ReadExtensions | libpbo/pbo.c:120-121 | the extension loop never moves the cursor back or past the input |
| Header.ReadExtensionsValid | libpbo/pbo.c:120-121 | every extension string collected is non-empty, free of NUL and shorter than the 512-byte buffer |
| Header.ReadRecord | libpbo/pbo.c:108-123 | one loop pass leaves the cursor strictly further on and within the input |
| Header.ReadRecordFacts | libpbo/pbo.c:108-123 | a record read has a valid name stored at the cursor and closed by NUL, and its five words right after. An extension list follows exactly for an empty name at index 0, and that list ends in one empty string |
| Header.ParseRecords | libpbo/pbo.c:107-127 | the loop ends within the input |
| Header.Continue | libpbo/pbo.c:114-126 | after a record is read, its entry, at the running offset, is appended first, ahead of whatever the rest of the loop appends; the loop ends within the input |
| Header.ParseHeader | libpbo/pbo.c:99-130 | the loop from index 0 and offset 0 either succeeds, with a well-formed catalog (offsets the prefix sums of DATA_SIZE, one sentinel at the end, an extension list only on a version entry) and the cursor right after the sentinel's property words, or fails as broken with the valid records read before the failure |
| Header.ParsedShape | libpbo/pbo.c:106-126 | every header read, complete or broken, appends valid records, and each `file_offset` is the sum of the DATA_SIZE of all earlier entries. The read succeeds exactly when its last record is the sentinel, which is then the only empty-named entry after index 0. Only the version entry carries an extension list |
| Header.ParsedEnd | libpbo/pbo.c:108-128 | on success the read stops right after the sentinel: its NUL, then its 20 property bytes ending at the final cursor, which `headersz` records |
| Header.ReadRecordValid | libpbo/pbo.c:116-126 | each record read is valid at its index and is the last one exactly when it is the sentinel |
| Header.PropsAtEncoded | libpbo/pbo.c:113 | encoded property words read back from their position |
| Header.GetDelimName | libpbo/pbo.c:108 | a valid name followed by NUL is read back as itself, with the cursor just past the NUL |
| Header.ReadExtensionBytes | libpbo/pbo.c:120-122 | stored extension strings followed by an empty one read back as the strings before the empty one |
| Header.ReadRecordBytes | libpbo/pbo.c:108-123 | a valid record laid out at the cursor reads back as itself |
| Header.ParseReadsBack | libpbo/pbo.c:107-128 | records that read back one by one parse as exactly that catalog, ending after the last record |
| Header.LayoutReadsBack | libpbo/pbo.c:107-127 | each laid-out valid record reads back in turn |
| Header.ParseHeaderBytes | libpbo/pbo.c:99-130 | any catalog shaped like a successful read, laid out as a header and followed by any data, parses back to exactly that catalog, with `headersz` equal to the header's length |
| Archive.Fetch | libpbo/pbo.c:162-163 | `fread` after `fseek` gets at most the requested count. It gets fewer only at end of input, and what it gets is the input from the seek position |
| Archive.Open | libpbo/pbo.c:101-103 | `fopen(filename, "r")` succeeds exactly when the name is not NULL and names a file, and the stream then reads that file's bytes unchanged, as a binary stream that never reports a read error (see "## Left out") |
| Archive.Locate | libpbo/pbo.c:162-163 | the extent `pbo_read_file` and `pbo_write_to_file` seek: absent exactly when no entry has the name; otherwise it starts at `headersz + file_offset` and spans DATA_SIZE bytes of the first entry with that name |
| Archive.ReadAt | libpbo/pbo.c:162-163 | the bytes fetched land at the front of `buf`, and the rest of `buf` is unchanged |
| Archive.ReadHeaderExtension | libpbo/pbo.c:117-122 | the strings added to a fresh extension list are those of `ReadExtensions`, plus a closing empty string, with the same final cursor |
| Archive.ReadEntry | libpbo/pbo.c:108-123 | one pass of the header loop body yields exactly `ReadRecord` |
| Archive.RecordAssembled | libpbo/pbo.c:108-123 | the name, words and extension list the loop body gathers form the record `ReadRecord` describes |
| Archive.Pbo.constructor | libpbo/pbo.c:57-66 | a new archive has the given file name and an empty catalog |
| Archive.Pbo.SetFilename | libpbo/pbo.c:91-97 | a NULL name changes nothing; otherwise only the file name changes |
| Archive.Pbo.Clear | libpbo/pbo.c:68-83 | the catalog becomes empty, with no root; nothing else changes |
| Archive.Pbo.AddEntry | libpbo/pbo.c:204-214 | the entry is appended after all existing entries, which keep their order. It becomes `last`, and also `root` when the list was empty. Nothing else changes |
| Archive.Pbo.ReadHeader | libpbo/pbo.c:99-130 | an archive that cannot be opened gives an I/O error and changes nothing. Otherwise the records `ParseHeader` reads are appended after the existing entries, including a partial run on a broken header. `headersz` is set to the cursor after the sentinel only on success |
| Archive.Pbo.Find | libpbo/pbo.c:227-233 | the list scan returns the first match, the same index as `FindFile` |
| Archive.Pbo.GetFileList | libpbo/pbo.c:168-175 | the callback receives every entry's name, once each, in catalog order |
| Archive.Pbo.GetFileSize | libpbo/pbo.c:177-184 | the result is `FileSize`: the DATA_SIZE of the first entry with that name, or 0 when the name is absent |
| Archive.Pbo.ReadFile | libpbo/pbo.c:149-166 | it returns 0 and leaves `buf` untouched when the name is absent, when DATA_SIZE exceeds `size`, or when the archive cannot be opened. Otherwise it reads DATA_SIZE bytes from `headersz + file_offset` into the front of `buf` and returns how many it got, never more than `size` |
| Archive.Pbo.WriteToFile | libpbo/pbo.c:186-202 | nothing is written when the name is absent or the archive cannot be opened. Otherwise exactly DATA_SIZE bytes are written with no size check, beginning with what `fread` got from `headersz + file_offset` |
| Archive.FindSkipsMarkers | libpbo/pbo.c:227-233 | in a catalog from a successful read, a non-empty name never resolves to the version entry or the sentinel |
| Archive.LocateSize | libpbo/pbo.c:149-184 | the extent that read_file seeks is absent exactly when no entry has the name, and then get_file_size is 0. Otherwise its length is what get_file_size reports |
| Archive.LocateWithin | libpbo/pbo.c:162 | in a catalog from a successful read, every payload that read_file seeks lies in the data region after the header |
| Archive.LocateDisjoint | libpbo/pbo.c:162 | in a catalog from a successful read, two different names resolve to payloads that do not overlap |
| Header.RecordsCons | libpbo/pbo.c:114-115 | proof step, not a model of its own: prefixing a valid record at the running offset keeps the catalog shape |
| Header.RecordsTail | libpbo/pbo.c:114-115 | proof step, not a model of its own: the tail of a well-shaped catalog is well shaped from the next index and offset |
| Header.HeaderLaidOut | libpbo/pbo.c:107-127 | proof step, not a model of its own: the header layout holds each record after the one before it |
| Header.HeaderSplit | libpbo/pbo.c:107-127 | proof step, not a model of its own: the header layout is the first record's bytes followed by the rest of the header |
| Archive.ExtensionsMore | libpbo/pbo.c:120-121 | proof step, not a model of its own: a non-empty string read joins those collected, and the loop goes on after it |
| Archive.ExtensionsDone | libpbo/pbo.c:120-122 | proof step, not a model of its own: an empty or failed read ends the extension strings |
| Archive.BrokenAt | libpbo/pbo.c:108-110 | proof step, not a model of its own: a record that cannot be read ends the read as broken, keeping the entries appended so far |
| Archive.SentinelAt | libpbo/pbo.c:124-126 | proof step, not a model of its own: the sentinel is appended and then ends the read successfully |
| Archive.StepAt | libpbo/pbo.c:114-126 | proof step, not a model of its own: any other record is appended, and the read continues after it at the next index, with the offset grown by its DATA_SIZE |

## Left out

- File I/O.
  - `fopen`, `fseek`, `fread`, `fwrite`, `ftell` and `fclose` are replaced by
    byte sequences, a cursor, and a map from file names to contents.
  - Failures of `fseek` and `fclose` are not modelled.
- Archive.Open, Delim.GetDelimSpec and the other stream readers assume two
  things about the stream that the code does not guarantee:
  - It never reports a read error. `fgetc` also returns `EOF` on a read
    error, and `pbo_util_getdelim` tests only `feof` (libpbo/pbo.c:246), so a
    read error in the middle of a name reports success with the bytes read so
    far, the same outcome as the 0xFF case under Findings. Read errors of
    `fread` (libpbo/pbo.c:113, 163, 199), `ftell` returning -1
    (libpbo/pbo.c:128) and a failing `fwrite` (libpbo/pbo.c:200) are not
    modelled either.
  - It is binary. The archive is opened with mode `"r"` (libpbo/pbo.c:101,
    158, 192), which is text mode on Windows: there CR LF reads as LF and
    0x1A ends input, so names, property words and the `ftell` value can
    differ from the file's bytes. The model reads the bytes unchanged.
  - The output `FILE*` of `pbo_write_to_file` is the returned byte sequence.
- The callback of `pbo_get_file_list`. It is modelled as the sequence of
  names it receives. The `user` pointer and the `!d` check are left out:
  a `Pbo` object always exists.
- `pbo_dispose` and `pbo_dump_header`. The first only frees memory; the
  second only prints.
- Memory management.
  - `malloc`/`realloc`/`free` and their failures are not modelled; this
    includes the `ErrorMalloc` return of `pbo_read_header` and
    `pbo_util_strdup` returning NULL.
  - `pbo_clear` releasing each entry is modelled as the catalog becoming
    empty.
  - The linked list with `root`/`last`/`next` is modelled as a sequence;
    `Root` and `Last` are its ends.
- Uninitialised memory. The model assumes initialised state where the code
  does not provide it:
  - `le->next` is never set;
  - `pe->ext` is never set for entries other than the version entry; the
    model uses None;
  - `len` and `entries` of a new `struct header_extension` are never set; the
    model starts with an empty list;
  - `headersz` is never set before the first successful header read; the
    model starts at 0;
  - `d->last` is not reset by `pbo_clear`; the model has no `last` beyond
    the end of the catalog.
- Archive.Pbo.ReadHeader, Header.ReadRecord, Archive.ReadEntry,
  Header.ParseRecords, Header.Continue and Header.ParseHeader treat a
  property block cut short by end of input as a broken header. The code
  ignores the count `fread` returns (libpbo/pbo.c:113) and goes on:
  - it appends the truncated record, with uninitialised property words, so
    after a broken read the catalog also holds that record, where the model
    keeps only the valid records before it;
  - when the truncated record is the sentinel, it still sets `headersz` to
    the cursor (libpbo/pbo.c:128), where the model reports `ErrorBroken` and
    leaves `headersz` as it was.
- Archive.Pbo.WriteToFile does not specify the bytes past those `fread` got.
  The code writes whatever the uninitialised buffer holds there.
- Archive.Pbo.ReadHeader does not model how the running `file_offset` (a
  `size_t`) and the cursor wrap around. Offsets and sizes are unbounded
  naturals, and the properties are exactly 32-bit.
- `Bytes.Words` reads the property words little-endian, as on a
  little-endian host. Big-endian hosts are not modelled.
- The write path (`pbo_init_new`, `pbo_add_extension`, `pbo_add_file_*`,
  `pbo_write`) is only declared in include/libpbo/pbo.h and has no body in
  libpbo/pbo.c. `Header.HeaderBytes` is a reference layout used to state
  round trips; it is not a model of `pbo_write`.
- src/testlibpbo.c, the command-line driver, is not part of this model.
- Delim.GetDelimSpec compares bytes as unsigned values, as intended. The code
  as written is `Delim.GetDelimAsWritten`; see Findings.

## Findings

| source | as written | input that shows it | evidently intended | confidence | as-written member | corrected member |
|---|---|---|---|---|---|---|
| libpbo/pbo.c:240-243 | `char c = fgetc(src)` is compared with `EOF`; with a signed `char`, the byte 0xFF becomes -1 and stops the read as if input had ended. Because `feof` is still clear, the call then reports success with the bytes read so far | the name bytes 0x61 0xFF 0x62 0x00: the read returns the name "a" and swallows the 0xFF, so 0x62 becomes the first property byte | keep `fgetc`'s result in an `int` and stop only at true end of input or at the delimiter, which reads the three-byte name | not executed; holds where `char` is signed, as on x86 | Delim.GetDelimAsWritten, Delim.SignedCharEndsName | Delim.GetDelimSpec, Delim.GetDelimSpecExact |
