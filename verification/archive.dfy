/** An open archive, `struct pbo` (libpbo/pbo.c:44-49), and the operations on
    it: reading the header into the catalog, looking entries up and
    extracting their payloads.

    The file system is a map from file names to their bytes: `fopen(name,
    "r")` succeeds exactly for a name in the map, and a stream opened on it
    reads those bytes from a cursor. */
module Archive {
  import opened Wrappers
  import opened Bytes
  import opened Delim
  import opened Catalog
  import opened Header

  type FileSystem = map<string, seq<byte>>

  /** The bytes `fopen(filename, "r")` gives access to, or None when it fails;
      a NULL file name fails. */
  function Open(fs: FileSystem, filename: Option<string>): (r: Option<seq<byte>>)
    ensures r.Some? <==> filename.Some? && filename.value in fs
    ensures r.Some? ==> r.value == fs[filename.value]
  {
    if filename.Some? && filename.value in fs then Some(fs[filename.value]) else None
  }

  /** A header read `r` placed after the entries `acc` already appended. */
  function Prepend(acc: seq<Entry>, r: Parsed): Parsed
  {
    Parsed(r.outcome, acc + r.entries, r.end)
  }

  /** Where a payload lies in the archive: `headersz + file_offset`, and its
      DATA_SIZE. */
  datatype Extent = Extent(start: nat, length: u32)

  /** The extent of the first entry named `name`, as `pbo_read_file` and
      `pbo_write_to_file` seek to it. */
  function Locate(c: seq<Entry>, headersz: nat, name: Name): (r: Option<Extent>)
    ensures r.None? <==> forall j :: 0 <= j < |c| ==> c[j].name != name
    ensures r.Some? ==>
      exists k :: 0 <= k < |c| && c[k].name == name &&
        (forall j :: 0 <= j < k ==> c[j].name != name) &&
        r.value == Extent(headersz + c[k].fileOffset, c[k].properties[DATA_SIZE])
  {
    match FindFile(c, name)
    case None => None
    case Some(k) => Some(Extent(headersz + c[k].fileOffset, c[k].properties[DATA_SIZE]))
  }

  /** The bytes `fread` gets after `fseek` to `start` when asked for
      `count`: all of them, or as many as the input still holds. */
  function Fetch(src: seq<byte>, start: nat, count: nat): (b: seq<byte>)
    ensures |b| <= count && (|b| < count ==> start + |b| >= |src|)
    ensures b != [] ==> start + |b| <= |src| && b == src[start..start + |b|]
  {
    if start >= |src| then []
    else if |src| - start < count then src[start..]
    else src[start..start + count]
  }

  /** `fseek(file, start, SEEK_SET)` followed by `fread(buf, 1, count, file)`:
      copies the bytes fetched into the front of `buf` and returns their
      number. */
  method ReadAt(buf: array<byte>, src: seq<byte>, start: nat, count: nat) returns (n: nat)
    requires count <= buf.Length
    modifies buf
    ensures n <= count && buf[..n] == Fetch(src, start, count)
    ensures buf[n..] == old(buf[n..])
  {
    var got := Fetch(src, start, count);
    n := |got|;
    var k := 0;
    while k < n
      invariant k <= n
      invariant forall j :: 0 <= j < k ==> buf[j] == got[j]
      invariant forall j :: k <= j < buf.Length ==> buf[j] == old(buf[j])
    {
      buf[k] := src[start + k];
      k := k + 1;
    }
  }

  /** The extension loop of `pbo_read_header`: strings are added to a fresh
      `struct header_extension` until a read returns an empty string or fails,
      then the closing empty string is added. */
  method ReadHeaderExtension(buf: array<byte>, src: seq<byte>, pos: nat) returns (xs: seq<Name>, next: nat)
    requires pos <= |src| && buf.Length == MAXNAMELEN
    modifies buf
    ensures xs == ReadExtensions(src, pos).strings + [[]]
    ensures next == ReadExtensions(src, pos).next
  {
    var ext := new HeaderExtension();
    var at := pos;
    var sz;
    sz, next := GetDelim(buf, src, at, MAXNAMELEN, 0);
    while sz > 0
      invariant ext.Valid() && fresh(ext.entries)
      invariant at <= |src| && sz < MAXNAMELEN && Scan(sz, next) == GetDelimSpec(src, at, MAXNAMELEN, 0)
      invariant sz >= 0 ==> buf[..sz] == src[at..at + sz]
      invariant ReadExtensions(src, pos) ==
        ExtScan(ext.Contents() + ReadExtensions(src, at).strings, ReadExtensions(src, at).next)
      decreases |src| - at
    {
      ExtensionsMore(src, pos, at, sz, next, ext.Contents());
      ext.Add(buf[..sz]);
      at := next;
      sz, next := GetDelim(buf, src, at, MAXNAMELEN, 0);
    }
    ExtensionsDone(src, pos, at, sz, next, ext.Contents());
    ext.Add([]);
    xs := ext.Contents();
  }

  /** The body of the header loop up to the append: the name is read into
      `buf`, then the five property words, then, for an empty name at index 0,
      the extension strings. None when the name is not terminated within the
      buffer or the property block is cut short. */
  method ReadEntry(buf: array<byte>, src: seq<byte>, pos: nat, i: nat) returns (rec: Option<Record>)
    requires pos <= |src| && buf.Length == MAXNAMELEN
    modifies buf
    ensures rec == ReadRecord(src, pos, i)
  {
    var sz, next := GetDelim(buf, src, pos, MAXNAMELEN, 0);
    if sz < 0 {
      return None;   // broken header
    }
    var name := buf[..sz];
    if |src| - next < PROPS_SIZE {
      return None;   // truncated property block
    }
    var props := PropsAt(src, next);
    var cursor := next + PROPS_SIZE;
    var ext := None;
    if sz == 0 && i == 0 {
      var xs;
      xs, cursor := ReadHeaderExtension(buf, src, cursor);
      ext := Some(xs);
    }
    RecordAssembled(src, pos, i, sz, next, ext, cursor);
    rec := Some(Record(name, props, ext, cursor));
  }

  /** One more extension string read: it joins those collected. */
  lemma {:induction false} ExtensionsMore(src: seq<byte>, pos: nat, at: nat, sz: int, next: nat, done: seq<Name>)
    requires pos <= |src| && at <= |src| && Scan(sz, next) == GetDelimSpec(src, at, MAXNAMELEN, 0) && sz > 0
    requires ReadExtensions(src, pos) == ExtScan(done + ReadExtensions(src, at).strings, ReadExtensions(src, at).next)
    ensures ReadExtensions(src, pos) ==
      ExtScan((done + [src[at..at + sz]]) + ReadExtensions(src, next).strings, ReadExtensions(src, next).next)
  {
    var rest := ReadExtensions(src, next);
    assert ReadExtensions(src, at) == ExtScan([src[at..at + sz]] + rest.strings, rest.next);
    assert done + ([src[at..at + sz]] + rest.strings) == (done + [src[at..at + sz]]) + rest.strings;
  }

  /** An empty or failed read ends the extension strings. */
  lemma {:induction false} ExtensionsDone(src: seq<byte>, pos: nat, at: nat, sz: int, next: nat, done: seq<Name>)
    requires pos <= |src| && at <= |src| && Scan(sz, next) == GetDelimSpec(src, at, MAXNAMELEN, 0) && sz <= 0
    requires ReadExtensions(src, pos) == ExtScan(done + ReadExtensions(src, at).strings, ReadExtensions(src, at).next)
    ensures ReadExtensions(src, pos) == ExtScan(done, next)
  {
    assert ReadExtensions(src, at) == ExtScan([], next);
    assert done + [] == done;
  }

  /** The record the loop body of `pbo_read_header` assembles is the one
      `ReadRecord` describes. */
  lemma {:induction false} RecordAssembled(src: seq<byte>, pos: nat, i: nat, sz: int, next: nat, ext: Option<seq<Name>>, cursor: nat)
    requires pos <= |src| && Scan(sz, next) == GetDelimSpec(src, pos, MAXNAMELEN, 0) && sz >= 0
    requires next + PROPS_SIZE <= |src|
    requires sz == 0 && i == 0 ==>
      ext == Some(ReadExtensions(src, next + PROPS_SIZE).strings + [[]]) && cursor == ReadExtensions(src, next + PROPS_SIZE).next
    requires !(sz == 0 && i == 0) ==> ext == None && cursor == next + PROPS_SIZE
    ensures ReadRecord(src, pos, i) == Some(Record(src[pos..pos + sz], PropsAt(src, next), ext, cursor))
  {
    if sz == 0 {
      assert src[pos..pos + sz] == [];
    }
  }

  /** `struct pbo`: the archive's file name, the size of its header and the
      catalog of entries, the list from `root` to `last` in order. */
  class Pbo {
    var filename: Option<string>
    var headersz: nat
    var catalog: seq<Entry>

    /** The list's `root`: its first entry. */
    function Root(): Option<Entry>
      reads this
    {
      if catalog == [] then None else Some(catalog[0])
    }

    /** The list's `last`: its final entry. */
    function Last(): Option<Entry>
      reads this
    {
      if catalog == [] then None else Some(catalog[|catalog| - 1])
    }

    /** `pbo_init`: an empty catalog for the archive `filename`. */
    constructor (filename: Option<string>)
      ensures this.filename == filename && catalog == [] && headersz == 0
    {
      this.filename := filename;
      headersz := 0;
      catalog := [];
    }

    /** `pbo_set_filename`: a NULL name leaves the archive as it was. */
    method SetFilename(filename: Option<string>)
      modifies this
      ensures this.filename == if filename.Some? then filename else old(this.filename)
      ensures catalog == old(catalog) && headersz == old(headersz)
    {
      if filename.None? {
        return;
      }
      this.filename := filename;
    }

    /** `pbo_clear`: every entry is released and the list is empty. */
    method Clear()
      modifies this
      ensures catalog == [] && Root() == None
      ensures filename == old(filename) && headersz == old(headersz)
    {
      catalog := [];
    }

    /** `pbo_list_add_entry`: `e` goes after `last`, or becomes both `root`
      and `last` of an empty list. */
    method AddEntry(e: Entry)
      modifies this
      ensures catalog == old(catalog) + [e]
      ensures Last() == Some(e) && Root() == if old(catalog) == [] then Some(e) else old(Root())
      ensures filename == old(filename) && headersz == old(headersz)
    {
      catalog := catalog + [e];
    }

    /** `pbo_read_header`: reads the records of the archive into the catalog,
      after the entries it already holds. On a broken header the records
      read so far stay in the catalog and `headersz` is left alone; on
      success `headersz` is the cursor after the sentinel. */
    method ReadHeader(fs: FileSystem) returns (outcome: PboError)
      modifies this
      ensures Open(fs, old(filename)).None? ==>
        outcome == ErrorIo && catalog == old(catalog) && headersz == old(headersz)
      ensures Open(fs, old(filename)).Some? ==>
        var p := ParseHeader(Open(fs, old(filename)).value);
        outcome == p.outcome && catalog == old(catalog) + p.entries &&
        headersz == if p.outcome == Success then p.end else old(headersz)
      ensures filename == old(filename)
    {
      var file := Open(fs, filename);
      if file.None? {
        return ErrorIo;   // I/O error
      }
      var src := file.value;
      var buf := new byte[MAXNAMELEN];
      var pos, i, fileOffset: nat := 0, 0, 0;
      ghost var acc: seq<Entry> := [];
      ghost var whole := ParseHeader(src);
      while true
        invariant pos <= |src|
        invariant catalog == old(catalog) + acc && filename == old(filename) && headersz == old(headersz)
        invariant whole == Prepend(acc, ParseRecords(src, pos, i, fileOffset))
        decreases |src| - pos
      {
        var read := ReadEntry(buf, src, pos, i);
        if read.None? {
          BrokenAt(src, pos, i, fileOffset, acc);
          return ErrorBroken;   // broken header
        }
        var rec := read.value;
        var e := Entry(rec.name, rec.properties, rec.ext, fileOffset);
        fileOffset := fileOffset + rec.properties[DATA_SIZE];
        AddEntry(e);
        assert catalog == old(catalog) + (acc + [e]);
        if rec.name == [] && i > 0 {
          SentinelAt(src, pos, i, e.fileOffset, acc, rec, e);
          headersz := rec.next;
          return Success;
        }
        StepAt(src, pos, i, e.fileOffset, acc, rec, e, fileOffset);
        acc := acc + [e];
        pos, i := rec.next, i + 1;
      }
    }

    /** `pbo_find_file`: the index of the first entry named `name`. */
    method Find(name: Name) returns (r: Option<nat>)
      ensures r == FindFile(catalog, name)
    {
      var k := 0;
      while k < |catalog|
        invariant k <= |catalog|
        invariant forall j :: 0 <= j < k ==> catalog[j].name != name
      {
        if catalog[k].name == name {
          return Some(k);
        }
        k := k + 1;
      }
      return None;
    }

    /** `pbo_get_file_list`: the names handed to the callback, one per entry
      in catalog order. */
    method GetFileList() returns (names: seq<Name>)
      ensures |names| == |catalog|
      ensures forall j :: 0 <= j < |catalog| ==> names[j] == catalog[j].name
    {
      names := [];
      var k := 0;
      while k < |catalog|
        invariant k <= |catalog| && |names| == k
        invariant forall j :: 0 <= j < k ==> names[j] == catalog[j].name
      {
        names := names + [catalog[k].name];
        k := k + 1;
      }
    }

    /** `pbo_get_file_size`. */
    method GetFileSize(name: Name) returns (size: u32)
      ensures size == FileSize(catalog, name)
    {
      var r := Find(name);
      if r.None? {
        return 0;   // does not exist
      }
      size := catalog[r.value].properties[DATA_SIZE];
    }

    /** `pbo_read_file`: copies the payload of `name` into `buf`, which holds
      `size` bytes, and returns how many bytes were read. Nothing is read
      when the name is absent, the payload does not fit or the archive cannot
      be opened. */
    method ReadFile(fs: FileSystem, name: Name, buf: array<byte>, size: nat) returns (n: nat)
      requires size <= buf.Length
      modifies buf
      ensures n <= size
      ensures Locate(catalog, headersz, name).None? ==> n == 0 && buf[..] == old(buf[..])
      ensures Locate(catalog, headersz, name).Some? && Locate(catalog, headersz, name).value.length > size ==>
        n == 0 && buf[..] == old(buf[..])
      ensures Open(fs, filename).None? ==> n == 0 && buf[..] == old(buf[..])
      ensures (Locate(catalog, headersz, name).Some? && Locate(catalog, headersz, name).value.length <= size &&
               Open(fs, filename).Some?) ==>
        var x := Locate(catalog, headersz, name).value;
        var src := Open(fs, filename).value;
        buf[..n] == Fetch(src, x.start, x.length) && buf[n..] == old(buf[n..])
    {
      var r := Find(name);
      if r.None? {
        return 0;   // does not exist
      }
      var e := catalog[r.value];
      if e.properties[DATA_SIZE] > size {
        return 0;   // does not fit
      }
      var file := Open(fs, filename);
      if file.None? {
        return 0;   // I/O error
      }
      n := ReadAt(buf, file.value, e.fileOffset + headersz, e.properties[DATA_SIZE]);
    }

    /** `pbo_write_to_file`: the bytes written to the output stream. A buffer
      of DATA_SIZE bytes is filled from the payload's offset and written out
      whole, without a size check; bytes past what `fread` got are left
      unspecified. */
    method WriteToFile(fs: FileSystem, name: Name) returns (written: seq<byte>)
      ensures Locate(catalog, headersz, name).None? || Open(fs, filename).None? ==> written == []
      ensures Locate(catalog, headersz, name).Some? && Open(fs, filename).Some? ==>
        var x := Locate(catalog, headersz, name).value;
        var src := Open(fs, filename).value;
        var got := Fetch(src, x.start, x.length);
        |written| == x.length && written[..|got|] == got
    {
      var r := Find(name);
      if r.None? {
        return [];   // does not exist
      }
      var e := catalog[r.value];
      var file := Open(fs, filename);
      if file.None? {
        return [];   // cannot be opened
      }
      var sz := e.properties[DATA_SIZE];
      var buf := new byte[sz];
      var got := ReadAt(buf, file.value, e.fileOffset + headersz, sz);
      written := buf[..];
    }
  }

  /** A record that cannot be read ends the header read as broken, with the
      entries appended so far. */
  lemma {:induction false} BrokenAt(src: seq<byte>, pos: nat, i: nat, offset: nat, acc: seq<Entry>)
    requires pos <= |src| && ReadRecord(src, pos, i).None?
    ensures Prepend(acc, ParseRecords(src, pos, i, offset)) == Parsed(ErrorBroken, acc, pos)
  {
    assert acc + [] == acc;
  }

  /** The sentinel ends the header read successfully, after it is appended. */
  lemma {:induction false} SentinelAt(src: seq<byte>, pos: nat, i: nat, offset: nat, acc: seq<Entry>, rec: Record, e: Entry)
    requires pos <= |src| && ReadRecord(src, pos, i) == Some(rec) && IsSentinel(rec, i) && e == EntryOf(rec, offset)
    ensures Prepend(acc, ParseRecords(src, pos, i, offset)) == Parsed(Success, acc + [e], rec.next)
  {
    ParseRecordsAt(src, pos, i, offset, rec);
  }

  /** Any other record is appended and the read goes on after it. */
  lemma {:induction false} StepAt(src: seq<byte>, pos: nat, i: nat, offset: nat, acc: seq<Entry>, rec: Record, e: Entry, nextOffset: nat)
    requires pos <= |src| && ReadRecord(src, pos, i) == Some(rec) && !IsSentinel(rec, i)
    requires e == EntryOf(rec, offset) && nextOffset == offset + rec.properties[DATA_SIZE]
    ensures Prepend(acc, ParseRecords(src, pos, i, offset)) ==
      Prepend(acc + [e], ParseRecords(src, rec.next, i + 1, nextOffset))
  {
    var rest := ParseRecords(src, rec.next, i + 1, offset + rec.properties[DATA_SIZE]);
    ParseRecordsStep(src, pos, i, offset, rec, rest);
    assert acc + ([EntryOf(rec, offset)] + rest.entries) == (acc + [EntryOf(rec, offset)]) + rest.entries;
  }

  /** A non-empty name never resolves to the version entry or the sentinel of
      a catalog a header read left. */
  lemma {:induction false} FindSkipsMarkers(c: seq<Entry>, name: Name)
    requires WellFormed(c) && name != [] && FindFile(c, name).Some?
    ensures FindFile(c, name).value < |c| - 1 && c[FindFile(c, name).value].ext.None?
  {
    var k := FindFile(c, name).value;
    assert ValidRecord(c[k], k, k == |c| - 1);
  }

  /** `pbo_read_file` asks for exactly the size `pbo_get_file_size` reports,
      and nothing for an absent name. */
  lemma {:induction false} LocateSize(c: seq<Entry>, headersz: nat, name: Name)
    ensures Locate(c, headersz, name).None? <==> (forall j :: 0 <= j < |c| ==> c[j].name != name)
    ensures Locate(c, headersz, name).None? ==> FileSize(c, name) == 0
    ensures Locate(c, headersz, name).Some? ==> Locate(c, headersz, name).value.length == FileSize(c, name)
  {
  }

  /** In a catalog a header read left, the payload of every entry lies in the
      data region after the header, which ends `SizeSum(c)` bytes on. */
  lemma {:induction false} LocateWithin(c: seq<Entry>, headersz: nat, name: Name)
    requires WellFormed(c) && Locate(c, headersz, name).Some?
    ensures headersz <= Locate(c, headersz, name).value.start
    ensures Locate(c, headersz, name).value.start + Locate(c, headersz, name).value.length <= headersz + SizeSum(c)
  {
    PayloadWithin(c, 0, FindFile(c, name).value);
  }

  /** In a catalog a header read left, two different names resolve to
      payloads that do not overlap. */
  lemma {:induction false} LocateDisjoint(c: seq<Entry>, headersz: nat, a: Name, b: Name)
    requires WellFormed(c) && a != b
    requires Locate(c, headersz, a).Some? && Locate(c, headersz, b).Some?
    ensures var x, y := Locate(c, headersz, a).value, Locate(c, headersz, b).value;
      x.start + x.length <= y.start || y.start + y.length <= x.start
  {
    var j, k := FindFile(c, a).value, FindFile(c, b).value;
    if j < k {
      PayloadsDisjoint(c, 0, j, k);
    } else {
      PayloadsDisjoint(c, 0, k, j);
    }
  }
}
