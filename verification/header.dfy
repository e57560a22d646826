/** The header reader `pbo_read_header` (libpbo/pbo.c:99-130) as a function
    of the archive's bytes, and the layout of a header it accepts.

    A header is a run of records: a NUL-terminated name and five 32-bit
    little-endian property words. An empty name as the first record marks
    the version entry, followed by NUL-terminated extension strings up to an
    empty one; an empty name in any later record is the sentinel that ends
    the header. */
module Header {
  import opened Wrappers
  import opened Bytes
  import opened Delim
  import opened Catalog

  /** `pbo_error` (include/libpbo/pbo.h). */
  datatype PboError =
    | Success | ErrorNExist | ErrorBroken | ErrorMalloc | ErrorIo | ErrorState

  /** Bytes of the five property words. */
  const PROPS_SIZE: nat := 20

  /** The five property words stored at `p`. */
  function PropsAt(src: seq<byte>, p: nat): Properties
    requires p + PROPS_SIZE <= |src|
  {
    Words(src[p..p + PROPS_SIZE])
  }

  /** A string the reader can return: shorter than its buffer and free of NUL. */
  ghost predicate ValidName(n: Name)
  {
    |n| < MAXNAMELEN && forall j :: 0 <= j < |n| ==> n[j] != 0
  }

  /** Extension strings read, and where the cursor is left. */
  datatype ExtScan = ExtScan(strings: seq<Name>, next: nat)

  /** The extension loop (libpbo/pbo.c:120-121): strings are collected, each
      added as it is read, until a read returns an empty string or fails. */
  function ReadExtensions(src: seq<byte>, pos: nat): (r: ExtScan)
    requires pos <= |src|
    ensures pos <= r.next <= |src|
    decreases |src| - pos
  {
    var s := GetDelimSpec(src, pos, MAXNAMELEN, 0);
    if s.sz <= 0 then ExtScan([], s.next)
    else
      var rest := ReadExtensions(src, s.next);
      ExtScan([src[pos..pos + s.sz]] + rest.strings, rest.next)
  }

  /** Every extension string collected is non-empty, shorter than the buffer
      and free of NUL. */
  lemma {:induction false} ReadExtensionsValid(src: seq<byte>, pos: nat)
    requires pos <= |src|
    ensures forall j :: 0 <= j < |ReadExtensions(src, pos).strings| ==>
      ReadExtensions(src, pos).strings[j] != [] && ValidName(ReadExtensions(src, pos).strings[j])
    decreases |src| - pos
  {
    var s := GetDelimSpec(src, pos, MAXNAMELEN, 0);
    GetDelimSpecDescribed(src, pos, MAXNAMELEN, 0);
    if s.sz > 0 {
      ReadExtensionsValid(src, s.next);
      var n := src[pos..pos + s.sz];
      assert ValidName(n) by {
        assert forall j :: 0 <= j < |n| ==> n[j] == src[pos + j];
      }
    }
  }

  /** A version entry's extension list: non-empty strings, then one empty
      string. */
  ghost predicate ValidExtension(xs: seq<Name>)
  {
    xs != [] && xs[|xs| - 1] == [] &&
    forall j :: 0 <= j < |xs| - 1 ==> xs[j] != [] && ValidName(xs[j])
  }

  /** One record as read from the stream, and where the cursor is left. */
  datatype Record = Record(name: Name, properties: Properties, ext: Option<seq<Name>>, next: nat)

  /** One pass of the header loop body at record index `i`: the name, the
      property words and, for an empty name at index 0, the extension strings
      closed by one empty string. Fails on a name that does not fit or is not
      terminated, and on a truncated property block. */
  function ReadRecord(src: seq<byte>, pos: nat, i: nat): (r: Option<Record>)
    requires pos <= |src|
    ensures r.Some? ==> pos < r.value.next <= |src|
  {
    var s := GetDelimSpec(src, pos, MAXNAMELEN, 0);
    if s.sz < 0 || |src| - s.next < PROPS_SIZE then None
    else
      var props := PropsAt(src, s.next);
      var afterProps := s.next + PROPS_SIZE;
      if s.sz == 0 && i == 0 then
        var x := ReadExtensions(src, afterProps);
        Some(Record([], props, Some(x.strings + [[]]), x.next))
      else
        Some(Record(src[pos..pos + s.sz], props, None, afterProps))
  }

  /** A record read is a valid name stored at `pos` and closed by NUL, the
      property words right after it, and, only for an empty name at index 0,
      a valid extension list. */
  lemma {:induction false} ReadRecordFacts(src: seq<byte>, pos: nat, i: nat, rec: Record)
    requires pos <= |src| && ReadRecord(src, pos, i) == Some(rec)
    ensures pos + |rec.name| + 1 + PROPS_SIZE <= rec.next
    ensures ValidName(rec.name) && src[pos..pos + |rec.name|] == rec.name && src[pos + |rec.name|] == 0
    ensures rec.properties == PropsAt(src, pos + |rec.name| + 1)
    ensures rec.name == [] && i == 0 ==> rec.ext.Some? && ValidExtension(rec.ext.value)
    ensures !(rec.name == [] && i == 0) ==> rec.ext.None? && rec.next == pos + |rec.name| + 1 + PROPS_SIZE
  {
    var s := GetDelimSpec(src, pos, MAXNAMELEN, 0);
    GetDelimSpecDescribed(src, pos, MAXNAMELEN, 0);
    assert ValidName(rec.name) by {
      assert forall j :: 0 <= j < |rec.name| ==> rec.name[j] == src[pos + j];
    }
    if s.sz == 0 && i == 0 {
      ReadExtensionsValid(src, s.next + PROPS_SIZE);
      var x := ReadExtensions(src, s.next + PROPS_SIZE);
      var xs := x.strings + [[]];
      assert forall j :: 0 <= j < |xs| - 1 ==> xs[j] == x.strings[j];
    }
  }

  /** The result of a header read: its outcome, the entries appended to the
      catalog (also those appended before a failure), and the cursor. */
  datatype Parsed = Parsed(outcome: PboError, entries: seq<Entry>, end: nat)

  /** Whether record `rec` read at index `i` is the sentinel that ends the
      header: an empty name at any index but the first (libpbo/pbo.c:125-126). */
  predicate IsSentinel(rec: Record, i: nat)
  {
    rec.name == [] && i > 0
  }

  /** The catalog entry for record `rec`, its payload at `offset`. */
  function EntryOf(rec: Record, offset: nat): Entry
  {
    Entry(rec.name, rec.properties, rec.ext, offset)
  }

  /** The header loop from record index `i` at cursor `pos`, with running
      payload offset `offset`: every record read is appended, and the
      sentinel ends the loop. */
  function ParseRecords(src: seq<byte>, pos: nat, i: nat, offset: nat): (r: Parsed)
    requires pos <= |src|
    ensures r.end <= |src|
    decreases |src| - pos, 1
  {
    match ReadRecord(src, pos, i)
    case None => Parsed(ErrorBroken, [], pos)
    case Some(rec) => Continue(src, rec, i, offset)
  }

  /** The rest of the header loop once record `rec` has been read at index
      `i`: the record is appended, and the sentinel ends the loop. */
  function Continue(src: seq<byte>, rec: Record, i: nat, offset: nat): (r: Parsed)
    requires 0 < rec.next <= |src|
    ensures r.end <= |src|
    ensures r.entries != [] && r.entries[0] == EntryOf(rec, offset)
    decreases |src| - rec.next + 1, 0
  {
    var e := EntryOf(rec, offset);
    if IsSentinel(rec, i) then Parsed(Success, [e], rec.next)
    else
      var rest := ParseRecords(src, rec.next, i + 1, offset + rec.properties[DATA_SIZE]);
      Parsed(rest.outcome, [e] + rest.entries, rest.end)
  }

  /** `pbo_read_header` on the bytes of an archive: the loop from record
      index 0 with payload offset 0. A successful read yields a well-formed
      catalog and stops right after the sentinel's property words; a broken
      one yields the valid records read before the failure. */
  function ParseHeader(src: seq<byte>): (r: Parsed)
    ensures r.end <= |src|
    ensures r.outcome == Success || r.outcome == ErrorBroken
    ensures r.outcome == Success ==> WellFormed(r.entries)
    ensures r.outcome == ErrorBroken ==> RecordsFrom(r.entries, 0, 0, false)
    ensures EndsAfterSentinel(src, r)
  {
    ParsedShape(src, 0, 0, 0);
    ParsedEnd(src, 0, 0, 0);
    ParseRecords(src, 0, 0, 0)
  }

  /** One step of the header loop, for a record that is not the sentinel. */
  lemma {:induction false} ParseRecordsStep(src: seq<byte>, pos: nat, i: nat, offset: nat, rec: Record, rest: Parsed)
    requires pos <= |src| && ReadRecord(src, pos, i) == Some(rec) && !IsSentinel(rec, i)
    requires rest == ParseRecords(src, rec.next, i + 1, offset + rec.properties[DATA_SIZE])
    ensures ParseRecords(src, pos, i, offset) == Parsed(rest.outcome, [EntryOf(rec, offset)] + rest.entries, rest.end)
  {
  }

  /** Record `e` at position `index` of a header; `last` says whether it ends
      the header. Only an empty name at index 0 carries an extension list, and
      exactly an empty name at a later index ends the header. */
  ghost predicate ValidRecord(e: Entry, index: nat, last: bool)
  {
    ValidName(e.name) &&
    (if e.name == [] && index == 0 then e.ext.Some? && ValidExtension(e.ext.value) else e.ext.None?) &&
    (last <==> e.name == [] && index > 0)
  }

  /** Records as a read from index `i` with offsets from `off` appends them:
      valid, with payload offsets laid end to end, and, when `complete`, non-
      empty and closed by exactly one sentinel. */
  ghost predicate RecordsFrom(c: seq<Entry>, i: nat, off: nat, complete: bool)
  {
    (complete ==> c != []) &&
    (forall j :: 0 <= j < |c| ==> ValidRecord(c[j], i + j, complete && j == |c| - 1)) &&
    OffsetsFrom(c, off)
  }

  /** A catalog as a successful header read leaves it. */
  ghost predicate WellFormed(c: seq<Entry>)
  {
    RecordsFrom(c, 0, 0, true)
  }

  lemma {:induction false} RecordsCons(e: Entry, c: seq<Entry>, i: nat, off: nat, complete: bool)
    requires ValidRecord(e, i, false) && e.fileOffset == off
    requires RecordsFrom(c, i + 1, off + e.properties[DATA_SIZE], complete)
    ensures RecordsFrom([e] + c, i, off, complete)
  {
    OffsetsCons(e, c, off);
    assert forall j :: 0 < j < |[e] + c| ==> ([e] + c)[j] == c[j - 1];
  }

  lemma {:induction false} RecordsTail(c: seq<Entry>, i: nat, off: nat, complete: bool)
    requires RecordsFrom(c, i, off, complete) && |c| > 1
    ensures ValidRecord(c[0], i, false) && c[0].fileOffset == off
    ensures RecordsFrom(c[1..], i + 1, off + c[0].properties[DATA_SIZE], complete)
  {
    OffsetsTail(c, off);
    assert forall j :: 0 <= j < |c| - 1 ==> c[1..][j] == c[j + 1];
  }

  /** Every record read is valid at its index, and it ends the header
      exactly when it is the sentinel. */
  lemma {:induction false} ReadRecordValid(src: seq<byte>, pos: nat, i: nat, rec: Record, offset: nat)
    requires pos <= |src| && ReadRecord(src, pos, i) == Some(rec)
    ensures ValidRecord(EntryOf(rec, offset), i, IsSentinel(rec, i))
  {
    ReadRecordFacts(src, pos, i, rec);
  }

  /** What every header read yields, complete or not: records as the grammar
      allows them, offsets accumulated from `offset`, and a sentinel exactly
      when the read succeeds. */
  lemma {:induction false} ParsedShape(src: seq<byte>, pos: nat, i: nat, offset: nat)
    requires pos <= |src|
    ensures Shaped(ParseRecords(src, pos, i, offset), i, offset)
    decreases |src| - pos
  {
    var rr := ReadRecord(src, pos, i);
    if rr.None? {
      assert ParseRecords(src, pos, i, offset) == Parsed(ErrorBroken, [], pos);
    } else {
      var rec := rr.value;
      ReadRecordValid(src, pos, i, rec, offset);
      if IsSentinel(rec, i) {
        assert ParseRecords(src, pos, i, offset) == Parsed(Success, [EntryOf(rec, offset)], rec.next);
        ShapedLast(EntryOf(rec, offset), i, offset, rec.next);
      } else {
        var rest := ParseRecords(src, rec.next, i + 1, offset + rec.properties[DATA_SIZE]);
        ParsedShape(src, rec.next, i + 1, offset + rec.properties[DATA_SIZE]);
        ParseRecordsStep(src, pos, i, offset, rec, rest);
        ShapedCons(EntryOf(rec, offset), rest, i, offset);
      }
    }
  }

  /** The outcome and records of a header read from index `i` with offsets
      from `offset`. */
  ghost predicate Shaped(r: Parsed, i: nat, offset: nat)
  {
    (r.outcome == Success || r.outcome == ErrorBroken) &&
    RecordsFrom(r.entries, i, offset, r.outcome == Success)
  }

  lemma {:induction false} ShapedLast(e: Entry, i: nat, offset: nat, end: nat)
    requires ValidRecord(e, i, true) && e.fileOffset == offset
    ensures Shaped(Parsed(Success, [e], end), i, offset)
  {
    OffsetsCons(e, [], offset);
  }

  lemma {:induction false} ShapedCons(e: Entry, rest: Parsed, i: nat, offset: nat)
    requires ValidRecord(e, i, false) && e.fileOffset == offset
    requires Shaped(rest, i + 1, offset + e.properties[DATA_SIZE])
    ensures Shaped(Parsed(rest.outcome, [e] + rest.entries, rest.end), i, offset)
  {
    RecordsCons(e, rest.entries, i, offset, rest.outcome == Success);
  }

  /** A successful read `r` stops right after the sentinel: its NUL and its
      20 property bytes end at `r.end`. */
  ghost predicate EndsAfterSentinel(src: seq<byte>, r: Parsed)
  {
    r.outcome == Success ==>
      r.entries != [] && PROPS_SIZE < r.end <= |src| &&
      src[r.end - PROPS_SIZE - 1] == 0 &&
      PropsAt(src, r.end - PROPS_SIZE) == r.entries[|r.entries| - 1].properties
  }

  lemma {:induction false} ParsedEnd(src: seq<byte>, pos: nat, i: nat, offset: nat)
    requires pos <= |src|
    ensures EndsAfterSentinel(src, ParseRecords(src, pos, i, offset))
    decreases |src| - pos
  {
    var rr := ReadRecord(src, pos, i);
    if rr.Some? {
      var rec := rr.value;
      if IsSentinel(rec, i) {
        assert ParseRecords(src, pos, i, offset) == Parsed(Success, [EntryOf(rec, offset)], rec.next);
        assert rec.next == pos + 1 + PROPS_SIZE && src[pos] == 0 && rec.properties == PropsAt(src, pos + 1) by {
          ReadRecordFacts(src, pos, i, rec);
        }
        EndsLast(src, EntryOf(rec, offset), rec.next);
      } else {
        var rest := ParseRecords(src, rec.next, i + 1, offset + rec.properties[DATA_SIZE]);
        ParsedEnd(src, rec.next, i + 1, offset + rec.properties[DATA_SIZE]);
        ParseRecordsStep(src, pos, i, offset, rec, rest);
        EndsCons(src, EntryOf(rec, offset), rest);
      }
    }
  }

  lemma {:induction false} EndsLast(src: seq<byte>, e: Entry, end: nat)
    requires PROPS_SIZE < end <= |src| && src[end - PROPS_SIZE - 1] == 0
    requires e.properties == PropsAt(src, end - PROPS_SIZE)
    ensures EndsAfterSentinel(src, Parsed(Success, [e], end))
  {
  }

  lemma {:induction false} EndsCons(src: seq<byte>, e: Entry, rest: Parsed)
    requires EndsAfterSentinel(src, rest)
    ensures EndsAfterSentinel(src, Parsed(rest.outcome, [e] + rest.entries, rest.end))
  {
    if rest.outcome == Success {
      assert ([e] + rest.entries)[|rest.entries|] == rest.entries[|rest.entries| - 1];
    }
  }

  /** The bytes of one string followed by its NUL. */
  function Terminated(n: Name): seq<byte>
  {
    n + [0]
  }

  /** Extension strings as stored: each followed by its NUL. With the list's
      closing empty string this ends in the empty string that stops the read. */
  function ExtBytes(xs: seq<Name>): seq<byte>
  {
    if xs == [] then [] else Terminated(xs[0]) + ExtBytes(xs[1..])
  }

  /** The bytes of one header record. */
  function RecordBytes(e: Entry): seq<byte>
  {
    Terminated(e.name) + WordsLe(e.properties) + ExtPart(e)
  }

  /** The extension strings a record carries, as stored. */
  function ExtPart(e: Entry): seq<byte>
  {
    if e.ext.Some? then ExtBytes(e.ext.value) else []
  }

  /** The header layout: the records in catalog order. */
  function HeaderBytes(c: seq<Entry>): seq<byte>
  {
    if c == [] then [] else RecordBytes(c[0]) + HeaderBytes(c[1..])
  }

  /** `src` holds `b` at `pos`. */
  ghost predicate HoldsAt(src: seq<byte>, pos: nat, b: seq<byte>)
  {
    pos + |b| <= |src| && src[pos..pos + |b|] == b
  }

  lemma {:induction false} HoldsAtSplit(src: seq<byte>, pos: nat, a: seq<byte>, b: seq<byte>)
    requires HoldsAt(src, pos, a + b)
    ensures HoldsAt(src, pos, a) && HoldsAt(src, pos + |a|, b)
  {
    assert src[pos..pos + |a|] == (a + b)[..|a|];
    assert src[pos + |a|..pos + |a| + |b|] == (a + b)[|a|..];
  }

  /** Property words read back from where they are stored. */
  lemma {:induction false} PropsAtEncoded(src: seq<byte>, q: nat, p: Properties)
    requires HoldsAt(src, q, WordsLe(p))
    ensures PropsAt(src, q) == p
  {
    WordsRoundTrip(p);
  }

  /** A valid name followed by its NUL reads back as itself. */
  lemma {:induction false} GetDelimName(src: seq<byte>, pos: nat, n: Name)
    requires ValidName(n) && HoldsAt(src, pos, Terminated(n))
    ensures GetDelimSpec(src, pos, MAXNAMELEN, 0) == Scan(|n|, pos + |n| + 1)
    ensures src[pos..pos + |n|] == n
  {
    assert src[pos + |n|] == Terminated(n)[|n|] == 0;
    assert forall j :: pos <= j < pos + |n| ==> src[j] == n[j - pos] by {
      forall j | pos <= j < pos + |n| ensures src[j] == n[j - pos] {
        assert src[j] == src[pos..pos + |n| + 1][j - pos];
      }
    }
    assert src[pos..pos + |n|] == n;
    GetDelimSpecExact(src, pos, MAXNAMELEN, 0, Scan(|n|, pos + |n| + 1));
  }

  lemma {:induction false} ReadExtensionBytes(src: seq<byte>, pos: nat, xs: seq<Name>)
    requires ValidExtension(xs) && HoldsAt(src, pos, ExtBytes(xs))
    ensures ReadExtensions(src, pos) == ExtScan(xs[..|xs| - 1], pos + |ExtBytes(xs)|)
    decreases |xs|, 1
  {
    ExtSplit(src, pos, xs);
    assert GetDelimSpec(src, pos, MAXNAMELEN, 0) == Scan(|xs[0]|, pos + |xs[0]| + 1) && src[pos..pos + |xs[0]|] == xs[0] by {
      GetDelimName(src, pos, xs[0]);
    }
    if |xs| == 1 {
      assert xs[..0] == [];
    } else {
      ReadExtensionsMore(src, pos, xs);
    }
  }

  lemma {:induction false} ReadExtensionsMore(src: seq<byte>, pos: nat, xs: seq<Name>)
    requires |xs| > 1 && ValidExtension(xs)
    requires pos <= |src| && GetDelimSpec(src, pos, MAXNAMELEN, 0) == Scan(|xs[0]|, pos + |xs[0]| + 1) && src[pos..pos + |xs[0]|] == xs[0]
    requires HoldsAt(src, pos + |xs[0]| + 1, ExtBytes(xs[1..]))
    ensures ReadExtensions(src, pos) == ExtScan(xs[..|xs| - 1], pos + |xs[0]| + 1 + |ExtBytes(xs[1..])|)
    decreases |xs|, 0
  {
    var p := pos + |xs[0]| + 1;
    var rest := xs[1..];
    assert ValidExtension(rest) by {
      assert forall j :: 0 <= j < |rest| - 1 ==> rest[j] == xs[j + 1];
    }
    ReadExtensionBytes(src, p, rest);
    ReadExtensionsStep(src, pos, xs[0], ReadExtensions(src, p));
    assert [xs[0]] + rest[..|rest| - 1] == xs[..|xs| - 1];
  }

  /** The extension loop after a non-empty string. */
  lemma {:induction false} ReadExtensionsStep(src: seq<byte>, pos: nat, x: Name, rest: ExtScan)
    requires pos + |x| < |src| && x != []
    requires GetDelimSpec(src, pos, MAXNAMELEN, 0) == Scan(|x|, pos + |x| + 1) && src[pos..pos + |x|] == x
    requires rest == ReadExtensions(src, pos + |x| + 1)
    ensures ReadExtensions(src, pos) == ExtScan([x] + rest.strings, rest.next)
  {
  }

  /** The stored extension strings are the first one, then the rest. */
  lemma {:induction false} ExtSplit(src: seq<byte>, pos: nat, xs: seq<Name>)
    requires xs != [] && HoldsAt(src, pos, ExtBytes(xs))
    ensures HoldsAt(src, pos, Terminated(xs[0]))
    ensures HoldsAt(src, pos + |xs[0]| + 1, ExtBytes(xs[1..]))
    ensures |ExtBytes(xs)| == |xs[0]| + 1 + |ExtBytes(xs[1..])|
  {
    assert ExtBytes(xs) == Terminated(xs[0]) + ExtBytes(xs[1..]);
    HoldsAtSplit(src, pos, Terminated(xs[0]), ExtBytes(xs[1..]));
  }

  /** The layout of a valid record reads back as that record. */
  lemma {:induction false} ReadRecordBytes(src: seq<byte>, pos: nat, i: nat, e: Entry, last: bool)
    requires ValidRecord(e, i, last) && HoldsAt(src, pos, RecordBytes(e))
    ensures ReadRecord(src, pos, i) == Some(Record(e.name, e.properties, e.ext, pos + |RecordBytes(e)|))
  {
    var p := pos + |e.name| + 1;
    RecordHead(src, pos, e);
    if e.name == [] && i == 0 {
      var xs := e.ext.value;
      assert ReadExtensions(src, p + PROPS_SIZE).strings + [[]] == xs &&
             ReadExtensions(src, p + PROPS_SIZE).next == pos + |RecordBytes(e)| by {
        ReadExtensionBytes(src, p + PROPS_SIZE, xs);
        assert xs[..|xs| - 1] + [[]] == xs;
      }
      ReadVersionRecord(src, pos, e.properties, xs, pos + |RecordBytes(e)|);
    } else {
      ReadPlainRecord(src, pos, i, e.name, e.properties);
    }
  }

  /** The name and the property words of a valid record's layout read back,
      and what follows them is its extension strings. */
  lemma {:induction false} RecordHead(src: seq<byte>, pos: nat, e: Entry)
    requires ValidName(e.name) && HoldsAt(src, pos, RecordBytes(e))
    ensures GetDelimSpec(src, pos, MAXNAMELEN, 0) == Scan(|e.name|, pos + |e.name| + 1)
    ensures src[pos..pos + |e.name|] == e.name
    ensures pos + |e.name| + 1 + PROPS_SIZE <= |src|
    ensures PropsAt(src, pos + |e.name| + 1) == e.properties
    ensures HoldsAt(src, pos + |e.name| + 1 + PROPS_SIZE, ExtPart(e))
    ensures |RecordBytes(e)| == |e.name| + 1 + PROPS_SIZE + |ExtPart(e)|
  {
    var p := pos + |e.name| + 1;
    RecordSplit(src, pos, e);
    assert GetDelimSpec(src, pos, MAXNAMELEN, 0) == Scan(|e.name|, p) && src[pos..pos + |e.name|] == e.name by {
      GetDelimName(src, pos, e.name);
    }
    assert PropsAt(src, p) == e.properties by {
      PropsAtEncoded(src, p, e.properties);
    }
  }

  /** A record whose name is read back, with its property words after it,
      and which is not the version entry. */
  lemma {:induction false} ReadPlainRecord(src: seq<byte>, pos: nat, i: nat, name: Name, props: Properties)
    requires pos + |name| + 1 + PROPS_SIZE <= |src| && !(name == [] && i == 0)
    requires GetDelimSpec(src, pos, MAXNAMELEN, 0) == Scan(|name|, pos + |name| + 1)
    requires src[pos..pos + |name|] == name && PropsAt(src, pos + |name| + 1) == props
    ensures ReadRecord(src, pos, i) == Some(Record(name, props, None, pos + |name| + 1 + PROPS_SIZE))
  {
  }

  /** The version entry: an empty name, its property words, and the
      extension strings read after them. */
  lemma {:induction false} ReadVersionRecord(src: seq<byte>, pos: nat, props: Properties, xs: seq<Name>, end: nat)
    requires pos + 1 + PROPS_SIZE <= |src|
    requires GetDelimSpec(src, pos, MAXNAMELEN, 0) == Scan(0, pos + 1) && PropsAt(src, pos + 1) == props
    requires ReadExtensions(src, pos + 1 + PROPS_SIZE).strings + [[]] == xs
    requires ReadExtensions(src, pos + 1 + PROPS_SIZE).next == end
    ensures ReadRecord(src, pos, 0) == Some(Record([], props, Some(xs), end))
  {
  }

  /** The three parts of a record's layout, one after the other. */
  lemma {:induction false} RecordSplit(src: seq<byte>, pos: nat, e: Entry)
    requires HoldsAt(src, pos, RecordBytes(e))
    ensures HoldsAt(src, pos, Terminated(e.name))
    ensures HoldsAt(src, pos + |e.name| + 1, WordsLe(e.properties))
    ensures HoldsAt(src, pos + |e.name| + 1 + PROPS_SIZE, ExtPart(e))
    ensures |RecordBytes(e)| == |e.name| + 1 + PROPS_SIZE + |ExtPart(e)|
  {
    assert RecordBytes(e) == Terminated(e.name) + (WordsLe(e.properties) + ExtPart(e));
    HoldsAtSplit(src, pos, Terminated(e.name), WordsLe(e.properties) + ExtPart(e));
    HoldsAtSplit(src, pos + |e.name| + 1, WordsLe(e.properties), ExtPart(e));
  }

  /** The records `c` are read back one after the other from `pos`, the
      first at record index `i`. */
  ghost predicate ReadsBack(src: seq<byte>, pos: nat, i: nat, c: seq<Entry>)
    decreases |c|, 1
  {
    c != [] && pos <= |src| &&
    ReadRecord(src, pos, i) == Some(Record(c[0].name, c[0].properties, c[0].ext, pos + |RecordBytes(c[0])|)) &&
    ReadsBackAfter(src, pos + |RecordBytes(c[0])|, i + 1, c[1..])
  }

  /** `ReadsBack` for what follows a record: nothing, or further records. */
  ghost predicate ReadsBackAfter(src: seq<byte>, pos: nat, i: nat, c: seq<Entry>)
    decreases |c| + 1, 0
  {
    c == [] || ReadsBack(src, pos, i, c)
  }

  /** The layout of a complete catalog is read back record by record. */
  lemma {:induction false} LayoutReadsBack(src: seq<byte>, pos: nat, i: nat, c: seq<Entry>)
    requires c != [] && LaidOut(src, pos, c)
    requires forall j :: 0 <= j < |c| ==> ValidRecord(c[j], i + j, j == |c| - 1)
    ensures ReadsBack(src, pos, i, c)
    decreases |c|
  {
    var end := pos + |RecordBytes(c[0])|;
    LayoutHead(src, pos, i, c);
    if |c| > 1 {
      var tail := c[1..];
      assert forall j :: 0 <= j < |tail| ==> ValidRecord(tail[j], i + 1 + j, j == |tail| - 1) by {
        assert forall j :: 0 <= j < |tail| ==> tail[j] == c[j + 1];
      }
      LayoutReadsBack(src, end, i + 1, tail);
    }
    ReadsBackCons(src, pos, i, c);
  }

  /** The first record of a laid-out catalog reads back. */
  lemma {:induction false} LayoutHead(src: seq<byte>, pos: nat, i: nat, c: seq<Entry>)
    requires c != [] && LaidOut(src, pos, c) && ValidRecord(c[0], i, |c| == 1)
    ensures pos <= |src|
    ensures ReadRecord(src, pos, i) == Some(Record(c[0].name, c[0].properties, c[0].ext, pos + |RecordBytes(c[0])|))
    ensures LaidOut(src, pos + |RecordBytes(c[0])|, c[1..])
  {
    ReadRecordBytes(src, pos, i, c[0], |c| == 1);
  }

  lemma {:induction false} ReadsBackCons(src: seq<byte>, pos: nat, i: nat, c: seq<Entry>)
    requires c != [] && pos <= |src|
    requires ReadRecord(src, pos, i) == Some(Record(c[0].name, c[0].properties, c[0].ext, pos + |RecordBytes(c[0])|))
    requires |c| > 1 ==> ReadsBack(src, pos + |RecordBytes(c[0])|, i + 1, c[1..])
    ensures ReadsBack(src, pos, i, c)
  {
  }

  /** `src` holds the records `c` one after the other from `pos`. */
  ghost predicate LaidOut(src: seq<byte>, pos: nat, c: seq<Entry>)
    decreases |c|
  {
    c == [] || (HoldsAt(src, pos, RecordBytes(c[0])) && LaidOut(src, pos + |RecordBytes(c[0])|, c[1..]))
  }

  lemma {:induction false} HeaderLaidOut(src: seq<byte>, pos: nat, c: seq<Entry>)
    requires HoldsAt(src, pos, HeaderBytes(c))
    ensures LaidOut(src, pos, c)
    decreases |c|
  {
    if c != [] {
      HeaderSplit(src, pos, c);
      HeaderLaidOut(src, pos + |RecordBytes(c[0])|, c[1..]);
    }
  }

  /** Records read back one after the other, the last of them the sentinel,
      make a successful header read that stops after the last one. */
  lemma {:induction false} ParseReadsBack(src: seq<byte>, pos: nat, i: nat, offset: nat, c: seq<Entry>)
    requires RecordsFrom(c, i, offset, true) && ReadsBack(src, pos, i, c)
    ensures ParseRecords(src, pos, i, offset) == Parsed(Success, c, pos + |HeaderBytes(c)|)
  {
    var rec := Record(c[0].name, c[0].properties, c[0].ext, pos + |RecordBytes(c[0])|);
    ContinueBack(src, pos, rec, i, offset, c);
  }

  /** The rest of the header loop after the first of the records `c`, the
      others following it, reads them all and stops after the last. */
  lemma {:induction false} ContinueBack(src: seq<byte>, pos: nat, rec: Record, i: nat, offset: nat, c: seq<Entry>)
    requires c != [] && RecordsFrom(c, i, offset, true)
    requires rec == Record(c[0].name, c[0].properties, c[0].ext, pos + |RecordBytes(c[0])|) && rec.next <= |src|
    requires ReadsBackAfter(src, rec.next, i + 1, c[1..])
    ensures 0 < rec.next && Continue(src, rec, i, offset) == Parsed(Success, c, pos + |HeaderBytes(c)|)
    decreases |c|, 1
  {
    assert ValidRecord(c[0], i, |c| == 1) && c[0].fileOffset == offset by {
      assert c[..0] == [];
    }
    assert |HeaderBytes(c)| == |RecordBytes(c[0])| + |HeaderBytes(c[1..])|;
    if |c| == 1 {
      assert c == [EntryOf(rec, offset)];
      assert Continue(src, rec, i, offset) == Parsed(Success, c, rec.next);
    } else {
      RecordsTail(c, i, offset, true);
      ContinueMore(src, pos, rec, i, offset, c);
    }
  }

  lemma {:induction false} ContinueMore(src: seq<byte>, pos: nat, rec: Record, i: nat, offset: nat, c: seq<Entry>)
    requires |c| > 1 && RecordsFrom(c[1..], i + 1, offset + c[0].properties[DATA_SIZE], true)
    requires rec == Record(c[0].name, c[0].properties, c[0].ext, pos + |RecordBytes(c[0])|) && rec.next <= |src|
    requires ReadsBack(src, rec.next, i + 1, c[1..])
    requires ValidRecord(c[0], i, false) && c[0].fileOffset == offset
    ensures 0 < rec.next && Continue(src, rec, i, offset) == Parsed(Success, c, rec.next + |HeaderBytes(c[1..])|)
    decreases |c|, 0
  {
    var next := offset + c[0].properties[DATA_SIZE];
    var tail := c[1..];
    var rec2 := Record(tail[0].name, tail[0].properties, tail[0].ext, rec.next + |RecordBytes(tail[0])|);
    ContinueBack(src, rec.next, rec2, i + 1, next, tail);
    ParseRecordsAt(src, rec.next, i + 1, next, rec2);
    ContinueStep(src, rec, i, offset, ParseRecords(src, rec.next, i + 1, next));
    assert c == [EntryOf(rec, offset)] + tail;
  }

  /** The header loop at a record read. */
  lemma {:induction false} ParseRecordsAt(src: seq<byte>, pos: nat, i: nat, offset: nat, rec: Record)
    requires pos <= |src| && ReadRecord(src, pos, i) == Some(rec)
    ensures ParseRecords(src, pos, i, offset) == Continue(src, rec, i, offset)
  {
  }

  /** The header loop after a record that is not the sentinel. */
  lemma {:induction false} ContinueStep(src: seq<byte>, rec: Record, i: nat, offset: nat, rest: Parsed)
    requires 0 < rec.next <= |src| && !IsSentinel(rec, i)
    requires rest == ParseRecords(src, rec.next, i + 1, offset + rec.properties[DATA_SIZE])
    ensures Continue(src, rec, i, offset) == Parsed(rest.outcome, [EntryOf(rec, offset)] + rest.entries, rest.end)
  {
  }

  /** The layout of a catalog is its first record's, then the rest. */
  lemma {:induction false} HeaderSplit(src: seq<byte>, pos: nat, c: seq<Entry>)
    requires c != [] && HoldsAt(src, pos, HeaderBytes(c))
    ensures HoldsAt(src, pos, RecordBytes(c[0]))
    ensures HoldsAt(src, pos + |RecordBytes(c[0])|, HeaderBytes(c[1..]))
    ensures |HeaderBytes(c)| == |RecordBytes(c[0])| + |HeaderBytes(c[1..])|
  {
    assert HeaderBytes(c) == RecordBytes(c[0]) + HeaderBytes(c[1..]);
    HoldsAtSplit(src, pos, RecordBytes(c[0]), HeaderBytes(c[1..]));
  }

  /** Round trip: the header of a well-formed catalog, followed by any data,
      reads back as that catalog, and the header size is the layout's length. */
  lemma {:induction false} ParseHeaderBytes(c: seq<Entry>, data: seq<byte>)
    requires WellFormed(c)
    ensures ParseHeader(HeaderBytes(c) + data) == Parsed(Success, c, |HeaderBytes(c)|)
  {
    var src := HeaderBytes(c) + data;
    assert src[0..|HeaderBytes(c)|] == HeaderBytes(c);
    HeaderLaidOut(src, 0, c);
    LayoutReadsBack(src, 0, 0, c);
    ParseReadsBack(src, 0, 0, 0, c);
  }
}
