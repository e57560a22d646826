/** The entry catalog: the records of an archive header in file order
    (libpbo/pbo.c:19-42, 204-233). */
module Catalog {
  import opened Wrappers
  import opened Bytes

  /** Longest name, including its NUL, that the header reader accepts. */
  const MAXNAMELEN: nat := 512

  /** An entry name or header-extension string, without its NUL. */
  type Name = seq<byte>

  /** The five property words of a record, in file order (`uint32_t
      properties[5]`), indexed by the constants below. */
  type Properties = p: seq<u32> | |p| == 5 witness [0, 0, 0, 0, 0]

  const PACKING_METHOD: nat := 0
  const ORIGINAL_SIZE: nat := 1
  const RES: nat := 2
  const TIME_STAMP: nat := 3
  const DATA_SIZE: nat := 4

  /** `struct pbo_entry`. `ext` is the header extension list, present only on
      the version entry; `fileOffset` is where the payload starts in the data
      region. */
  datatype Entry = Entry(name: Name, properties: Properties, ext: Option<seq<Name>>, fileOffset: nat)

  /** Total DATA_SIZE of the entries of `c`. */
  function SizeSum(c: seq<Entry>): nat
  {
    if c == [] then 0 else c[0].properties[DATA_SIZE] + SizeSum(c[1..])
  }

  /** Every entry's payload starts where the payloads of the entries before it,
      laid end to end from `off`, stop. */
  ghost predicate OffsetsFrom(c: seq<Entry>, off: nat)
  {
    forall j :: 0 <= j < |c| ==> c[j].fileOffset == off + SizeSum(c[..j])
  }

  lemma {:induction false} SizeSumAppend(c: seq<Entry>, e: Entry)
    ensures SizeSum(c + [e]) == SizeSum(c) + e.properties[DATA_SIZE]
  {
    if c == [] {
      assert [e][1..] == [];
    } else {
      assert (c + [e])[1..] == c[1..] + [e];
      SizeSumAppend(c[1..], e);
    }
  }

  /** Offsets of a catalog that starts with `e` are those of its tail shifted
      by `e`'s DATA_SIZE. */
  lemma {:induction false} OffsetsCons(e: Entry, c: seq<Entry>, off: nat)
    requires e.fileOffset == off && OffsetsFrom(c, off + e.properties[DATA_SIZE])
    ensures OffsetsFrom([e] + c, off)
  {
    forall j | 0 <= j < |[e] + c|
      ensures ([e] + c)[j].fileOffset == off + SizeSum(([e] + c)[..j])
    {
      if j > 0 {
        assert ([e] + c)[..j][1..] == c[..j - 1];
      }
    }
  }

  lemma {:induction false} OffsetsTail(c: seq<Entry>, off: nat)
    requires c != [] && OffsetsFrom(c, off)
    ensures c[0].fileOffset == off && OffsetsFrom(c[1..], off + c[0].properties[DATA_SIZE])
  {
    assert c[..0] == [];
    forall j | 0 <= j < |c| - 1
      ensures c[1..][j].fileOffset == off + c[0].properties[DATA_SIZE] + SizeSum(c[1..][..j])
    {
      assert c[..j + 1][1..] == c[1..][..j];
    }
  }

  /** `pbo_find_file`: the index of the first entry named exactly `name`. */
  function FindFile(c: seq<Entry>, name: Name): (r: Option<nat>)
    ensures r.Some? ==>
      r.value < |c| && c[r.value].name == name &&
      forall j :: 0 <= j < r.value ==> c[j].name != name
    ensures r.None? ==> forall j :: 0 <= j < |c| ==> c[j].name != name
  {
    if c == [] then None
    else if c[0].name == name then Some(0)
    else match FindFile(c[1..], name)
      case None => None
      case Some(i) => Some(i + 1)
  }

  /** Appending keeps every earlier entry where it was, so a name already
      present still resolves to its first entry, and the new entry is found
      only when no earlier one has its name. */
  lemma {:induction false} FindFileAppend(c: seq<Entry>, e: Entry, name: Name)
    ensures FindFile(c + [e], name) ==
      if FindFile(c, name).Some? then FindFile(c, name)
      else if e.name == name then Some(|c|)
      else None
  {
    if c == [] {
      assert [e][1..] == [];
    } else {
      assert (c + [e])[1..] == c[1..] + [e];
      FindFileAppend(c[1..], e, name);
    }
  }

  lemma {:induction false} SizeSumPrefix(c: seq<Entry>, j: nat, k: nat)
    requires j <= k <= |c|
    ensures SizeSum(c[..j]) <= SizeSum(c[..k])
    ensures j < k ==> SizeSum(c[..j]) + c[j].properties[DATA_SIZE] <= SizeSum(c[..k])
    decreases k - j
  {
    if j < k {
      assert c[..j + 1] == c[..j] + [c[j]];
      SizeSumAppend(c[..j], c[j]);
      SizeSumPrefix(c, j + 1, k);
    }
  }

  /** With offsets laid end to end, the payload of an earlier entry ends
      before the payload of a later one starts. */
  lemma {:induction false} PayloadsDisjoint(c: seq<Entry>, off: nat, j: nat, k: nat)
    requires OffsetsFrom(c, off) && j < k < |c|
    ensures c[j].fileOffset + c[j].properties[DATA_SIZE] <= c[k].fileOffset
  {
    SizeSumPrefix(c, j, k);
  }

  /** Every payload lies inside the data region: it starts at or after `off`
      and ends by `off` plus the total DATA_SIZE. */
  lemma {:induction false} PayloadWithin(c: seq<Entry>, off: nat, j: nat)
    requires OffsetsFrom(c, off) && j < |c|
    ensures off <= c[j].fileOffset
    ensures c[j].fileOffset + c[j].properties[DATA_SIZE] <= off + SizeSum(c)
  {
    SizeSumPrefix(c, j, |c|);
    assert c[..|c|] == c;
  }

  /** `pbo_get_file_size`: the DATA_SIZE of the first entry named `name`, or 0
      when there is none. */
  function FileSize(c: seq<Entry>, name: Name): (r: u32)
    ensures (forall j :: 0 <= j < |c| ==> c[j].name != name) ==> r == 0
    ensures forall j :: 0 <= j < |c| && c[j].name == name && (forall k :: 0 <= k < j ==> c[k].name != name) ==>
      r == c[j].properties[DATA_SIZE]
  {
    match FindFile(c, name)
    case None => 0
    case Some(i) => c[i].properties[DATA_SIZE]
  }

  /** Slots `realloc` has provided for `len` strings: `len` rounded up to a
      multiple of 4. */
  function Capacity(len: nat): (cap: nat)
    ensures len <= cap < len + 4 && cap % 4 == 0
  {
    if len % 4 == 0 then len else len + 4 - len % 4
  }

  /** `struct header_extension`: a growable array of strings, grown by four
      slots whenever it is full. */
  class HeaderExtension {
    var len: nat
    var entries: array<Name>

    ghost predicate Valid()
      reads this
    {
      entries.Length == Capacity(len)
    }

    /** The strings added so far, in order. */
    function Contents(): (s: seq<Name>)
      reads this, entries
      requires Valid()
      ensures |s| == len
    {
      entries[..len]
    }

    /** A fresh list with no strings. The code leaves `len` and `entries` of
        the list it allocates uninitialised (libpbo/pbo.c:117); the model
        starts from `len` 0 and a zero-length array, the state the first
        `Add` expects. */
    constructor ()
      ensures Valid() && Contents() == [] && fresh(entries)
    {
      len := 0;
      entries := new Name[0];
    }

    /** `pbo_add_header_extension`. */
    method Add(e: Name)
      requires Valid()
      modifies this, entries
      ensures Valid()
      ensures Contents() == old(Contents()) + [e]
      ensures old(len) % 4 == 0 ==> fresh(entries) && entries.Length == old(len) + 4
      ensures old(len) % 4 != 0 ==> entries == old(entries)
    {
      if len % 4 == 0 {
        var grown := new Name[len + 4];
        forall k | 0 <= k < len {
          grown[k] := entries[k];
        }
        entries := grown;
      }
      entries[len] := e;
      len := len + 1;
    }
  }
}
