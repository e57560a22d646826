/** The bounded delimiter reader `pbo_util_getdelim` (libpbo/pbo.c:235-251).

    The archive stream is a byte sequence `src` with a read cursor `pos`;
    `fgetc` returns `src[pos]` and advances, or reports end of input without
    moving once `pos == |src|`. */
module Delim {
  import opened Bytes

  /** What one call reports: `sz`, the function's return value, and `next`,
      where the stream's cursor is left. */
  datatype Scan = Scan(sz: int, next: nat)

  /** The count `sz` of a scan that had already read `count` bytes. */
  function After(r: Scan, count: nat): Scan
  {
    if r.sz >= 0 then Scan(r.sz + count, r.next) else r
  }

  /** The outcome of reading up to `delim` with a window of `window` bytes,
      one `fgetc` at a time: the window fills up, input ends, or the
      delimiter is read. What it computes is stated by `Describes` and
      `GetDelimSpecExact`. */
  function GetDelimSpec(src: seq<byte>, pos: nat, window: nat, delim: byte): (r: Scan)
    requires pos <= |src|
    ensures pos <= r.next <= |src| && r.sz >= -1
    ensures r.sz >= 0 ==> r.next == pos + r.sz + 1
    decreases |src| - pos
  {
    if window == 0 || pos == |src| then Scan(-1, pos)   // the window is full, or input has ended
    else if src[pos] == delim then Scan(0, pos + 1)
    else After(GetDelimSpec(src, pos + 1, window - 1, delim), 1)
  }

  /** What a read of up to `window` bytes up to `delim` must report: when a
      delimiter occurs among the next `window` bytes, the count of bytes
      before the first one and the cursor right after it; otherwise -1 and the
      cursor after the full window or at end of input, whichever is first. */
  ghost predicate Describes(src: seq<byte>, pos: nat, window: nat, delim: byte, r: Scan)
    requires pos <= |src|
  {
    if r.sz >= 0 then
      r.sz < window && pos + r.sz < |src| && r.next == pos + r.sz + 1 && src[pos + r.sz] == delim &&
      forall j :: pos <= j < pos + r.sz ==> src[j] != delim
    else
      r.sz == -1 &&
      r.next == (if pos + window <= |src| then pos + window else |src|) &&
      forall j :: pos <= j < r.next ==> src[j] != delim
  }

  lemma {:induction false} GetDelimSpecDescribed(src: seq<byte>, pos: nat, window: nat, delim: byte)
    requires pos <= |src|
    ensures Describes(src, pos, window, delim, GetDelimSpec(src, pos, window, delim))
    decreases |src| - pos
  {
    if window == 0 || pos == |src| || src[pos] == delim {
    } else {
      GetDelimSpecDescribed(src, pos + 1, window - 1, delim);
    }
  }

  /** At most one outcome fits the description. */
  lemma {:induction false} DescribesUnique(src: seq<byte>, pos: nat, window: nat, delim: byte, r: Scan, q: Scan)
    requires pos <= |src|
    requires Describes(src, pos, window, delim, r) && Describes(src, pos, window, delim, q)
    ensures r == q
  {
  }

  /** `GetDelimSpec` is exactly the outcome the description asks for. */
  lemma {:induction false} GetDelimSpecExact(src: seq<byte>, pos: nat, window: nat, delim: byte, r: Scan)
    requires pos <= |src|
    ensures Describes(src, pos, window, delim, r) <==> r == GetDelimSpec(src, pos, window, delim)
  {
    GetDelimSpecDescribed(src, pos, window, delim);
    if Describes(src, pos, window, delim, r) {
      DescribesUnique(src, pos, window, delim, r, GetDelimSpec(src, pos, window, delim));
    }
  }

  /** `pbo_util_getdelim(dst, src, dstsz, delim)`: copies the bytes read into
      `dst`, and on success also the delimiter. A null `dst` is `dst == null`. */
  method GetDelim(dst: array?<byte>, src: seq<byte>, pos: nat, dstsz: nat, delim: byte)
    returns (sz: int, next: nat)
    requires pos <= |src|
    requires dst != null ==> dstsz <= dst.Length
    modifies dst
    ensures dst == null ==> sz == -1 && next == pos
    ensures dst != null ==> Scan(sz, next) == GetDelimSpec(src, pos, dstsz, delim)
    ensures next - pos <= dstsz && (sz >= 0 ==> sz < dstsz && next == pos + sz + 1)
    ensures dst != null ==>
      dst[..next - pos] == src[pos..next] && dst[next - pos..] == old(dst[next - pos..])
    ensures dst != null && sz >= 0 ==> dst[..sz] == src[pos..pos + sz] && dst[sz] == delim
  {
    if dstsz == 0 || dst == null {
      if dst != null {
        GetDelimSpecExact(src, pos, dstsz, delim, Scan(-1, pos));
      }
      return -1, pos;
    }
    var count, left := CopyUntil(dst, src, pos, dstsz, delim);
    if left > 0 && pos + count < |src| {
      // the byte at the cursor is the delimiter, and end of input was not reached
      ghost var copied := dst[..];
      dst[count] := delim;
      sz, next := count, pos + count + 1;
      assert dst[..] == copied[count := delim];
      assert dst[..count] == copied[..count] == src[pos..pos + count];
      assert dst[..next - pos] == dst[..count] + [delim] == src[pos..next];
      assert dst[next - pos..] == copied[next - pos..] == old(dst[next - pos..]);
    } else {
      sz, next := -1, pos + count;
    }
    GetDelimSpecExact(src, pos, dstsz, delim, Scan(sz, next));
  }

  /** The loop of `pbo_util_getdelim`: copies bytes until the window is full,
      input ends or the delimiter is at the cursor. */
  method CopyUntil(dst: array<byte>, src: seq<byte>, pos: nat, dstsz: nat, delim: byte)
    returns (count: nat, left: nat)
    requires pos <= |src| && dstsz <= dst.Length
    modifies dst
    ensures count + left == dstsz && pos + count <= |src|
    ensures left == 0 || pos + count == |src| || src[pos + count] == delim
    ensures forall j :: pos <= j < pos + count ==> src[j] != delim
    ensures dst[..count] == src[pos..pos + count]
    ensures dst[count..] == old(dst[count..])
  {
    left := dstsz;
    count := 0;
    while left > 0 && pos + count < |src| && src[pos + count] != delim
      invariant count + left == dstsz && pos + count <= |src|
      invariant forall j :: pos <= j < pos + count ==> src[j] != delim
      invariant forall k :: 0 <= k < count ==> dst[k] == src[pos + k]
      invariant forall k :: count <= k < dst.Length ==> dst[k] == old(dst[k])
    {
      dst[count] := src[pos + count];
      count, left := count + 1, left - 1;
    }
  }

  /** `char` as a signed C type sees the byte 0xFF as -1. */
  function SignedChar(b: byte): (c: int)
    ensures -128 <= c < 128 && (c == -1 <==> b == 0xFF)
  {
    if b < 128 then b as int else b as int - 256
  }

  const EOF: int := -1

  /** `pbo_util_getdelim` as written, where `char` is signed: the loop
      compares the stored `char` against `EOF`, so a 0xFF byte stops it as if
      input had ended; since `feof` stays clear, the call then reports success
      with the bytes read so far. */
  function GetDelimAsWritten(src: seq<byte>, pos: nat, window: nat, delim: byte): (r: Scan)
    requires pos <= |src|
    ensures r.sz >= 0 ==> pos < r.next <= |src| && (src[r.next - 1] == delim || src[r.next - 1] == 0xFF)
    decreases |src| - pos
  {
    if window == 0 || pos == |src| then Scan(-1, pos)
    else if SignedChar(src[pos]) == EOF || src[pos] == delim then Scan(0, pos + 1)
    else After(GetDelimAsWritten(src, pos + 1, window - 1, delim), 1)
  }

  /** The name bytes "a", 0xFF, "b" followed by NUL: as written, the read
      stops after "a" and swallows the 0xFF byte, leaving "b" to be read as the
      first property byte; the intended reader returns all three bytes. */
  lemma {:induction false} SignedCharEndsName(window: nat)
    requires 4 <= window
    ensures GetDelimAsWritten([0x61, 0xFF, 0x62, 0x00], 0, window, 0) == Scan(1, 2)
    ensures GetDelimSpec([0x61, 0xFF, 0x62, 0x00], 0, window, 0) == Scan(3, 4)
  {
    AsWrittenStopsAt0xFF(window);
    IntendedReadsPast0xFF(window);
  }

  lemma {:induction false} AsWrittenStopsAt0xFF(window: nat)
    requires 4 <= window
    ensures GetDelimAsWritten([0x61, 0xFF, 0x62, 0x00], 0, window, 0) == Scan(1, 2)
  {
    var s: seq<byte> := [0x61, 0xFF, 0x62, 0x00];
    assert GetDelimAsWritten(s, 1, window - 1, 0) == Scan(0, 2);
  }

  lemma {:induction false} IntendedReadsPast0xFF(window: nat)
    requires 4 <= window
    ensures GetDelimSpec([0x61, 0xFF, 0x62, 0x00], 0, window, 0) == Scan(3, 4)
  {
    var s: seq<byte> := [0x61, 0xFF, 0x62, 0x00];
    assert GetDelimSpec(s, 3, window - 3, 0) == Scan(0, 4);
    assert GetDelimSpec(s, 2, window - 2, 0) == Scan(1, 4);
  }

  /** On input without 0xFF bytes the reader as written is the intended one. */
  lemma {:induction false} AsWrittenAgreesWithout0xFF(src: seq<byte>, pos: nat, window: nat, delim: byte)
    requires pos <= |src|
    requires forall j :: pos <= j < |src| ==> src[j] != 0xFF
    ensures GetDelimAsWritten(src, pos, window, delim) == GetDelimSpec(src, pos, window, delim)
    decreases |src| - pos
  {
    if window == 0 || pos == |src| || src[pos] == delim {
    } else {
      AsWrittenAgreesWithout0xFF(src, pos + 1, window - 1, delim);
    }
  }
}
