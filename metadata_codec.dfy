/**
 * The binary metadata record kept in `<key>.metadata`: a big-endian int
 * count, then per entry the key as writeUTF writes it (unsigned 16-bit
 * length, then the bytes), a big-endian int value length and the value
 * bytes. Encode is what store writes, Decode what fetch reads back, with
 * the exceptions DataInputStream and Guava throw on a short stream.
 */
module MetadataCodec {
  import opened JavaIo

  /** One entry: the key's modified-UTF-8 bytes and the value's UTF-8 bytes. */
  datatype Entry = Entry(key: seq<byte>, value: JavaBytes)

  /** An ImmutableMap<String, String> in its iteration order; its size is an int. */
  type Metadata = m: seq<Entry> | |m| <= 0x7FFF_FFFF

  /** What ImmutableMap.Builder.build() demands: no key twice. */
  predicate DistinctKeys(m: seq<Entry>) {
    forall i, j :: 0 <= i < j < |m| ==> m[i].key != m[j].key
  }

  /** Every key fits writeUTF's 16-bit length field. */
  predicate KeysFit(m: seq<Entry>) {
    forall i :: 0 <= i < |m| ==> |m[i].key| < UTF_LIMIT
  }

  /** Prepends bytes already written to the rest of a write that may have thrown. */
  function Prefixed(written: seq<byte>, rest: Option<seq<byte>>): Option<seq<byte>> {
    match rest
    case None => None
    case Some(t) => Some(written + t)
  }

  // ---------------------------------------------------------------------
  // Encoding (DirArtifactCache.store, the metadata temp file)

  /** writeUTF(key), writeInt(value length), write(value); None when writeUTF throws. */
  function EncodeEntry(e: Entry): (r: Option<seq<byte>>)
    ensures r.Some? <==> |e.key| < UTF_LIMIT
  {
    if |e.key| < UTF_LIMIT then Some(ShortBytes(|e.key|) + e.key + IntBytes(|e.value|) + e.value)
    else None
  }

  function EncodeEntries(m: seq<Entry>): (r: Option<seq<byte>>)
    ensures r.Some? <==> KeysFit(m)
  {
    if m == [] then Some([])
    else
      match EncodeEntry(m[0])
      case None => None
      case Some(h) => Prefixed(h, EncodeEntries(m[1..]))
  }

  /** The whole record; None when some key is too long for writeUTF. */
  function Encode(m: Metadata): (r: Option<seq<byte>>)
    ensures r.Some? <==> KeysFit(m)
    ensures r.Some? ==> |r.value| >= 4 && r.value[..4] == IntBytes(|m|)
  {
    Prefixed(IntBytes(|m|), EncodeEntries(m))
  }

  // ---------------------------------------------------------------------
  // Decoding (DirArtifactCache.fetch, the metadata file)

  /** Entries read so far and the stream position after them, or the exception thrown. */
  datatype Decoded = Decoded(entries: seq<Entry>, end: nat) | Failed(error: JavaException)

  function ThenEntries(read: seq<Entry>, rest: Decoded): Decoded {
    match rest
    case Failed(e) => Failed(e)
    case Decoded(es, end) => Decoded(read + es, end)
  }

  /** The thrown `new byte[valSize]` for a negative valSize. */
  const NEGATIVE_SIZE: JavaException := JavaException(NegativeArraySize, NoMessage)

  /**
   * One loop iteration: readUTF, readInt, new byte[valSize], readFully.
   * The allocation is taken never to run out of memory.
   */
  function ReadEntry(s: seq<byte>, pos: nat): (r: Read<Entry>)
    ensures r.Read? ==> pos < r.next <= |s|
  {
    match ReadUTF(s, pos)
    case Fail(e) => Fail(e)
    case Read(key, p) =>
      match ReadInt(s, p)
      case Fail(e) => Fail(e)
      case Read(valSize, q) =>
        if valSize < 0 then Fail(NEGATIVE_SIZE)
        else
          match ReadFully(s, q, valSize)
          case Fail(e) => Fail(e)
          case Read(val, next) => Read(Entry(key, val), next)
  }

  /** `count` iterations of the loop, starting at `pos`. */
  function DecodeEntries(s: seq<byte>, pos: nat, count: nat): (r: Decoded)
    requires pos <= |s|
    ensures r.Decoded? ==> pos <= r.end <= |s|
    decreases count, 1
  {
    if count == 0 then Decoded([], pos) else DecodeNext(s, pos, count)
  }

  /** One iteration, then the `count - 1` after it. */
  function DecodeNext(s: seq<byte>, pos: nat, count: nat): (r: Decoded)
    requires pos <= |s| && count > 0
    ensures r.Decoded? ==> pos <= r.end <= |s|
    decreases count, 0
  {
    match ReadEntry(s, pos)
    case Fail(e) => Failed(e)
    case Read(e, next) => ThenEntries([e], DecodeEntries(s, next, count - 1))
  }

  /** A for loop `i < sz` runs max(sz, 0) times. */
  function Iterations(sz: int): nat {
    if sz < 0 then 0 else sz
  }

  /** readInt for the count, then the loop; trailing bytes are never looked at. */
  function Decode(s: seq<byte>): (r: Decoded)
    ensures r.Decoded? ==> |r.entries| <= INT_MAX && 4 <= r.end <= |s|
  {
    match ReadInt(s, 0)
    case Fail(e) => Failed(e)
    case Read(sz, p) =>
      DecodedCount(s, p, Iterations(sz));
      DecodeEntries(s, p, Iterations(sz))
  }

  /** The loop yields one entry per iteration. */
  lemma {:induction false} DecodedCount(s: seq<byte>, pos: nat, count: nat)
    requires pos <= |s|
    ensures DecodeEntries(s, pos, count).Decoded? ==> |DecodeEntries(s, pos, count).entries| == count
    decreases count
  {
    if count > 0 && ReadEntry(s, pos).Read? {
      DecodedCount(s, ReadEntry(s, pos).next, count - 1);
    }
  }

  /**
   * A record fails to decode only with EOFException (a read past the end)
   * or NegativeArraySizeException (a negative value length), as long as
   * the value array can be allocated.
   */
  lemma {:induction false} DecodeEntriesFailures(s: seq<byte>, pos: nat, count: nat)
    requires pos <= |s|
    ensures DecodeEntries(s, pos, count).Failed? ==>
      DecodeEntries(s, pos, count).error.kind.EndOfFile?
      || DecodeEntries(s, pos, count).error == NEGATIVE_SIZE
    decreases count
  {
    if count > 0 && ReadEntry(s, pos).Read? {
      DecodeEntriesFailures(s, ReadEntry(s, pos).next, count - 1);
    }
  }

  lemma DecodeFailures(s: seq<byte>)
    ensures Decode(s).Failed? ==> Decode(s).error.kind.EndOfFile? || Decode(s).error == NEGATIVE_SIZE
  {
    if ReadInt(s, 0).Read? {
      DecodeEntriesFailures(s, 4, Iterations(ReadInt(s, 0).value));
    }
  }

  lemma PrefixedAppend(a: seq<byte>, b: seq<byte>, rest: Option<seq<byte>>)
    ensures Prefixed(a, Prefixed(b, rest)) == Prefixed(a + b, rest)
  {
    if rest.Some? {
      assert a + (b + rest.value) == (a + b) + rest.value;
    }
  }

  lemma ThenNothing(rest: Decoded)
    ensures ThenEntries([], rest) == rest
  {
    if rest.Decoded? {
      assert [] + rest.entries == rest.entries;
    }
  }

  lemma ThenEntriesAppend(a: seq<Entry>, b: seq<Entry>, rest: Decoded)
    ensures ThenEntries(a, ThenEntries(b, rest)) == ThenEntries(a + b, rest)
  {
    if rest.Decoded? {
      assert a + (b + rest.entries) == (a + b) + rest.entries;
    }
  }

  // ---------------------------------------------------------------------
  // The writer and the reader as the cache runs them, step by step

  /** DirArtifactCache.store writing the metadata stream (lines 158-166). */
  method WriteMetadata(m: Metadata) returns (r: Option<seq<byte>>)
    ensures r == Encode(m)
  {
    var out := IntBytes(|m|);
    var i := 0;
    assert m[0..] == m;
    while i < |m|
      invariant 0 <= i <= |m|
      invariant Encode(m) == Prefixed(out, EncodeEntries(m[i..]))
    {
      var e := m[i];
      assert m[i..][0] == e && m[i..][1..] == m[i + 1..];
      if |e.key| >= UTF_LIMIT {
        // writeUTF throws UTFDataFormatException
        assert EncodeEntries(m[i..]) == None;
        return None;
      }
      ghost var h := EncodeEntry(e).value;
      assert EncodeEntries(m[i..]) == Prefixed(h, EncodeEntries(m[i + 1..]));
      ghost var before := out;
      out := out + ShortBytes(|e.key|) + e.key;
      out := out + IntBytes(|e.value|);
      out := out + e.value;
      assert out == before + h;
      PrefixedAppend(before, h, EncodeEntries(m[i + 1..]));
      i := i + 1;
    }
    assert m[i..] == [] && out + [] == out;
    r := Some(out);
  }

  /** One iteration of fetch's metadata loop (lines 91-95). */
  method ReadMetadataEntry(s: seq<byte>, pos: nat) returns (r: Read<Entry>)
    ensures r == ReadEntry(s, pos)
  {
    var key := ReadUTF(s, pos);
    if key.Fail? {
      return Fail(key.error);
    }
    var valSize := ReadInt(s, key.next);
    if valSize.Fail? {
      return Fail(valSize.error);
    }
    if valSize.value < 0 {
      // new byte[valSize] throws
      return Fail(NEGATIVE_SIZE);
    }
    var val := ReadFully(s, valSize.next, valSize.value);
    if val.Fail? {
      return Fail(val.error);
    }
    r := Read(Entry(key.value, val.value), val.next);
  }

  /** One more iteration of the loop, in terms of the entry it reads. */
  lemma DecodeEntriesStep(s: seq<byte>, pos: nat, count: nat)
    requires pos <= |s| && count > 0
    ensures ReadEntry(s, pos).Fail? ==> DecodeEntries(s, pos, count) == Failed(ReadEntry(s, pos).error)
    ensures ReadEntry(s, pos).Read? ==>
              DecodeEntries(s, pos, count) == ThenEntries([ReadEntry(s, pos).value], DecodeEntries(s, ReadEntry(s, pos).next, count - 1))
  {
  }

  /**
   * One iteration of the loop, as the first of the `remaining` ones still to
   * run. It runs ReadMetadataEntry and restates its result in terms of
   * DecodeEntries only, so that the loop in ReadMetadataEntries reasons
   * about DecodeEntries alone and never unfolds ReadEntry's reads.
   */
  method ReadNextEntry(s: seq<byte>, pos: nat, ghost remaining: nat) returns (r: Read<Entry>)
    requires pos <= |s| && remaining > 0
    ensures r.Fail? ==> DecodeEntries(s, pos, remaining) == Failed(r.error)
    ensures r.Read? ==> pos < r.next <= |s|
    ensures r.Read? ==>
              DecodeEntries(s, pos, remaining) == ThenEntries([r.value], DecodeEntries(s, r.next, remaining - 1))
  {
    r := ReadMetadataEntry(s, pos);
  }

  /** An entry read in front of the entries after it. */
  lemma DecodeCons(s: seq<byte>, pos: nat, count: nat, e: Entry, next: nat, rest: seq<Entry>, end: nat)
    requires pos <= |s| && count > 0 && ReadEntry(s, pos) == Read(e, next)
    requires DecodeEntries(s, next, count - 1) == Decoded(rest, end)
    ensures DecodeEntries(s, pos, count) == Decoded([e] + rest, end)
  {
  }

  /** fetch's metadata loop (lines 91-96): `for (int i = 0; i < count; i++)`. */
  method ReadMetadataEntries(s: seq<byte>, start: nat, count: int) returns (r: Decoded)
    requires start <= |s|
    ensures r == DecodeEntries(s, start, Iterations(count))
  {
    ghost var n := Iterations(count);
    var pos: nat := start;
    var entries: seq<Entry> := [];
    var i := 0;
    ThenNothing(DecodeEntries(s, pos, n - i));
    while i < count
      invariant 0 <= i <= n && pos <= |s|
      invariant DecodeEntries(s, start, n) == ThenEntries(entries, DecodeEntries(s, pos, n - i))
    {
      var entry := ReadNextEntry(s, pos, n - i);
      if entry.Fail? {
        return Failed(entry.error);
      }
      ThenEntriesAppend(entries, [entry.value], DecodeEntries(s, entry.next, n - i - 1));
      entries := entries + [entry.value];
      pos := entry.next;
      i := i + 1;
    }
    assert DecodeEntries(s, pos, 0) == Decoded([], pos) && entries + [] == entries;
    r := Decoded(entries, pos);
  }

  /** DirArtifactCache.fetch reading the metadata stream (lines 89-96). */
  method ReadMetadata(s: seq<byte>) returns (r: Decoded)
    ensures r == Decode(s)
  {
    var sz := ReadInt(s, 0);
    if sz.Fail? {
      return Failed(sz.error);
    }
    r := ReadMetadataEntries(s, sz.next, sz.value);
  }

  // ---------------------------------------------------------------------
  // Properties of the record

  /** A slice of a slice. */
  lemma SliceOfSlice(s: seq<byte>, pos: nat, b: seq<byte>, a: nat, c: nat)
    requires pos + |b| <= |s| && s[pos..pos + |b|] == b && a <= c <= |b|
    ensures s[pos + a..pos + c] == b[a..c]
  {
    forall i | 0 <= i < c - a ensures s[pos + a..pos + c][i] == b[a..c][i] {
      assert s[pos + a..pos + c][i] == s[pos + a + i] == s[pos..pos + |b|][a + i];
    }
  }

  /** Two adjacent slices. */
  lemma SplitSlice(s: seq<byte>, pos: nat, h: seq<byte>, t: seq<byte>)
    requires pos + |h| + |t| <= |s| && s[pos..pos + |h| + |t|] == h + t
    ensures s[pos..pos + |h|] == h && s[pos + |h|..pos + |h| + |t|] == t
  {
    SliceOfSlice(s, pos, h + t, 0, |h|);
    assert (h + t)[0..|h|] == h;
    SliceOfSlice(s, pos, h + t, |h|, |h| + |t|);
    assert (h + t)[|h|..|h| + |t|] == t;
  }

  /** A stream that stops inside `t` after a whole `h`. */
  lemma SplitPrefix(s: seq<byte>, pos: nat, h: seq<byte>, t: seq<byte>)
    requires pos + |h| <= |s| <= pos + |h| + |t| && s[pos..] == (h + t)[..|s| - pos]
    ensures s[pos..pos + |h|] == h && s[pos + |h|..] == t[..|s| - pos - |h|]
  {
    var avail := |s| - pos;
    assert s[pos..pos + |h|] == s[pos..][..|h|] == (h + t)[..avail][..|h|] == h;
    assert s[pos + |h|..] == s[pos..][|h|..] == (h + t)[..avail][|h|..] == t[..avail - |h|];
  }

  /** Where the four fields of an encoded entry sit. */
  lemma EntryLayout(e: Entry)
    requires EncodeEntry(e).Some?
    ensures var b, k, v := EncodeEntry(e).value, |e.key|, |e.value|;
      && |b| == 6 + k + v
      && b[..2] == ShortBytes(k) && b[2..2 + k] == e.key
      && b[2 + k..6 + k] == IntBytes(v) && b[6 + k..] == e.value
  {
    var b, k, v := EncodeEntry(e).value, |e.key|, |e.value|;
    var x, y, z := ShortBytes(k), IntBytes(v), e.value;
    assert b == x + e.key + y + z;
    assert b[..2] == x;
    assert b[2..2 + k] == e.key;
    assert b[2 + k..6 + k] == y;
    assert b[6 + k..] == z;
  }

  /** Reading back one entry as writeUTF/writeInt/write put it. */
  lemma EntryRoundTrip(e: Entry, s: seq<byte>, pos: nat)
    requires EncodeEntry(e).Some?
    requires pos + |EncodeEntry(e).value| <= |s|
    requires s[pos..pos + |EncodeEntry(e).value|] == EncodeEntry(e).value
    ensures ReadEntry(s, pos) == Read(e, pos + |EncodeEntry(e).value|)
  {
    var b := EncodeEntry(e).value;
    var k, v := |e.key|, |e.value|;
    EntryLayout(e);
    SliceOfSlice(s, pos, b, 0, 2);
    SliceOfSlice(s, pos, b, 2, 2 + k);
    SliceOfSlice(s, pos, b, 2 + k, 6 + k);
    SliceOfSlice(s, pos, b, 6 + k, 6 + k + v);
    ShortRoundTrip(k);
    IntRoundTrip(v);
    assert ReadUTF(s, pos) == Read(e.key, pos + 2 + k);
    assert ReadInt(s, pos + 2 + k) == Read(v, pos + 6 + k);
    assert ReadFully(s, pos + 6 + k, v) == Read(e.value, pos + 6 + k + v);
    ReadEntryOf(s, pos, e.key, pos + 2 + k, v, pos + 6 + k, e.value, pos + 6 + k + v);
  }

  /** An entry read from its three fields. */
  lemma ReadEntryOf(s: seq<byte>, pos: nat, key: seq<byte>, p: nat, v: int, q: nat, val: JavaBytes, next: nat)
    requires ReadUTF(s, pos) == Read(key, p) && ReadInt(s, p) == Read(v, q) && v >= 0
    requires ReadFully(s, q, v) == Read(val, next)
    ensures ReadEntry(s, pos) == Read(Entry(key, val), next)
  {
  }

  /** A record body is its first entry's bytes followed by the rest's. */
  lemma EntriesSplit(m: seq<Entry>)
    requires KeysFit(m) && m != []
    ensures KeysFit(m[1..])
    ensures EncodeEntries(m).value == EncodeEntry(m[0]).value + EncodeEntries(m[1..]).value
  {
    forall i | 0 <= i < |m[1..]| ensures |m[1..][i].key| < UTF_LIMIT {
      assert m[1..][i] == m[i + 1];
    }
  }

  /** An entry's bytes followed by bytes that decode as `rest` decode as the entry followed by `rest`. */
  lemma EntryThenEntries(e: Entry, rest: seq<Entry>, s: seq<byte>, pos: nat, tail: nat)
    requires EncodeEntry(e).Some?
    requires pos + |EncodeEntry(e).value| + tail <= |s|
    requires s[pos..pos + |EncodeEntry(e).value|] == EncodeEntry(e).value
    requires DecodeEntries(s, pos + |EncodeEntry(e).value|, |rest|)
          == Decoded(rest, pos + |EncodeEntry(e).value| + tail)
    ensures DecodeEntries(s, pos, |rest| + 1) == Decoded([e] + rest, pos + |EncodeEntry(e).value| + tail)
  {
    var next := pos + |EncodeEntry(e).value|;
    EntryRoundTrip(e, s, pos);
    DecodeCons(s, pos, |rest| + 1, e, next, rest, next + tail);
  }

  lemma {:induction false} EntriesRoundTrip(m: seq<Entry>, s: seq<byte>, pos: nat)
    requires KeysFit(m)
    requires pos + |EncodeEntries(m).value| <= |s|
    requires s[pos..pos + |EncodeEntries(m).value|] == EncodeEntries(m).value
    ensures DecodeEntries(s, pos, |m|) == Decoded(m, pos + |EncodeEntries(m).value|)
  {
    if m != [] {
      EntriesSplit(m);
      var h := EncodeEntry(m[0]).value;
      var t := EncodeEntries(m[1..]).value;
      SplitSlice(s, pos, h, t);
      EntriesRoundTrip(m[1..], s, pos + |h|);
      EntryThenEntries(m[0], m[1..], s, pos, |t|);
      assert [m[0]] + m[1..] == m;
    }
  }

  /**
   * Decoding what store writes gives back the same entries in the same
   * order, whatever follows the record in the file.
   */
  lemma RoundTrip(m: Metadata, rest: seq<byte>)
    requires KeysFit(m)
    ensures Encode(m).Some?
    ensures Decode(Encode(m).value + rest) == Decoded(m, |Encode(m).value|)
  {
    var body := EncodeEntries(m).value;
    var s := Encode(m).value + rest;
    assert s == IntBytes(|m|) + body + rest;
    assert s[0..4] == IntBytes(|m|);
    IntRoundTrip(|m|);
    assert s[4..4 + |body|] == body;
    EntriesRoundTrip(m, s, 4);
  }

  /** A record cut short inside one entry makes one of the reads throw EOFException. */
  lemma EntryTruncated(e: Entry, s: seq<byte>, pos: nat)
    requires EncodeEntry(e).Some?
    requires pos <= |s| < pos + |EncodeEntry(e).value|
    requires s[pos..] == EncodeEntry(e).value[..|s| - pos]
    ensures ReadEntry(s, pos).Fail? && ReadEntry(s, pos).error.kind == EndOfFile
  {
    var b := EncodeEntry(e).value;
    var k, v := |e.key|, |e.value|;
    var avail := |s| - pos;
    EntryLayout(e);
    if avail >= 2 {
      assert s[pos..pos + 2] == s[pos..][..2] == b[..avail][..2] == b[..2];
      ShortRoundTrip(k);
      if avail >= 6 + k {
        assert s[pos + 2 + k..pos + 6 + k] == s[pos..][2 + k..6 + k] == b[..avail][2 + k..6 + k] == b[2 + k..6 + k];
        IntRoundTrip(v);
      }
    }
  }

  lemma {:induction false} EntriesTruncated(m: seq<Entry>, s: seq<byte>, pos: nat)
    requires KeysFit(m)
    requires pos <= |s| < pos + |EncodeEntries(m).value|
    requires s[pos..] == EncodeEntries(m).value[..|s| - pos]
    ensures DecodeEntries(s, pos, |m|).Failed? && DecodeEntries(s, pos, |m|).error.kind == EndOfFile
  {
    var avail := |s| - pos;
    assert m != [];
    EntriesSplit(m);
    var h := EncodeEntry(m[0]).value;
    var t := EncodeEntries(m[1..]).value;
    DecodeEntriesStep(s, pos, |m|);
    if avail < |h| {
      assert (h + t)[..avail] == h[..avail];
      EntryTruncated(m[0], s, pos);
    } else {
      SplitPrefix(s, pos, h, t);
      EntryRoundTrip(m[0], s, pos);
      EntriesTruncated(m[1..], s, pos + |h|);
    }
  }

  /** Every strict prefix of a record fails with EOFException: fetch reports it as an Error. */
  lemma TruncatedRecord(m: Metadata, k: nat)
    requires KeysFit(m)
    requires k < |Encode(m).value|
    ensures Decode(Encode(m).value[..k]).Failed?
    ensures Decode(Encode(m).value[..k]).error.kind == EndOfFile
  {
    var b := Encode(m).value;
    var s := b[..k];
    if k >= 4 {
      var body := EncodeEntries(m).value;
      assert b == IntBytes(|m|) + body;
      assert s[0..4] == IntBytes(|m|);
      IntRoundTrip(|m|);
      assert s[4..] == body[..k - 4];
      EntriesTruncated(m, s, 4);
    }
  }

  lemma EncodeEntriesCons(e: Entry, rest: seq<Entry>)
    ensures EncodeEntries([e] + rest)
         == if EncodeEntry(e).None? then None else Prefixed(EncodeEntry(e).value, EncodeEntries(rest))
  {
    assert ([e] + rest)[0] == e && ([e] + rest)[1..] == rest;
  }

  /** Whatever entry the loop reads is exactly what store would write for it. */
  lemma EntryReadBack(s: seq<byte>, pos: nat)
    requires ReadEntry(s, pos).Read?
    ensures EncodeEntry(ReadEntry(s, pos).value) == Some(s[pos..ReadEntry(s, pos).next])
  {
    var key := ReadUTF(s, pos);
    var p := key.next;
    var valSize := ReadInt(s, p);
    var q := valSize.next;
    var next := ReadEntry(s, pos).next;
    ShortBytesOfValue(s[pos..pos + 2]);
    IntBytesOfValue(s[p..q]);
    assert s[pos..next] == s[pos..pos + 2] + s[pos + 2..p] + s[p..q] + s[q..next];
  }

  lemma ConsReadBack(s: seq<byte>, pos: nat, next: nat, end: nat, e: Entry, es: seq<Entry>)
    requires pos <= next <= end <= |s|
    requires EncodeEntry(e) == Some(s[pos..next]) && EncodeEntries(es) == Some(s[next..end])
    ensures EncodeEntries([e] + es) == Some(s[pos..end])
  {
    EncodeEntriesCons(e, es);
    assert s[pos..end] == s[pos..next] + s[next..end];
  }

  lemma {:induction false} EntriesReadBack(s: seq<byte>, pos: nat, count: nat)
    requires pos <= |s| && DecodeEntries(s, pos, count).Decoded?
    ensures EncodeEntries(DecodeEntries(s, pos, count).entries)
         == Some(s[pos..DecodeEntries(s, pos, count).end])
    decreases count
  {
    var d := DecodeEntries(s, pos, count);
    if count == 0 {
      assert d.entries == [] && d.end == pos && s[pos..pos] == [];
    } else {
      var r := ReadEntry(s, pos);
      var rest := DecodeEntries(s, r.next, count - 1);
      assert d == ThenEntries([r.value], rest);
      assert rest.Decoded? && d.entries == [r.value] + rest.entries && d.end == rest.end;
      EntryReadBack(s, pos);
      EntriesReadBack(s, r.next, count - 1);
      ConsReadBack(s, pos, r.next, rest.end, r.value, rest.entries);
    }
  }

  /**
   * The decoder accepts only what the encoder writes: a record that decodes
   * with a non-negative count is the encoding of the entries it yields.
   */
  lemma DecodeThenEncode(s: seq<byte>)
    requires Decode(s).Decoded? && s[0] < 0x80
    ensures Encode(Decode(s).entries) == Some(s[..Decode(s).end])
  {
    var d := Decode(s);
    var count := IntValue(s[0..4]);
    IntBytesOfValue(s[0..4]);
    EntriesReadBack(s, 4, count);
    DecodedCount(s, 4, count);
    assert s[..d.end] == s[0..4] + s[4..d.end];
  }
}
