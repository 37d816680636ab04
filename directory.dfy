/** The archive directory: 4 ignored bytes, a little-endian 32-bit entry
    count, then one 80-byte record per entry (a NUL-padded 64-byte name and
    four little-endian 32-bit words: uncompressed size, compressed size,
    offset, flags), gathered into a table keyed by name. */
module Directory {
  import opened Bytes
  import opened NameOrder

  /** The flag bits of an entry. */
  const HasLzPayload: nat := 1
  const HasCrcPrefix: nat := 2
  const ForceLz4: nat := 4
  const ZstdOrShared: nat := 8
  const ZstdAlt: nat := 16

  datatype Entry = Entry(offset: nat, compressedSize: nat, uncompressedSize: nat, flags: nat)

  /** `flags & mask != 0` for a single-bit mask. */
  predicate HasFlag(e: Entry, mask: nat)
    requires mask > 0
    ensures HasFlag(e, mask) ==> mask <= e.flags
  {
    (e.flags / mask) % 2 == 1
  }

  /** `name.rstrip(b"\x00")`: the longest prefix that does not end in NUL
      and leaves only NULs behind it. */
  function StripNuls(s: seq<byte>): (r: seq<byte>)
    ensures |r| <= |s| && r == s[..|r|]
    ensures r == [] || r[|r| - 1] != 0
    ensures forall i :: |r| <= i < |s| ==> s[i] == 0
    decreases |s|
  {
    if |s| > 0 && s[|s| - 1] == 0 then StripNuls(s[..|s| - 1]) else s
  }

  /** One 80-byte record, unpacked as `<64sIIII`. */
  function ParseRecord(rec: seq<byte>): (r: (Name, Entry))
    requires |rec| == 80
    ensures |r.0| <= 64 && Fits(r.1)
    ensures forall i :: |r.0| <= i < 64 ==> rec[i] == 0
  {
    var uncompressed := LittleEndian(rec[64..68]);
    var compressed := LittleEndian(rec[68..72]);
    var offset := LittleEndian(rec[72..76]);
    var flags := LittleEndian(rec[76..80]);
    assert Radix(4) == 0x1_0000_0000 by {
      assert Radix(2) == 65536;
    }
    var name := StripNuls(rec[..64]);
    assert forall i :: |name| <= i < 64 ==> rec[i] == rec[..64][i];
    (name, Entry(offset, compressed, uncompressed, flags))
  }

  /** An entry whose 32-bit fields can be written back. */
  predicate Fits(e: Entry)
  {
    e.offset < 0x1_0000_0000 && e.compressedSize < 0x1_0000_0000
    && e.uncompressedSize < 0x1_0000_0000 && e.flags < 0x1_0000_0000
  }

  /** A record as an archive writer lays it out. */
  function EncodeRecord(name: Name, e: Entry): (r: seq<byte>)
    requires |name| <= 64 && Fits(e)
    ensures |r| == 80
  {
    name + Zeros(64 - |name|) + U32Bytes(e.uncompressedSize) + U32Bytes(e.compressedSize)
      + U32Bytes(e.offset) + U32Bytes(e.flags)
  }

  /** Stripping the NUL padding of a name that does not end in NUL gives
      the name back. */
  lemma {:induction false} StripPadding(name: Name, n: nat)
    requires name == [] || name[|name| - 1] != 0
    ensures StripNuls(name + Zeros(n)) == name
    decreases n
  {
    if n == 0 {
      assert name + Zeros(0) == name;
    } else {
      assert (name + Zeros(n))[..|name| + n - 1] == name + Zeros(n - 1);
      StripPadding(name, n - 1);
    }
  }

  /** Parsing a record written for a name of at most 64 bytes that does not
      end in NUL gives back the name and the entry. */
  lemma RecordRoundTrip(name: Name, e: Entry)
    requires |name| <= 64 && (name == [] || name[|name| - 1] != 0) && Fits(e)
    ensures ParseRecord(EncodeRecord(name, e)) == (name, e)
  {
    var rec := EncodeRecord(name, e);
    assert rec[..64] == name + Zeros(64 - |name|);
    StripPadding(name, 64 - |name|);
    assert rec[64..68] == U32Bytes(e.uncompressedSize);
    assert rec[68..72] == U32Bytes(e.compressedSize);
    assert rec[72..76] == U32Bytes(e.offset);
    assert rec[76..80] == U32Bytes(e.flags);
    U32RoundTrip(e.uncompressedSize);
    U32RoundTrip(e.compressedSize);
    U32RoundTrip(e.offset);
    U32RoundTrip(e.flags);
  }

  /** The first `n` records, in directory order. */
  function Records(data: seq<byte>, n: nat): (r: seq<(Name, Entry)>)
    requires 8 + 80 * n <= |data|
    ensures |r| == n
  {
    if n == 0 then []
    else
      var at := 8 + 80 * (n - 1);
      Records(data, n - 1) + [ParseRecord(data[at..at + 80])]
  }

  /** The table built by assigning the records in order: a later record
      with the same name replaces an earlier one. */
  function Table(rs: seq<(Name, Entry)>): (m: map<Name, Entry>)
    ensures |m| <= |rs|
    ensures rs != [] ==> rs[|rs| - 1].0 in m && m[rs[|rs| - 1].0] == rs[|rs| - 1].1
    decreases |rs|
  {
    if rs == [] then map[] else Table(rs[..|rs| - 1])[rs[|rs| - 1].0 := rs[|rs| - 1].1]
  }

  /** Assigning one more record. */
  lemma TableAppend(rs: seq<(Name, Entry)>, x: (Name, Entry))
    ensures Table(rs + [x]) == Table(rs)[x.0 := x.1]
  {
    assert (rs + [x])[..|rs|] == rs;
  }

  /** Reading one more record. */
  lemma RecordsAppend(data: seq<byte>, n: nat)
    requires 8 + 80 * (n + 1) <= |data|
    ensures Records(data, n + 1) == Records(data, n) + [ParseRecord(data[8 + 80 * n..8 + 80 * n + 80])]
  {
  }

  /** Storing the next record into the table of those read so far. */
  lemma ReadStep(data: seq<byte>, i: nat, entries: map<Name, Entry>)
    requires 8 + 80 * (i + 1) <= |data| && entries == Table(Records(data, i))
    ensures var rec := ParseRecord(data[8 + 80 * i..8 + 80 * i + 80]);
      entries[rec.0 := rec.1] == Table(Records(data, i + 1))
  {
    hide Table, Records, ParseRecord;
    RecordsAppend(data, i);
    TableAppend(Records(data, i), ParseRecord(data[8 + 80 * i..8 + 80 * i + 80]));
  }

  /** The table holds exactly the names of the records. */
  lemma {:induction false} TableKeys(rs: seq<(Name, Entry)>)
    ensures forall k :: k in Table(rs) <==> exists i :: 0 <= i < |rs| && rs[i].0 == k
    decreases |rs|
  {
    if rs != [] {
      var init := rs[..|rs| - 1];
      TableKeys(init);
      forall k | k in Table(rs)
        ensures exists i :: 0 <= i < |rs| && rs[i].0 == k
      {
        if k != rs[|rs| - 1].0 {
          assert k in Table(init);
          var i :| 0 <= i < |init| && init[i].0 == k;
          assert rs[i].0 == k;
        }
      }
      forall i | 0 <= i < |rs| - 1
        ensures rs[i].0 in Table(rs)
      {
        assert init[i] == rs[i];
      }
    }
  }

  /** A name maps to the entry of its last record. */
  lemma {:induction false} TableLastWins(rs: seq<(Name, Entry)>, i: nat)
    requires i < |rs| && forall j :: i < j < |rs| ==> rs[j].0 != rs[i].0
    ensures rs[i].0 in Table(rs) && Table(rs)[rs[i].0] == rs[i].1
    decreases |rs|
  {
    if i < |rs| - 1 {
      var init := rs[..|rs| - 1];
      assert init[i] == rs[i];
      TableLastWins(init, i);
    }
  }

  /** The directory as `unpack_pkg` reads it: the entry count must be
      readable and every announced record complete. */
  function ParseDirectory(data: seq<byte>): (r: Result<map<Name, Entry>>)
    ensures |data| < 8 ==> r == Err(ShortHeader)
    ensures 8 <= |data| < 8 + 80 * LittleEndian(data[4..8]) ==> r == Err(ShortRecord)
    ensures 8 <= |data| && 8 + 80 * LittleEndian(data[4..8]) <= |data| ==>
      r == Ok(Table(Records(data, LittleEndian(data[4..8]))))
    ensures r.Err? ==> r.error == ShortHeader || r.error == ShortRecord
  {
    if |data| < 8 then Err(ShortHeader)
    else
      var count := LittleEndian(data[4..8]);
      if |data| < 8 + 80 * count then Err(ShortRecord)
      else Ok(Table(Records(data, count)))
  }

  /** The reading loop of the source: one record per iteration, each stored
      into the table as soon as it is read. */
  method ReadDirectory(data: seq<byte>) returns (r: Result<map<Name, Entry>>)
    ensures r == ParseDirectory(data)
  {
    if |data| < 8 {
      return Err(ShortHeader);
    }
    r := ReadRecords(data, LittleEndian(data[4..8]));
  }

  /** The loop over `count` records from offset 8 on, once the entry count
      has been read. */
  method ReadRecords(data: seq<byte>, count: nat) returns (r: Result<map<Name, Entry>>)
    requires 8 <= |data|
    ensures |data| < 8 + 80 * count ==> r == Err(ShortRecord)
    ensures 8 + 80 * count <= |data| ==> r == Ok(Table(Records(data, count)))
  {
    hide Table, Records, ParseRecord;
    var entries: map<Name, Entry> := map[];
    var i := 0;
    while i < count
      invariant i <= count && 8 + 80 * i <= |data|
      invariant entries == Table(Records(data, i))
    {
      var at := 8 + 80 * i;
      if at + 80 > |data| {
        return Err(ShortRecord);
      }
      var rec := ParseRecord(data[at..at + 80]);
      ReadStep(data, i, entries);
      entries := entries[rec.0 := rec.1];
      i := i + 1;
    }
    if |data| < 8 + 80 * count {
      return Err(ShortRecord);
    }
    return Ok(entries);
  }

  /** An entry that stands for a file stored in the companion archive:
      flags 1 and 8 set, offset 0 and compressed size 0. */
  predicate IsPlaceholder(e: Entry)
    ensures IsPlaceholder(e) ==> 8 < e.flags && e.offset == 0 && e.compressedSize == 0
  {
    HasFlag(e, HasLzPayload) && HasFlag(e, ZstdOrShared) && e.offset == 0 && e.compressedSize == 0
  }

  /** The names, in the given order, whose entries are placeholders. */
  function Placeholders(names: seq<Name>, entries: map<Name, Entry>): (r: seq<Name>)
    requires forall n :: n in names ==> n in entries
    ensures forall n :: n in r <==> n in names && IsPlaceholder(entries[n])
    ensures Sorted(names) ==> Sorted(r)
    decreases |names|
  {
    if names == [] then []
    else
      var rest := Placeholders(names[1..], entries);
      if IsPlaceholder(entries[names[0]]) then
        assert Sorted(names) ==> forall j :: 0 <= j < |rest| ==> Less(names[0], rest[j]) by {
          if Sorted(names) {
            forall j | 0 <= j < |rest| ensures Less(names[0], rest[j]) {
              assert rest[j] in rest;
              var k :| 0 <= k < |names[1..]| && names[1..][k] == rest[j];
              assert names[k + 1] == rest[j];
            }
          }
        }
        [names[0]] + rest
      else rest
  }

  /** The first loop over `sorted(package_file_entries.keys())`, collecting
      the placeholder names. */
  method CollectPlaceholders(entries: map<Name, Entry>) returns (common: seq<Name>)
    ensures common == Placeholders(SortedNames(entries.Keys), entries)
  {
    var names := Sort(entries.Keys);
    common := [];
    var i := 0;
    while i < |names|
      invariant i <= |names|
      invariant forall n :: n in names ==> n in entries
      invariant common + Placeholders(names[i..], entries) == Placeholders(names, entries)
    {
      assert names[i..][1..] == names[i + 1..];
      if IsPlaceholder(entries[names[i]]) {
        common := common + [names[i]];
      }
      i := i + 1;
    }
  }
}
