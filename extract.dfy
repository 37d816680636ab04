/** The extraction run of `unpack_pkg`: read the directory, extract the
    files a companion archive holds for the placeholder entries first, then
    every entry of the archive in sorted name order. The output callback is
    modelled as the list of files written, in order; an exception stops the
    run, and the outcome then holds the files written before it. */
module Extract {
  import opened Bytes
  import opened NameOrder
  import opened Directory
  import opened Dispatch

  /** A file written through the output callback. */
  datatype Output = Output(name: Name, bytes: seq<byte>)

  /** The files written, in order, and the exception that ended the run,
      if one did. */
  datatype Outcome = Outcome(files: seq<Output>, error: Option<Error>)

  /** The optional `filter_entry_callback`: true means skip the entry. */
  type Filter = Option<(Name, Entry) -> bool>

  /** `name.decode("ASCII")` succeeds. */
  predicate IsAscii(name: Name)
    ensures IsAscii(name) <==> forall b :: b in name ==> b < 128
  {
    assert forall i :: 0 <= i < |name| ==> name[i] in name;
    forall i :: 0 <= i < |name| ==> name[i] < 128
  }

  /** The filter the companion pass runs with: skip every name that is not
      one of the placeholders `common`. */
  function CompanionFilter(common: seq<Name>): (f: (Name, Entry) -> bool)
    ensures forall n, e :: f(n, e) <==> n !in common
  {
    (n: Name, e: Entry) => n !in common
  }

  function Skipped(filter: Filter, name: Name, e: Entry): bool
  {
    filter.Some? && filter.value(name, e)
  }

  /** One iteration of the extraction loop: `Ok(Some(bytes))` when the
      entry is written, `Ok(None)` when it is passed over. A placeholder is
      reported by name when there is no companion archive, and so is an
      entry whose zstd module is missing; reporting or writing a name that
      is not ASCII raises. */
  function EntryStep(data: seq<byte>, name: Name, e: Entry, filter: Filter, hasCompanion: bool, zstd: Zstd)
    : (r: Result<Option<seq<byte>>>)
    ensures Skipped(filter, name, e) ==> r == Ok(None)
    ensures r.Ok? && r.value.Some? ==> !IsPlaceholder(e) && IsAscii(name)
    ensures !Skipped(filter, name, e) && !IsPlaceholder(e) && !IsAscii(name) && DecodeEntry(data, e, zstd).Ok?
        ==> r == Err(NonAsciiName)
    ensures !Skipped(filter, name, e) && IsPlaceholder(e)
        ==> (r.Err? <==> !hasCompanion && !IsAscii(name)) && (r.Ok? ==> r.value.None?)
    ensures !Skipped(filter, name, e) && !IsPlaceholder(e) && DecodeEntry(data, e, zstd).Err?
        ==> r == Err(DecodeEntry(data, e, zstd).error)
  {
    if Skipped(filter, name, e) then Ok(None)
    else if IsPlaceholder(e) then
      if !hasCompanion && !IsAscii(name) then Err(NonAsciiName) else Ok(None)
    else match DecodeEntry(data, e, zstd)
      case Err(x) => Err(x)
      case Ok(out) => if !IsAscii(name) then Err(NonAsciiName) else Ok(out)
  }

  /** An entry is written exactly when the filter lets it through, it is
      no placeholder, its name is ASCII and its payload decodes to bytes. */
  lemma EntryStepWrites(data: seq<byte>, name: Name, e: Entry, filter: Filter, hasCompanion: bool, zstd: Zstd, out: seq<byte>)
    ensures EntryStep(data, name, e, filter, hasCompanion, zstd) == Ok(Some(out))
        <==> !Skipped(filter, name, e) && !IsPlaceholder(e) && IsAscii(name) && DecodeEntry(data, e, zstd) == Ok(Some(out))
  {
    hide DecodeEntry;
  }

  /** The loop over the names `names` from the first on. */
  function ExtractAll(data: seq<byte>, names: seq<Name>, entries: map<Name, Entry>, filter: Filter,
                      hasCompanion: bool, zstd: Zstd): (o: Outcome)
    requires forall n :: n in names ==> n in entries
    ensures |o.files| <= |names|
    decreases |names|
  {
    if names == [] then Outcome([], None)
    else
      match EntryStep(data, names[0], entries[names[0]], filter, hasCompanion, zstd)
      case Err(x) => Outcome([], Some(x))
      case Ok(out) =>
        var rest := ExtractAll(data, names[1..], entries, filter, hasCompanion, zstd);
        Outcome((if out.Some? then [Output(names[0], out.value)] else []) + rest.files, rest.error)
  }

  /** The whole run on the archive bytes `archive`, with the bytes of the
      companion archive when one is given. The companion pass runs with
      no companion of its own, so it does not recurse further. */
  ghost function Unpack(archive: seq<byte>, filter: Filter, companion: Option<seq<byte>>, zstd: Zstd): (o: Outcome)
    ensures ParseDirectory(archive).Err? ==> o == Outcome([], Some(ParseDirectory(archive).error))
    ensures o.error.None? ==> ParseDirectory(archive).Ok?
    decreases if companion.Some? then 1 else 0
  {
    match ParseDirectory(archive)
    case Err(x) => Outcome([], Some(x))
    case Ok(entries) =>
      var names := SortedNames(entries.Keys);
      var common := Placeholders(names, entries);
      var first :=
        if |common| > 0 && companion.Some? then Unpack(companion.value, Some(CompanionFilter(common)), None, zstd)
        else Outcome([], None);
      if first.error.Some? then first
      else
        var main := ExtractAll(archive, names, entries, filter, companion.Some?, zstd);
        Outcome(first.files + main.files, main.error)
  }

  lemma ExtractAllEmpty(data: seq<byte>, entries: map<Name, Entry>, filter: Filter, hasCompanion: bool, zstd: Zstd)
    ensures ExtractAll(data, [], entries, filter, hasCompanion, zstd) == Outcome([], None)
  {
  }

  lemma AppendFiles(files: seq<Output>, written: seq<Output>, rest: seq<Output>)
    ensures files + (written + rest) == (files + written) + rest
  {
  }

  /** The loop after its first name, given what that name's step gives. */
  lemma ExtractAllFirst(data: seq<byte>, names: seq<Name>, entries: map<Name, Entry>, filter: Filter,
                        hasCompanion: bool, zstd: Zstd, r: Result<Option<seq<byte>>>)
    requires names != [] && forall n :: n in names ==> n in entries
    requires EntryStep(data, names[0], entries[names[0]], filter, hasCompanion, zstd) == r
    ensures r.Err? ==> ExtractAll(data, names, entries, filter, hasCompanion, zstd) == Outcome([], Some(r.error))
    ensures r.Ok? ==>
      var rest := ExtractAll(data, names[1..], entries, filter, hasCompanion, zstd);
      ExtractAll(data, names, entries, filter, hasCompanion, zstd)
        == Outcome((if r.value.Some? then [Output(names[0], r.value.value)] else []) + rest.files, rest.error)
  {
    hide EntryStep;
  }

  /** One turn of the extraction loop, from the names before `names[i]`
      having written `files`. */
  lemma ExtractAllAdvance(data: seq<byte>, names: seq<Name>, entries: map<Name, Entry>, filter: Filter,
                          hasCompanion: bool, zstd: Zstd, i: nat, files: seq<Output>, r: Result<Option<seq<byte>>>)
    requires i < |names| && forall n :: n in names ==> n in entries
    requires EntryStep(data, names[i], entries[names[i]], filter, hasCompanion, zstd) == r
    requires var rest := ExtractAll(data, names[i..], entries, filter, hasCompanion, zstd);
      ExtractAll(data, names, entries, filter, hasCompanion, zstd) == Outcome(files + rest.files, rest.error)
    ensures r.Err? ==> ExtractAll(data, names, entries, filter, hasCompanion, zstd) == Outcome(files, Some(r.error))
    ensures r.Ok? ==>
      var files' := files + (if r.value.Some? then [Output(names[i], r.value.value)] else []);
      var rest := ExtractAll(data, names[i + 1..], entries, filter, hasCompanion, zstd);
      ExtractAll(data, names, entries, filter, hasCompanion, zstd) == Outcome(files' + rest.files, rest.error)
  {
    hide ExtractAll, EntryStep;
    assert names[i..][0] == names[i] && names[i..][1..] == names[i + 1..];
    ExtractAllFirst(data, names[i..], entries, filter, hasCompanion, zstd, r);
    if r.Err? {
      assert files + [] == files;
    } else {
      var written := if r.value.Some? then [Output(names[i], r.value.value)] else [];
      AppendFiles(files, written, ExtractAll(data, names[i + 1..], entries, filter, hasCompanion, zstd).files);
    }
  }

  /** A directory that cannot be read ends the run before anything is
      written. */
  lemma UnpackDirectoryError(archive: seq<byte>, filter: Filter, companion: Option<seq<byte>>, zstd: Zstd, x: Error)
    requires ParseDirectory(archive) == Err(x)
    ensures Unpack(archive, filter, companion, zstd) == Outcome([], Some(x))
  {
    hide ExtractAll;
  }

  /** The run once the directory is read and the companion pass, if any,
      has given `first`. */
  lemma UnpackAfterDirectory(archive: seq<byte>, filter: Filter, companion: Option<seq<byte>>, zstd: Zstd,
                             entries: map<Name, Entry>, names: seq<Name>, common: seq<Name>, first: Outcome)
    requires ParseDirectory(archive) == Ok(entries)
    requires names == SortedNames(entries.Keys) && common == Placeholders(names, entries)
    requires first == if |common| > 0 && companion.Some? then Unpack(companion.value, Some(CompanionFilter(common)), None, zstd)
                      else Outcome([], None)
    ensures first.error.Some? ==> Unpack(archive, filter, companion, zstd) == first
    ensures first.error.None? ==>
      var main := ExtractAll(archive, names, entries, filter, companion.Some?, zstd);
      Unpack(archive, filter, companion, zstd) == Outcome(first.files + main.files, main.error)
  {
    hide ExtractAll, ParseDirectory, Placeholders;
  }

  /** One iteration of the loop as the source runs it. */
  method ExtractStep(data: seq<byte>, name: Name, e: Entry, filter: Filter, hasCompanion: bool, zstd: Zstd)
    returns (r: Result<Option<seq<byte>>>)
    ensures r == EntryStep(data, name, e, filter, hasCompanion, zstd)
  {
    if filter.Some? && filter.value(name, e) {
      return Ok(None);
    }
    if IsPlaceholder(e) {
      if !hasCompanion && !IsAscii(name) {
        return Err(NonAsciiName);
      }
      return Ok(None);
    }
    r := ExtractEntry(data, e, zstd);
    if r.Ok? && !IsAscii(name) {
      return Err(NonAsciiName);
    }
  }

  /** `unpack_pkg` on byte strings: the directory, the placeholders, the
      companion pass, then the loop over the sorted names. */
  method UnpackPkg(archive: seq<byte>, filter: Filter, companion: Option<seq<byte>>, zstd: Zstd) returns (o: Outcome)
    ensures o == Unpack(archive, filter, companion, zstd)
    decreases if companion.Some? then 1 else 0
  {
    hide Unpack, ExtractAll, EntryStep, ParseDirectory;
    var parsed := ReadDirectory(archive);
    if parsed.Err? {
      UnpackDirectoryError(archive, filter, companion, zstd, parsed.error);
      return Outcome([], Some(parsed.error));
    }
    var entries := parsed.value;
    var common := CollectPlaceholders(entries);
    var first := Outcome([], None);
    if |common| > 0 && companion.Some? {
      first := UnpackPkg(companion.value, Some(CompanionFilter(common)), None, zstd);
    }
    UnpackAfterDirectory(archive, filter, companion, zstd, entries, SortedNames(entries.Keys), common, first);
    if first.error.Some? {
      return first;
    }
    var names := Sort(entries.Keys);
    var main := ExtractLoop(archive, names, entries, filter, companion.Some?, zstd);
    return Outcome(first.files + main.files, main.error);
  }

  /** The extraction loop over the sorted names: each file is written as
      soon as its entry is decoded, and an exception ends the loop. */
  method ExtractLoop(data: seq<byte>, names: seq<Name>, entries: map<Name, Entry>, filter: Filter,
                     hasCompanion: bool, zstd: Zstd) returns (o: Outcome)
    requires forall n :: n in names ==> n in entries
    ensures o == ExtractAll(data, names, entries, filter, hasCompanion, zstd)
  {
    hide ExtractAll, EntryStep, DecodeEntry;
    var files: seq<Output> := [];
    var i := 0;
    while i < |names|
      invariant i <= |names|
      invariant var rest := ExtractAll(data, names[i..], entries, filter, hasCompanion, zstd);
        ExtractAll(data, names, entries, filter, hasCompanion, zstd) == Outcome(files + rest.files, rest.error)
    {
      var step := ExtractStep(data, names[i], entries[names[i]], filter, hasCompanion, zstd);
      ExtractAllAdvance(data, names, entries, filter, hasCompanion, zstd, i, files, step);
      if step.Err? {
        return Outcome(files, Some(step.error));
      }
      if step.value.Some? {
        files := files + [Output(names[i], step.value.value)];
      }
      i := i + 1;
    }
    assert names[i..] == [];
    ExtractAllEmpty(data, entries, filter, hasCompanion, zstd);
    return Outcome(files, None);
  }

  // ---------------------------------------------------------------------
  // What a run writes.

  /** A placeholder is never decoded: it is passed over silently when a
      companion archive is given, and otherwise reported, which raises
      only for a name that is not ASCII. */
  lemma PlaceholderNotWritten(data: seq<byte>, name: Name, e: Entry, filter: Filter, hasCompanion: bool, zstd: Zstd)
    requires IsPlaceholder(e) && !Skipped(filter, name, e)
    ensures hasCompanion ==> EntryStep(data, name, e, filter, hasCompanion, zstd) == Ok(None)
    ensures !hasCompanion ==>
      (EntryStep(data, name, e, filter, hasCompanion, zstd) == Ok(None) <==> IsAscii(name))
  {
    hide DecodeEntry;
  }

  /** The names of the files written, in order. */
  function FileNames(files: seq<Output>): (r: seq<Name>)
    ensures |r| == |files| && forall k :: 0 <= k < |files| ==> r[k] == files[k].name
  {
    seq(|files|, k requires 0 <= k < |files| => files[k].name)
  }

  /** Every file the loop writes is one of its names whose step writes
      exactly those bytes. */
  lemma {:induction false} ExtractAllSound(data: seq<byte>, names: seq<Name>, entries: map<Name, Entry>, filter: Filter,
                                           hasCompanion: bool, zstd: Zstd)
    requires forall n :: n in names ==> n in entries
    ensures forall f :: f in ExtractAll(data, names, entries, filter, hasCompanion, zstd).files ==>
      f.name in names && EntryStep(data, f.name, entries[f.name], filter, hasCompanion, zstd) == Ok(Some(f.bytes))
    decreases |names|
  {
    hide EntryStep, DecodeEntry;
    if names != [] {
      ExtractAllSound(data, names[1..], entries, filter, hasCompanion, zstd);
      var o := ExtractAll(data, names, entries, filter, hasCompanion, zstd);
      var rest := ExtractAll(data, names[1..], entries, filter, hasCompanion, zstd);
      match EntryStep(data, names[0], entries[names[0]], filter, hasCompanion, zstd)
      case Err(_) =>
      case Ok(out) =>
        var written := if out.Some? then [Output(names[0], out.value)] else [];
        assert o.files == written + rest.files;
        forall f | f in o.files
          ensures f.name in names && EntryStep(data, f.name, entries[f.name], filter, hasCompanion, zstd) == Ok(Some(f.bytes))
        {
          if f in rest.files {
            assert f.name in names[1..];
          }
        }
    }
  }

  /** A loop that ends without an exception ran every step without one
      and wrote the file of every step that writes. */
  lemma {:induction false} ExtractAllComplete(data: seq<byte>, names: seq<Name>, entries: map<Name, Entry>, filter: Filter,
                                              hasCompanion: bool, zstd: Zstd)
    requires forall n :: n in names ==> n in entries
    ensures var o := ExtractAll(data, names, entries, filter, hasCompanion, zstd);
      o.error.None? ==>
        forall n :: n in names ==>
          && EntryStep(data, n, entries[n], filter, hasCompanion, zstd).Ok?
          && (EntryStep(data, n, entries[n], filter, hasCompanion, zstd).value.Some? ==>
                Output(n, EntryStep(data, n, entries[n], filter, hasCompanion, zstd).value.value) in o.files)
    decreases |names|
  {
    hide EntryStep, DecodeEntry;
    if names != [] {
      ExtractAllComplete(data, names[1..], entries, filter, hasCompanion, zstd);
      var o := ExtractAll(data, names, entries, filter, hasCompanion, zstd);
      var rest := ExtractAll(data, names[1..], entries, filter, hasCompanion, zstd);
      match EntryStep(data, names[0], entries[names[0]], filter, hasCompanion, zstd)
      case Err(_) =>
      case Ok(out) =>
        var written := if out.Some? then [Output(names[0], out.value)] else [];
        assert o.files == written + rest.files;
        forall n | n in names && o.error.None?
          ensures EntryStep(data, n, entries[n], filter, hasCompanion, zstd).Ok?
          ensures EntryStep(data, n, entries[n], filter, hasCompanion, zstd).value.Some? ==>
                    Output(n, EntryStep(data, n, entries[n], filter, hasCompanion, zstd).value.value) in o.files
        {
          if n != names[0] {
            assert n in names[1..];
            var x := EntryStep(data, n, entries[n], filter, hasCompanion, zstd);
            if x.value.Some? {
              assert Output(n, x.value.value) in rest.files;
            }
          } else if out.Some? {
            assert o.files[0] == Output(n, out.value);
          }
        }
    }
  }

  /** A kept entry that is no placeholder and whose payload fails to
      decode ends the loop with an exception. */
  lemma DecodeFailureRaises(data: seq<byte>, names: seq<Name>, entries: map<Name, Entry>, filter: Filter,
                            hasCompanion: bool, zstd: Zstd, n: Name)
    requires forall m :: m in names ==> m in entries
    requires n in names && !Skipped(filter, n, entries[n]) && !IsPlaceholder(entries[n])
    requires DecodeEntry(data, entries[n], zstd).Err?
    ensures ExtractAll(data, names, entries, filter, hasCompanion, zstd).error.Some?
  {
    hide EntryStep, DecodeEntry;
    ExtractAllComplete(data, names, entries, filter, hasCompanion, zstd);
  }

  /** An exception comes from the first step that raises it; every step
      before it ran without one. */
  lemma {:induction false} ExtractAllError(data: seq<byte>, names: seq<Name>, entries: map<Name, Entry>, filter: Filter,
                                           hasCompanion: bool, zstd: Zstd)
    requires forall n :: n in names ==> n in entries
    ensures var o := ExtractAll(data, names, entries, filter, hasCompanion, zstd);
      o.error.Some? ==>
        exists i :: 0 <= i < |names|
          && EntryStep(data, names[i], entries[names[i]], filter, hasCompanion, zstd) == Err(o.error.value)
          && forall j :: 0 <= j < i ==> EntryStep(data, names[j], entries[names[j]], filter, hasCompanion, zstd).Ok?
    decreases |names|
  {
    hide EntryStep, DecodeEntry;
    if names != [] {
      var o := ExtractAll(data, names, entries, filter, hasCompanion, zstd);
      var step := EntryStep(data, names[0], entries[names[0]], filter, hasCompanion, zstd);
      if step.Err? {
        assert EntryStep(data, names[0], entries[names[0]], filter, hasCompanion, zstd) == Err(o.error.value);
      } else {
        ExtractAllError(data, names[1..], entries, filter, hasCompanion, zstd);
        var rest := ExtractAll(data, names[1..], entries, filter, hasCompanion, zstd);
        if o.error.Some? {
          var t := names[1..];
          var i :| 0 <= i < |t|
            && EntryStep(data, t[i], entries[t[i]], filter, hasCompanion, zstd) == Err(rest.error.value)
            && forall j :: 0 <= j < i ==> EntryStep(data, t[j], entries[t[j]], filter, hasCompanion, zstd).Ok?;
          assert names[i + 1] == t[i];
          forall j | 0 <= j < i + 1
            ensures EntryStep(data, names[j], entries[names[j]], filter, hasCompanion, zstd).Ok?
          {
            if j > 0 {
              assert names[j] == t[j - 1];
            }
          }
        }
      }
    }
  }

  /** The head of a sorted list is below every name of its tail. */
  lemma SortedHead(names: seq<Name>)
    requires Sorted(names) && names != []
    ensures forall n :: n in names[1..] ==> Less(names[0], n)
  {
    forall n | n in names[1..]
      ensures Less(names[0], n)
    {
      var k :| 0 <= k < |names[1..]| && names[1..][k] == n;
      assert names[k + 1] == n;
    }
  }

  /** A name below every name of a sorted list can lead it. */
  lemma SortedCons(x: Name, s: seq<Name>)
    requires Sorted(s) && forall j :: 0 <= j < |s| ==> Less(x, s[j])
    ensures Sorted([x] + s)
  {
    forall i, j | 0 <= i < j < |[x] + s|
      ensures Less(([x] + s)[i], ([x] + s)[j])
    {
      assert ([x] + s)[j] == s[j - 1];
      if i > 0 {
        assert ([x] + s)[i] == s[i - 1];
      }
    }
  }

  /** The tail of a sorted list is sorted. */
  lemma SortedTail(names: seq<Name>)
    requires Sorted(names) && names != []
    ensures Sorted(names[1..])
  {
    forall i, j | 0 <= i < j < |names[1..]|
      ensures Less(names[1..][i], names[1..][j])
    {
      assert names[1..][i] == names[i + 1] && names[1..][j] == names[j + 1];
    }
  }

  lemma FileNamesCons(f: Output, files: seq<Output>)
    ensures FileNames([f] + files) == [f.name] + FileNames(files)
  {
  }

  /** The names of the files written from `names` all come from `names`. */
  lemma FileNamesFrom(data: seq<byte>, names: seq<Name>, entries: map<Name, Entry>, filter: Filter,
                      hasCompanion: bool, zstd: Zstd)
    requires forall n :: n in names ==> n in entries
    ensures var rn := FileNames(ExtractAll(data, names, entries, filter, hasCompanion, zstd).files);
      forall j :: 0 <= j < |rn| ==> rn[j] in names
  {
    hide EntryStep, DecodeEntry;
    var files := ExtractAll(data, names, entries, filter, hasCompanion, zstd).files;
    ExtractAllSound(data, names, entries, filter, hasCompanion, zstd);
    forall j | 0 <= j < |files|
      ensures files[j].name in names
    {
      assert files[j] in files;
    }
  }

  /** The loop writes its files in the order of its names, so files
      written from sorted names are sorted by name. */
  lemma {:induction false} ExtractAllSorted(data: seq<byte>, names: seq<Name>, entries: map<Name, Entry>, filter: Filter,
                                            hasCompanion: bool, zstd: Zstd)
    requires forall n :: n in names ==> n in entries
    requires Sorted(names)
    ensures Sorted(FileNames(ExtractAll(data, names, entries, filter, hasCompanion, zstd).files))
    decreases |names|
  {
    hide EntryStep, DecodeEntry, ExtractAll, FileNames;
    if names == [] {
      ExtractAllEmpty(data, entries, filter, hasCompanion, zstd);
    } else {
      var r := EntryStep(data, names[0], entries[names[0]], filter, hasCompanion, zstd);
      ExtractAllFirst(data, names, entries, filter, hasCompanion, zstd, r);
      if r.Err? {
      } else {
        SortedTail(names);
        ExtractAllSorted(data, names[1..], entries, filter, hasCompanion, zstd);
        var rest := ExtractAll(data, names[1..], entries, filter, hasCompanion, zstd);
        var rn := FileNames(rest.files);
        if r.value.Some? {
          FileNamesFrom(data, names[1..], entries, filter, hasCompanion, zstd);
          SortedHead(names);
          SortedCons(names[0], rn);
          FileNamesCons(Output(names[0], r.value.value), rest.files);
        } else {
          assert [] + rest.files == rest.files;
        }
      }
    }
  }

  /** The companion pass writes only files whose names are placeholders
      of the archive that called for it. */
  lemma CompanionWritesOnlyPlaceholders(companion: seq<byte>, common: seq<Name>, zstd: Zstd)
    ensures var o := Unpack(companion, Some(CompanionFilter(common)), None, zstd);
      forall k :: 0 <= k < |o.files| ==> o.files[k].name in common
  {
    hide EntryStep, DecodeEntry;
    var o := Unpack(companion, Some(CompanionFilter(common)), None, zstd);
    if ParseDirectory(companion).Ok? {
      var entries := ParseDirectory(companion).value;
      var names := SortedNames(entries.Keys);
      var filter := Some(CompanionFilter(common));
      assert forall n :: n in names ==> n in entries by {
        assert Elements(names) == entries.Keys;
      }
      ExtractAllSound(companion, names, entries, filter, false, zstd);
      assert o.files == [] + ExtractAll(companion, names, entries, filter, false, zstd).files;
      forall k | 0 <= k < |o.files|
        ensures o.files[k].name in common
      {
        var n := o.files[k].name;
        EntryStepWrites(companion, n, entries[n], Some(CompanionFilter(common)), false, zstd, o.files[k].bytes);
      }
    }
  }

  /** Conversely, an error-free companion pass writes every name the
      calling archive lists as a placeholder, provided that the companion
      holds a real entry under that name which decodes to bytes. */
  lemma CompanionWritesListedNames(companion: seq<byte>, common: seq<Name>, zstd: Zstd,
                                   entries: map<Name, Entry>, n: Name, out: seq<byte>)
    requires ParseDirectory(companion) == Ok(entries)
    requires n in common && n in entries && !IsPlaceholder(entries[n]) && IsAscii(n)
    requires DecodeEntry(companion, entries[n], zstd) == Ok(Some(out))
    requires Unpack(companion, Some(CompanionFilter(common)), None, zstd).error.None?
    ensures Output(n, out) in Unpack(companion, Some(CompanionFilter(common)), None, zstd).files
  {
    hide EntryStep, DecodeEntry;
    var filter := Some(CompanionFilter(common));
    var names := SortedNames(entries.Keys);
    assert forall m :: m in names ==> m in entries by {
      assert Elements(names) == entries.Keys;
    }
    assert n in names by {
      assert Elements(names) == entries.Keys;
    }
    var o := Unpack(companion, filter, None, zstd);
    var main := ExtractAll(companion, names, entries, filter, false, zstd);
    UnpackAfterDirectory(companion, filter, None, zstd, entries, names, Placeholders(names, entries), Outcome([], None));
    assert o == Outcome([] + main.files, main.error);
    assert !Skipped(filter, n, entries[n]);
    EntryStepWrites(companion, n, entries[n], filter, false, zstd, out);
    ExtractAllComplete(companion, names, entries, filter, false, zstd);
    assert o.files == main.files;
  }

  /** A pass with no companion writes its files in sorted name order. */
  lemma PassSorted(archive: seq<byte>, filter: Filter, zstd: Zstd)
    ensures Sorted(FileNames(Unpack(archive, filter, None, zstd).files))
  {
    hide EntryStep, DecodeEntry, Table, Records, LittleEndian;
    if ParseDirectory(archive).Ok? {
      var entries := ParseDirectory(archive).value;
      var names := SortedNames(entries.Keys);
      assert forall n :: n in names ==> n in entries by {
        assert Elements(names) == entries.Keys;
      }
      ExtractAllSorted(archive, names, entries, filter, false, zstd);
      assert Unpack(archive, filter, None, zstd).files == [] + ExtractAll(archive, names, entries, filter, false, zstd).files;
    }
  }

  /** Sorted names are pairwise distinct. */
  lemma SortedDistinct(s: seq<Name>)
    requires Sorted(s)
    ensures forall i, j :: 0 <= i < j < |s| ==> s[i] != s[j]
  {
    forall i, j | 0 <= i < j < |s|
      ensures s[i] != s[j]
    {
      if s[i] == s[j] {
        LessIrreflexive(s[i]);
      }
    }
  }

  /** Two sorted runs of files, the first only on names in `common` and the
      second on none of them, together name no file twice. */
  lemma ConcatDistinct(a: seq<Output>, b: seq<Output>, common: seq<Name>)
    requires Sorted(FileNames(a)) && Sorted(FileNames(b))
    requires forall k :: 0 <= k < |a| ==> a[k].name in common
    requires forall f :: f in b ==> f.name !in common
    ensures forall i, j :: 0 <= i < j < |a + b| ==> (a + b)[i].name != (a + b)[j].name
  {
    SortedDistinct(FileNames(a));
    SortedDistinct(FileNames(b));
    forall i, j | 0 <= i < j < |a + b|
      ensures (a + b)[i].name != (a + b)[j].name
    {
      if j < |a| {
        assert FileNames(a)[i] != FileNames(a)[j];
      } else if i >= |a| {
        assert FileNames(b)[i - |a|] != FileNames(b)[j - |a|];
      } else {
        assert (a + b)[j] == b[j - |a|] && b[j - |a|] in b;
      }
    }
  }

  /** The main pass never writes a placeholder's name. */
  lemma MainAvoidsPlaceholders(data: seq<byte>, names: seq<Name>, entries: map<Name, Entry>, filter: Filter,
                               hasCompanion: bool, zstd: Zstd, common: seq<Name>)
    requires forall n :: n in names ==> n in entries
    requires forall n :: n in common ==> n in entries && IsPlaceholder(entries[n])
    ensures forall f :: f in ExtractAll(data, names, entries, filter, hasCompanion, zstd).files ==> f.name !in common
  {
    hide EntryStep, DecodeEntry;
    ExtractAllSound(data, names, entries, filter, hasCompanion, zstd);
    forall f | f in ExtractAll(data, names, entries, filter, hasCompanion, zstd).files
      ensures f.name !in common
    {
      EntryStepWrites(data, f.name, entries[f.name], filter, hasCompanion, zstd, f.bytes);
    }
  }

  /** No run writes the same name twice: each pass writes in sorted order,
      and the companion pass writes only placeholder names, which the main
      pass never writes. */
  lemma UnpackNamesDistinct(archive: seq<byte>, filter: Filter, companion: Option<seq<byte>>, zstd: Zstd)
    ensures var files := Unpack(archive, filter, companion, zstd).files;
      forall i, j :: 0 <= i < j < |files| ==> files[i].name != files[j].name
  {
    hide Unpack, ExtractAll, EntryStep, DecodeEntry, ParseDirectory, Placeholders, SortedNames;
    match ParseDirectory(archive)
    case Err(x) =>
      UnpackDirectoryError(archive, filter, companion, zstd, x);
    case Ok(entries) =>
      DistinctAfterDirectory(archive, filter, companion, zstd, entries);
  }

  /** `UnpackNamesDistinct` once the directory has parsed. */
  lemma DistinctAfterDirectory(archive: seq<byte>, filter: Filter, companion: Option<seq<byte>>, zstd: Zstd,
                               entries: map<Name, Entry>)
    requires ParseDirectory(archive) == Ok(entries)
    ensures var files := Unpack(archive, filter, companion, zstd).files;
      forall i, j :: 0 <= i < j < |files| ==> files[i].name != files[j].name
  {
    hide Unpack, ExtractAll, EntryStep, DecodeEntry, ParseDirectory, Placeholders, SortedNames,
      Table, Records, LittleEndian, Sorted, FileNames;
    var names := SortedNames(entries.Keys);
    var common := Placeholders(names, entries);
    assert forall n :: n in names ==> n in entries by {
      assert Elements(names) == entries.Keys;
    }
    var first := if |common| > 0 && companion.Some? then Unpack(companion.value, Some(CompanionFilter(common)), None, zstd)
                 else Outcome([], None);
    var main := ExtractAll(archive, names, entries, filter, companion.Some?, zstd);
    UnpackAfterDirectory(archive, filter, companion, zstd, entries, names, common, first);
    FirstPassNames(companion, common, zstd, first);
    ExtractAllSorted(archive, names, entries, filter, companion.Some?, zstd);
    MainAvoidsPlaceholders(archive, names, entries, filter, companion.Some?, zstd, common);
    DistinctOutcome(Unpack(archive, filter, companion, zstd), first, main, common);
  }

  /** The outcome of a first pass with sorted placeholder names, followed
      when it raised nothing by a sorted main pass that avoids those names,
      carries distinct names. */
  lemma DistinctOutcome(o: Outcome, first: Outcome, main: Outcome, common: seq<Name>)
    requires o == if first.error.Some? then first else Outcome(first.files + main.files, main.error)
    requires Sorted(FileNames(first.files)) && forall k :: 0 <= k < |first.files| ==> first.files[k].name in common
    requires Sorted(FileNames(main.files)) && forall f :: f in main.files ==> f.name !in common
    ensures forall i, j :: 0 <= i < j < |o.files| ==> o.files[i].name != o.files[j].name
  {
    if first.error.Some? {
      ConcatDistinct(first.files, [], common);
      assert first.files + [] == first.files;
    } else {
      ConcatDistinct(first.files, main.files, common);
    }
  }

  /** Whatever runs before the main pass writes sorted placeholder names. */
  lemma FirstPassNames(companion: Option<seq<byte>>, common: seq<Name>, zstd: Zstd, first: Outcome)
    requires first == if |common| > 0 && companion.Some? then Unpack(companion.value, Some(CompanionFilter(common)), None, zstd)
                      else Outcome([], None)
    ensures Sorted(FileNames(first.files))
    ensures forall k :: 0 <= k < |first.files| ==> first.files[k].name in common
  {
    hide Unpack, ExtractAll, EntryStep, DecodeEntry, ParseDirectory, Placeholders, SortedNames;
    if |common| > 0 && companion.Some? {
      PassSorted(companion.value, Some(CompanionFilter(common)), zstd);
      CompanionWritesOnlyPlaceholders(companion.value, common, zstd);
    }
  }

  /** A directory too short to hold the entry count ends the run with
      nothing written. */
  lemma ShortArchive(archive: seq<byte>, filter: Filter, companion: Option<seq<byte>>, zstd: Zstd)
    requires |archive| < 8
    ensures Unpack(archive, filter, companion, zstd) == Outcome([], Some(ShortHeader))
  {
    hide ExtractAll;
  }
}
