/**
 Reading a zip file: finding the central directory, checking it and entering its
 names in a hash table, and finding the data of an entry by name.
 */
module ZipArchive {
  import opened Bits
  import opened CdEntryMap
  import opened EntryNames
  import opened OrderedKeys
  import opened Z = ZipFormat
  import opened WordSizes

  datatype ZipError =
    | InvalidFile | EmptyArchive | InvalidOffset | InvalidEntryName | DuplicateEntry | EntryNotFound
    | InconsistentInformation | IoError | Zip64

  datatype Result<+T> = Success(value: T) | Failure(error: ZipError)

  const MAX_EOCD_SEARCH: nat := 65535 + EOCD_SIZE
  const MAX_FILE_LENGTH: nat := 256 * 0x4000_0000

  // ----- the end record

  datatype CdInfo = CdInfo(num_records: nat, cd_size: nat, cd_start_offset: nat)

  /** The last place from `low` to `i` where an end record could start. */
  function Scan(file: seq<Byte>, i: int, low: nat): Option<nat>
    requires i + 4 <= |file|
    decreases i
  {
    if i < low then None
    else if U32(file, i) == EOCD_SIGNATURE then Some(i)
    else Scan(file, i - 1, low)
  }

  function SearchStart(length: nat): nat {
    if length < MAX_EOCD_SEARCH then 0 else length - MAX_EOCD_SEARCH
  }

  function DirectoryInfo(file: seq<Byte>): Result<CdInfo> {
    var length := |file|;
    if length > MAX_FILE_LENGTH || length < EOCD_SIZE then Failure(InvalidFile)
    else
      match Scan(file, length - EOCD_SIZE, SearchStart(length))
      case None => Failure(InvalidFile)
      case Some(eocd) =>
        if eocd + EOCD_SIZE > length || eocd + EOCD_SIZE + U16(file, eocd + 20) != length then Failure(InvalidFile)
        else
          var info := CdInfo(U16(file, eocd + 10), U32(file, eocd + 12), U32(file, eocd + 16));
          if info.cd_size == UINT32_MAX || info.cd_start_offset == UINT32_MAX then Failure(Zip64)
          else if info.cd_start_offset + info.cd_size > eocd then Failure(InvalidOffset)
          else if info.num_records == 0 then Failure(EmptyArchive)
          else Success(info)
  }

  lemma {:induction false} ScanRange(file: seq<Byte>, i: int, low: nat)
    requires i + 4 <= |file|
    ensures var r := Scan(file, i, low); r.Some? ==> low <= r.value <= i && U32(file, r.value) == EOCD_SIGNATURE
    ensures var r := Scan(file, i, low);
            forall k :: low <= k <= i && (r.None? || r.value < k) ==> U32(file, k) != EOCD_SIGNATURE
    decreases i
  {
    if i >= low && U32(file, i) != EOCD_SIGNATURE { ScanRange(file, i - 1, low); }
  }

  /** Looks backwards for the end record. */
  method MapCentralDirectory(file: seq<Byte>) returns (info: Result<CdInfo>)
    ensures info == DirectoryInfo(file)
  {
    hide U16, U32;
    var file_length := |file|;
    if file_length > MAX_FILE_LENGTH { return Failure(InvalidFile); }
    if file_length < EOCD_SIZE { return Failure(InvalidFile); }
    var read_amount := if file_length < MAX_EOCD_SEARCH then file_length else MAX_EOCD_SEARCH;
    var search_start := file_length - read_amount;
    var i := read_amount - EOCD_SIZE;
    while i >= 0 && U32(file, search_start + i) != EOCD_SIGNATURE
      invariant -1 <= i <= read_amount - EOCD_SIZE
      invariant Scan(file, file_length - EOCD_SIZE, search_start) == Scan(file, search_start + i, search_start)
      decreases i
    {
      i := i - 1;
    }
    if i < 0 { return Failure(InvalidFile); }
    var eocd := search_start + i;
    if eocd + EOCD_SIZE + U16(file, eocd + 20) != file_length { return Failure(InvalidFile); }
    var cd_size, cd_start := U32(file, eocd + 12), U32(file, eocd + 16);
    if cd_size == UINT32_MAX || cd_start == UINT32_MAX { return Failure(Zip64); }
    if cd_start + cd_size > eocd { return Failure(InvalidOffset); }
    if U16(file, eocd + 10) == 0 { return Failure(EmptyArchive); }
    return Success(CdInfo(U16(file, eocd + 10), cd_size, cd_start));
  }

  // ----- the central directory

  /** The size of the record at `ptr` with all that belongs to it. */
  function RecordLength(cd: seq<Byte>, ptr: nat): nat
    requires ptr + CDR_SIZE <= |cd|
  {
    CDR_SIZE + U16(cd, ptr + 28) + U16(cd, ptr + 30) + U16(cd, ptr + 32)
  }

  /** What is wrong with the record at `ptr`. */
  function RecordError(cd: seq<Byte>, directory_offset: nat, ptr: nat): Option<ZipError> {
    if ptr + CDR_SIZE > |cd| then Some(InvalidFile)
    else if U32(cd, ptr) != CDR_SIGNATURE then Some(InvalidFile)
    else
      var name_length, extra_length := U16(cd, ptr + 28), U16(cd, ptr + 30);
      var name := ptr + CDR_SIZE;
      if name_length >= |cd| || name + name_length > |cd| then Some(InvalidEntryName)
      else if extra_length >= |cd| || name + name_length + extra_length > |cd| then Some(InvalidFile)
      else if U32(cd, ptr + 42) == UINT32_MAX then Some(Zip64)
      else if U32(cd, ptr + 42) >= directory_offset then Some(InvalidFile)
      else if !ValidName(cd[name..name + name_length]) then Some(InvalidEntryName)
      else if ptr + RecordLength(cd, ptr) > |cd| then Some(InvalidFile)
      else None
  }

  /** What is wrong with the next `n` records. */
  function Verify(cd: seq<Byte>, directory_offset: nat, n: nat, ptr: nat): Option<ZipError>
    decreases n
  {
    if n == 0 then None
    else
      var error := RecordError(cd, directory_offset, ptr);
      if error.Some? then error else Verify(cd, directory_offset, n - 1, ptr + RecordLength(cd, ptr))
  }

  function NameOf(cd: seq<Byte>, ptr: nat): Name
    requires ptr + CDR_SIZE <= |cd| && ptr + CDR_SIZE + U16(cd, ptr + 28) <= |cd|
  {
    cd[ptr + CDR_SIZE..ptr + CDR_SIZE + U16(cd, ptr + 28)]
  }

  /** The names of the next `n` records, with where they are. */
  function Names(cd: seq<Byte>, directory_offset: nat, n: nat, ptr: nat): seq<(Name, nat)>
    requires Verify(cd, directory_offset, n, ptr).None?
    decreases n
  {
    if n == 0 then []
    else [(NameOf(cd, ptr), ptr + CDR_SIZE)] + Names(cd, directory_offset, n - 1, ptr + RecordLength(cd, ptr))
  }

  ghost predicate NoDuplicates(names: seq<(Name, nat)>) {
    forall i, j :: 0 <= i < j < |names| ==> names[i].0 != names[j].0
  }

  /** The map from names to offsets. */
  ghost function ToMap(names: seq<(Name, nat)>): map<Name, nat> {
    if names == [] then map[] else ToMap(names[..|names| - 1])[names[|names| - 1].0 := names[|names| - 1].1]
  }

  /** The length of the longest name, up to the first record with an error. */
  function LongestName(cd: seq<Byte>, directory_offset: nat, n: nat, ptr: nat): nat
    decreases n
  {
    if n == 0 || RecordError(cd, directory_offset, ptr).Some? then 0
    else Max(U16(cd, ptr + 28), LongestName(cd, directory_offset, n - 1, ptr + RecordLength(cd, ptr)))
  }

  function Max(a: nat, b: nat): nat {
    if a < b then b else a
  }

  lemma {:induction false} NamesFit(cd: seq<Byte>, directory_offset: nat, n: nat, ptr: nat)
    requires Verify(cd, directory_offset, n, ptr).None?
    ensures |Names(cd, directory_offset, n, ptr)| == n
    ensures AllListed(cd, Names(cd, directory_offset, n, ptr), LongestName(cd, directory_offset, n, ptr))
    decreases n
  {
    if n > 0 {
      hide U16, U32, RecordError, RecordLength, ValidName;
      assert RecordError(cd, directory_offset, ptr).None?;
      RecordFits(cd, directory_offset, ptr);
      var next := ptr + RecordLength(cd, ptr);
      NamesFit(cd, directory_offset, n - 1, next);
      var first, longest := (NameOf(cd, ptr), ptr + CDR_SIZE), LongestName(cd, directory_offset, n - 1, next);
      assert Listed(cd, first, LongestName(cd, directory_offset, n, ptr));
      hide AllListed, Listed, Verify;
      ListedFirst(cd, first, Names(cd, directory_offset, n - 1, next), longest,
                  LongestName(cd, directory_offset, n, ptr));
    }
  }

  /** A name of the directory, of limited length. */
  ghost predicate Listed(cd: seq<Byte>, v: (Name, nat), longest: nat) {
    |v.0| <= longest && |v.0| <= UINT16_MAX && 0 < v.1 && v.1 + |v.0| <= |cd| && cd[v.1..v.1 + |v.0|] == v.0
  }

  ghost predicate AllListed(cd: seq<Byte>, names: seq<(Name, nat)>, longest: nat) {
    forall i :: 0 <= i < |names| ==> Listed(cd, names[i], longest)
  }

  lemma ListedFirst(cd: seq<Byte>, first: (Name, nat), rest: seq<(Name, nat)>, longest: nat, longest': nat)
    requires AllListed(cd, rest, longest) && longest <= longest' && Listed(cd, first, longest')
    ensures AllListed(cd, [first] + rest, longest')
  {
    forall i | 0 <= i < |[first] + rest|
      ensures Listed(cd, ([first] + rest)[i], longest')
    {
      if i > 0 { assert Listed(cd, rest[i - 1], longest); }
    }
  }

  /** The map has the names of the list and no others. */
  lemma {:induction false} ToMapOnly(names: seq<(Name, nat)>, name: Name)
    ensures name in ToMap(names) <==> InNames(names, name)
  {
    if names != [] {
      var n := |names| - 1;
      ToMapOnly(names[..n], name);
      assert InNames(names, name) <==> InNames(names[..n], name) || names[n].0 == name by {
        assert forall i :: 0 <= i < n ==> names[..n][i] == names[i];
      }
    }
  }

  lemma {:induction false} ToMapAt(names: seq<(Name, nat)>, i: nat)
    requires NoDuplicates(names) && i < |names|
    ensures names[i].0 in ToMap(names) && ToMap(names)[names[i].0] == names[i].1
  {
    var init := names[..|names| - 1];
    if i < |init| { ToMapAt(init, i); }
  }

  lemma {:induction false} ToMapSize(names: seq<(Name, nat)>)
    requires NoDuplicates(names)
    ensures |ToMap(names)| == |names|
  {
    if names != [] {
      var n := |names| - 1;
      ToMapSize(names[..n]);
      ToMapOnly(names[..n], names[n].0);
      assert !InNames(names[..n], names[n].0);
    }
  }

  ghost predicate InNames(names: seq<(Name, nat)>, name: Name) {
    exists i :: 0 <= i < |names| && names[i].0 == name
  }

  // ----- the whole archive

  /** The records of the directory that the end record points to. */
  function Slice(file: seq<Byte>, info: CdInfo): seq<Byte> {
    if info.cd_start_offset + info.cd_size > |file| then []
    else file[info.cd_start_offset..info.cd_start_offset + info.cd_size]
  }

  /** Why the file is not taken for an archive. */
  ghost function OpenError(file: seq<Byte>): Option<ZipError> {
    match DirectoryInfo(file)
    case Failure(e) => Some(e)
    case Success(info) =>
      var cd := Slice(file, info);
      var error := Verify(cd, info.cd_start_offset, info.num_records, 0);
      if error.Some? then error
      else if !NoDuplicates(Names(cd, info.cd_start_offset, info.num_records, 0)) then Some(DuplicateEntry)
      else if |file| < 4 || U32(file, 0) != LFH_SIGNATURE then Some(InvalidFile)
      else None
  }

  /** Checks the records one after the other. */
  method VerifyDirectory(cd: seq<Byte>, directory_offset: nat, num_entries: nat)
    returns (error: Option<ZipError>, max_name: nat)
    ensures error == Verify(cd, directory_offset, num_entries, 0)
    ensures error.None? ==> max_name == LongestName(cd, directory_offset, num_entries, 0)
  {
    hide RecordError, RecordLength, U16;
    var ptr: nat := 0;
    max_name := 0;
    for i := 0 to num_entries
      invariant Verify(cd, directory_offset, num_entries, 0) == Verify(cd, directory_offset, num_entries - i, ptr)
      invariant LongestName(cd, directory_offset, num_entries, 0) ==
                Max(max_name, LongestName(cd, directory_offset, num_entries - i, ptr))
    {
      error := RecordError(cd, directory_offset, ptr);
      if error.Some? { return; }
      assert ptr + CDR_SIZE <= |cd| by { RecordFits(cd, directory_offset, ptr); }
      max_name := Max(max_name, U16(cd, ptr + 28));
      ptr := ptr + RecordLength(cd, ptr);
    }
    error := None;
  }

  lemma RecordFits(cd: seq<Byte>, directory_offset: nat, ptr: nat)
    requires RecordError(cd, directory_offset, ptr).None?
    ensures ptr + CDR_SIZE <= |cd| && ptr + CDR_SIZE + U16(cd, ptr + 28) <= |cd| && |NameOf(cd, ptr)| <= UINT16_MAX
  {
  }

  /** Enters the names in the table, until one comes up a second time. */
  method FillMap(cd: seq<Byte>, directory_offset: nat, num_entries: nat, max_name: nat, hash: Name -> nat)
    returns (cd_entry_map: CdEntryMapZip32, ok: bool)
    requires Verify(cd, directory_offset, num_entries, 0).None? && num_entries <= UINT16_MAX && |cd| <= UINT32_MAX
    requires max_name == LongestName(cd, directory_offset, num_entries, 0)
    ensures ok <==> NoDuplicates(Names(cd, directory_offset, num_entries, 0))
    ensures ok ==> cd_entry_map.Valid(cd) && cd_entry_map.entries == ToMap(Names(cd, directory_offset, num_entries, 0))
    ensures fresh(cd_entry_map) && fresh(cd_entry_map.hash_table)
  {
    hide RecordError, RecordLength, U16, LongestName, ToMap, CdEntryMapZip32.Valid, NoDuplicates, AtRecord, AllListed,
         CdEntryMap.Fits, Names, Verify;
    var small := |cd| <= OFFSET20_MAX && max_name <= LENGTH12_MAX;
    ghost var names := Names(cd, directory_offset, num_entries, 0);
    NamesFit(cd, directory_offset, num_entries, 0);
    assert CdEntryMap.Fits(small, |cd|, 0) by { DirectoryPacks(cd, max_name, small); }
    cd_entry_map := new CdEntryMapZip32(num_entries, hash, small, cd);
    FirstRecord(cd, directory_offset, num_entries, names);
    var ptr: nat := 0;
    for i := 0 to num_entries
      invariant fresh(cd_entry_map) && fresh(cd_entry_map.hash_table)
      invariant cd_entry_map.Valid(cd) && cd_entry_map.capacity == num_entries && cd_entry_map.small == small
      invariant NoDuplicates(names[..i]) && cd_entry_map.entries == ToMap(names[..i])
                && AtRecord(cd, directory_offset, names, i, ptr)
    {
      NextRecord(cd, directory_offset, names, i, ptr);
      NamePacks(cd, names, max_name, small, i);
      ToMapSize(names[..i]);
      ToMapNext(names, i);
      var added := cd_entry_map.AddToMap(NameOf(cd, ptr), ptr + CDR_SIZE, cd);
      if !added {
        Duplicated(names, i);
        return cd_entry_map, false;
      }
      ptr := ptr + RecordLength(cd, ptr);
    }
    assert names[..num_entries] == names;
    ok := true;
  }

  /** The names from `i` on are those of the records from `ptr` on. */
  ghost predicate AtRecord(cd: seq<Byte>, directory_offset: nat, names: seq<(Name, nat)>, i: nat, ptr: nat) {
    && i <= |names| && Verify(cd, directory_offset, |names| - i, ptr).None?
    && names[i..] == Names(cd, directory_offset, |names| - i, ptr)
  }

  lemma FirstRecord(cd: seq<Byte>, directory_offset: nat, n: nat, names: seq<(Name, nat)>)
    requires Verify(cd, directory_offset, n, 0).None? && names == Names(cd, directory_offset, n, 0)
    ensures |names| == n && AtRecord(cd, directory_offset, names, 0, 0) && ToMap(names[..0]) == map[]
            && NoDuplicates(names[..0])
  {
    NamesFit(cd, directory_offset, n, 0);
    assert names[0..] == names;
  }

  lemma NextRecord(cd: seq<Byte>, directory_offset: nat, names: seq<(Name, nat)>, i: nat, ptr: nat)
    requires AtRecord(cd, directory_offset, names, i, ptr) && i < |names|
    ensures ptr + CDR_SIZE <= |cd| && ptr + CDR_SIZE + U16(cd, ptr + 28) <= |cd|
    ensures names[i] == (NameOf(cd, ptr), ptr + CDR_SIZE)
    ensures AtRecord(cd, directory_offset, names, i + 1, ptr + RecordLength(cd, ptr))
  {
    hide RecordError, RecordLength, U16;
    assert RecordError(cd, directory_offset, ptr).None?;
    RecordFits(cd, directory_offset, ptr);
    assert names[i] == names[i..][0] && names[i + 1..] == names[i..][1..];
  }

  lemma DirectoryPacks(cd: seq<Byte>, max_name: nat, small: bool)
    requires small == (|cd| <= OFFSET20_MAX && max_name <= LENGTH12_MAX) && |cd| <= UINT32_MAX
    ensures CdEntryMap.Fits(small, |cd|, 0)
  {
  }

  /** The packing that is chosen has room for every name. */
  lemma NamePacks(cd: seq<Byte>, names: seq<(Name, nat)>, max_name: nat, small: bool, i: nat)
    requires small == (|cd| <= OFFSET20_MAX && max_name <= LENGTH12_MAX) && |cd| <= UINT32_MAX
    requires AllListed(cd, names, max_name) && i < |names|
    ensures Listed(cd, names[i], max_name) && CdEntryMap.Fits(small, |cd|, |names[i].0|)
  {
  }

  lemma ToMapNext(names: seq<(Name, nat)>, i: nat)
    requires i < |names| && NoDuplicates(names[..i])
    ensures ToMap(names[..i + 1]) == ToMap(names[..i])[names[i].0 := names[i].1]
    ensures names[i].0 !in ToMap(names[..i]) ==> NoDuplicates(names[..i + 1])
  {
    var next, init := names[..i + 1], names[..i];
    assert next[..|next| - 1] == init;
    ToMapOnly(init, names[i].0);
    if names[i].0 !in ToMap(init) {
      forall a, b | 0 <= a < b < |next|
        ensures next[a].0 != next[b].0
      {
        assert init[a] == next[a] && (b < i ==> init[b] == next[b]);
      }
    }
  }

  lemma Duplicated(names: seq<(Name, nat)>, i: nat)
    requires i < |names| && NoDuplicates(names[..i]) && names[i].0 in ToMap(names[..i])
    ensures !NoDuplicates(names)
  {
    ToMapOnly(names[..i], names[i].0);
    var k :| 0 <= k < i && names[..i][k].0 == names[i].0;
    assert names[k].0 == names[i].0;
  }

  // ----- finding an entry

  datatype ZipEntry = ZipEntry(method_: nat, mod_time: nat, crc32: nat, compressed_length: nat,
                               uncompressed_length: nat,
                               has_data_descriptor: bool, offset: nat)

  /** The entry whose name is at an offset of the directory, checked against its local header. */
  function Locate(file: seq<Byte>, cd: seq<Byte>, cd_offset: nat, name: Name, name_offset: nat): Result<ZipEntry>
    requires cd_offset <= |file|
  {
    if name_offset < CDR_SIZE || name_offset > |cd| then Failure(InvalidOffset)
    else
      var ptr := name_offset - CDR_SIZE;
      var crc32, compressed, uncompressed := U32(cd, ptr + 16), U32(cd, ptr + 20), U32(cd, ptr + 24);
      var start := U32(cd, ptr + 42);
      if uncompressed == UINT32_MAX || compressed == UINT32_MAX || start == UINT32_MAX then Failure(Zip64)
      else if start + LFH_SIZE >= cd_offset then Failure(InvalidOffset)
      else if U32(file, start) != LFH_SIGNATURE then Failure(InvalidOffset)
      else if U16(file, start + 26) != |name| then Failure(InconsistentInformation)
      else if start + LFH_SIZE + |name| > cd_offset then Failure(InvalidOffset)
      else if file[start + LFH_SIZE..start + LFH_SIZE + |name|] != name then Failure(InconsistentInformation)
      else if U32(file, start + 18) == UINT32_MAX || U32(file, start + 22) == UINT32_MAX then Failure(Zip64)
      else
        var has_data_descriptor := Bitwise(And, U16(file, start + 6), DD_FLAG) != 0;
        if !has_data_descriptor &&
           (compressed != U32(file, start + 18) || uncompressed != U32(file, start + 22)
            || crc32 != U32(file, start + 14))
        then Failure(InconsistentInformation)
        else
          var offset := start + LFH_SIZE + U16(file, start + 26) + U16(file, start + 28);
          if offset > cd_offset || compressed > cd_offset - offset then Failure(InvalidOffset)
          else if U16(cd, ptr + 10) == 0 && uncompressed > cd_offset - offset then Failure(InvalidOffset)
          else Success(ZipEntry(U16(cd, ptr + 10), U16(cd, ptr + 14) * 0x10000 + U16(cd, ptr + 12), crc32, compressed,
                                uncompressed, has_data_descriptor, offset))
  }

  /** What an archive that was opened says of a name. */
  ghost function Lookup(file: seq<Byte>, name: Name): Result<ZipEntry>
    requires OpenError(file).None?
  {
    var info := DirectoryInfo(file).value;
    var cd := Slice(file, info);
    var entries := ToMap(Names(cd, info.cd_start_offset, info.num_records, 0));
    if name == [] || |name| > UINT16_MAX then Failure(InvalidEntryName)
    else if name !in entries then Failure(EntryNotFound)
    else Locate(file, cd, info.cd_start_offset, name, entries[name])
  }

  /** The size of a descriptor with its signature and sizes of eight bytes, which large entries have. */
  const DESCRIPTOR_MAX: nat := 24

  /** What is wrong with the descriptor after the data of an entry, if anything. */
  function DescriptorError(file: seq<Byte>, entry: ZipEntry): Option<ZipError> {
    var offset := entry.offset + if entry.method_ != 0 then entry.compressed_length else entry.uncompressed_length;
    if offset + DESCRIPTOR_MAX > |file| then Some(IoError)
    else
      var p := if U32(file, offset) == DD_SIGNATURE then offset + 4 else offset;
      var size := if entry.compressed_length >= UINT32_MAX || entry.uncompressed_length >= UINT32_MAX then 8 else 4;
      if || entry.compressed_length != ValueOf(file[p + 4..p + 4 + size])
         || entry.uncompressed_length != ValueOf(file[p + 4 + size..p + 4 + 2 * size])
         || entry.crc32 != U32(file, p)
      then Some(InconsistentInformation)
      else None
  }

  class ZipArchive {
    const file: seq<Byte>
    const hash: Name -> nat
    var directory_offset: nat
    var central_directory: seq<Byte>
    var cd_entry_map: CdEntryMapZip32?

    constructor (file: seq<Byte>, hash: Name -> nat)
      ensures this.file == file && this.hash == hash && cd_entry_map == null
    {
      this.file, this.hash, directory_offset, central_directory, cd_entry_map := file, hash, 0, [], null;
    }

    ghost predicate Opened()
      reads this, cd_entry_map, if cd_entry_map != null then {cd_entry_map.hash_table} else {}
    {
      && OpenError(file).None? && cd_entry_map != null
      && var info := DirectoryInfo(file).value;
         && directory_offset == info.cd_start_offset <= |file| && central_directory == Slice(file, info)
         && cd_entry_map.Valid(central_directory)
         && cd_entry_map.entries == ToMap(Names(central_directory, directory_offset, info.num_records, 0))
    }

    method Open() returns (error: Option<ZipError>)
      modifies this
      ensures error == OpenError(file) && (error.None? ==> Opened())
    {
      hide Verify, Names, NoDuplicates, DirectoryInfo, LongestName, ToMap, CdEntryMapZip32.Valid, U32;
      var info := MapCentralDirectory(file);
      if info.Failure? { return Some(info.error); }
      InfoFits(file);
      directory_offset := info.value.cd_start_offset;
      central_directory := Slice(file, info.value);
      var max_name;
      error, max_name := VerifyDirectory(central_directory, directory_offset, info.value.num_records);
      if error.Some? { return; }
      var ok;
      cd_entry_map, ok := FillMap(central_directory, directory_offset, info.value.num_records, max_name, hash);
      if !ok { return Some(DuplicateEntry); }
      if U32(file, 0) != LFH_SIGNATURE { return Some(InvalidFile); }
      return None;
    }

    method FindEntry(name: Name) returns (entry: Result<ZipEntry>)
      requires Opened()
      ensures entry == Lookup(file, name)
    {
      hide CdEntryMapZip32.Valid, Locate, ToMap, Names, Verify, DirectoryInfo;
      if name == [] || |name| > UINT16_MAX { return Failure(InvalidEntryName); }
      var offset := cd_entry_map.GetCdEntryOffset(name, central_directory);
      if offset.None? { return Failure(EntryNotFound); }
      entry := Locate(file, central_directory, directory_offset, name, offset.value);
    }
  }

  /** The numbers of the end record are within bounds. */
  lemma InfoFits(file: seq<Byte>)
    requires DirectoryInfo(file).Success?
    ensures var info := DirectoryInfo(file).value;
            && |file| >= EOCD_SIZE && info.num_records <= UINT16_MAX && info.cd_size <= UINT32_MAX
            && info.cd_start_offset + info.cd_size <= |file|
  {
    hide U16, U32;
    ScanRange(file, |file| - EOCD_SIZE, SearchStart(|file|));
    var eocd := Scan(file, |file| - EOCD_SIZE, SearchStart(|file|)).value;
    Small(file, eocd + 10, eocd + 12);
  }

  lemma Small(file: seq<Byte>, a: nat, b: nat)
    requires a + 2 <= |file| && b + 4 <= |file|
    ensures U16(file, a) <= UINT16_MAX && U32(file, b) <= UINT32_MAX
  {
    ValueFits(file[a..a + 2]);
    ValueFits(file[b..b + 4]);
    Pow2Known();
  }
}
