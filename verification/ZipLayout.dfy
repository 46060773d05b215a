/**
 Archives as the ZIP application note lays them out, by whatever program: entries
 with extra fields and comments, a directory, and an end record with a comment.
 The reader opens these if their names are valid and distinct.
 */
module ZipLayout {
  import opened A = ZipArchive
  import opened Bits
  import opened CdEntryMap
  import opened EntryNames
  import opened OrderedKeys
  import opened WordSizes
  import opened Z = ZipFormat

  /** The fields of a directory record that nothing depends on. */
  datatype Rest = Rest(made_by: nat, version: nat, flags: nat, disk: nat, internal: nat, external: nat)

  /** What the directory says of an entry. */
  datatype Member = Member(name: Name, method_: nat, time: nat, date: nat, crc: nat, compressed: nat, uncompressed: nat,
                           offset: nat, extra: seq<Byte>, comment: seq<Byte>, rest: Rest)

  /** What stands before the directory: the local header, its extra field, and the data. */
  datatype Local = Local(version: nat, flags: nat, method_: nat, time: nat, date: nat, crc: nat, compressed: nat,
                         uncompressed: nat, extra: seq<Byte>, data: seq<Byte>)

  /** The end record: its disk numbers, and the comment of the archive. */
  datatype Ending = Ending(disk: nat, directory_disk: nat, on_disk: nat, comment: seq<Byte>)

  /** The directory with where it starts, what follows its records and what follows it, and the end record. */
  datatype Layout = Layout(members: seq<Member>, start: nat, slack: seq<Byte>, gap: seq<Byte>, ending: Ending)

  // ----- the records, as sections 4.3.7, 4.3.12 and 4.3.16 of the application note lay them out

  function HeaderFields(name: Name, l: Local): Fields {
    Four(0x04034b50, Two(l.version, Two(l.flags, Two(l.method_, Two(l.time, Two(l.date, Four(l.crc, Four(l.compressed,
    Four(l.uncompressed, Two(|name|, Two(|l.extra|, End)))))))))))
  }

  function LocalBytes(name: Name, l: Local): seq<Byte> {
    Encode(HeaderFields(name, l)) + (name + (l.extra + l.data))
  }

  function RecordFields(m: Member): Fields {
    var r := m.rest;
    Four(0x02014b50, Two(r.made_by, Two(r.version, Two(r.flags, Two(m.method_, Two(m.time, Two(m.date, Four(m.crc,
    Four(m.compressed, Four(m.uncompressed, Two(|m.name|, Two(|m.extra|, Two(|m.comment|, Two(r.disk, Two(r.internal,
    Four(r.external, Four(m.offset, End)))))))))))))))))
  }

  function Record(m: Member): seq<Byte> {
    Encode(RecordFields(m)) + (m.name + (m.extra + m.comment))
  }

  function DirectoryOf(members: seq<Member>): seq<Byte> {
    if members == [] then [] else DirectoryOf(members[..|members| - 1]) + Record(members[|members| - 1])
  }

  function EndingFields(count: nat, size: nat, start: nat, e: Ending): Fields {
    Four(0x06054b50, Two(e.disk, Two(e.directory_disk, Two(e.on_disk, Two(count, Four(size, Four(start,
    Two(|e.comment|, End))))))))
  }

  function EndingBytes(count: nat, size: nat, start: nat, e: Ending): seq<Byte> {
    Encode(EndingFields(count, size, start, e)) + e.comment
  }

  // ----- archives

  /** The numbers of a record fit their fields, and the entry starts before the directory. */
  predicate MemberFits(m: Member, start: nat) {
    && |m.name| <= UINT16_MAX && |m.extra| <= UINT16_MAX && |m.comment| <= UINT16_MAX
    && m.method_ <= UINT16_MAX && m.time <= UINT16_MAX && m.date <= UINT16_MAX && m.crc <= UINT32_MAX
    && m.compressed <= UINT32_MAX && m.uncompressed <= UINT32_MAX && m.offset < start
    && m.rest.made_by <= UINT16_MAX && m.rest.version <= UINT16_MAX && m.rest.flags <= UINT16_MAX
    && m.rest.disk <= UINT16_MAX && m.rest.internal <= UINT16_MAX && m.rest.external <= UINT32_MAX
  }

  predicate EndingFits(e: Ending) {
    e.disk <= UINT16_MAX && e.directory_disk <= UINT16_MAX && e.on_disk <= UINT16_MAX && |e.comment| <= UINT16_MAX
  }

  function DirectoryBytes(a: Layout): seq<Byte> {
    DirectoryOf(a.members) + a.slack
  }

  /** Where the end record starts. */
  function EndAt(a: Layout): nat {
    a.start + |DirectoryBytes(a)| + |a.gap|
  }

  /** From the directory on, the file is as the layout says; no end record could start after the last. */
  ghost predicate Laid(file: seq<Byte>, a: Layout) {
    && 1 <= |a.members| <= UINT16_MAX && a.start < UINT32_MAX && |DirectoryBytes(a)| < UINT32_MAX
    && |file| <= MAX_FILE_LENGTH && EndingFits(a.ending)
    && At(file, a.start,
          DirectoryBytes(a) + (a.gap + EndingBytes(|a.members|, |DirectoryBytes(a)|, a.start, a.ending)))
    && |file| == EndAt(a) + EOCD_SIZE + |a.ending.comment|
    && (forall k :: EndAt(a) < k <= |file| - EOCD_SIZE ==> U32(file, k) != EOCD_SIGNATURE)
    && forall i :: 0 <= i < |a.members| ==> MemberFits(a.members[i], a.start)
  }

  /** Where the data of an entry starts. */
  function DataAt(m: Member, l: Local): nat {
    m.offset + LFH_SIZE + |m.name| + |l.extra|
  }

  /** The numbers of a local header fit their fields. */
  predicate HeaderFits(l: Local) {
    && l.version <= UINT16_MAX && l.flags <= UINT16_MAX && l.method_ <= UINT16_MAX && l.time <= UINT16_MAX
    && l.date <= UINT16_MAX && l.crc <= UINT32_MAX && l.compressed <= UINT32_MAX && l.uncompressed <= UINT32_MAX
    && |l.extra| <= UINT16_MAX
  }

  /** No size asks for the 64-bit format, and the data has the size that the directory says. */
  predicate SizesFit(m: Member, l: Local) {
    && m.compressed < UINT32_MAX && m.uncompressed < UINT32_MAX && l.compressed < UINT32_MAX
    && l.uncompressed < UINT32_MAX && |l.data| == m.compressed
  }

  predicate LocalFits(m: Member, l: Local, start: nat) {
    HeaderFits(l) && SizesFit(m, l) && (m.method_ == 0 ==> DataAt(m, l) + m.uncompressed <= start)
  }

  /** The entry stands where its record says, before the directory. */
  ghost predicate Placed(file: seq<Byte>, m: Member, l: Local, start: nat) {
    && LocalFits(m, l, start) && At(file, m.offset, LocalBytes(m.name, l))
    && m.offset + |LocalBytes(m.name, l)| <= start
  }

  // ----- reading the records

  lemma ReadsHeader(file: seq<Byte>, o: nat, name: Name, l: Local)
    requires At(file, o, Encode(HeaderFields(name, l))) && HeaderFits(l) && |name| <= UINT16_MAX
    ensures o + LFH_SIZE <= |file| && U32(file, o) == LFH_SIGNATURE && U16(file, o + 6) == l.flags
    ensures U32(file, o + 14) == l.crc && U32(file, o + 18) == l.compressed
    ensures U32(file, o + 22) == l.uncompressed
    ensures U16(file, o + 26) == |name| && U16(file, o + 28) == |l.extra|
  {
    hide Encode, U16, U32, At;
    var r10 := Two(|l.extra|, End);
    var r9 := Two(|name|, r10);
    var r8 := Four(l.uncompressed, r9);
    var r7 := Four(l.compressed, r8);
    var r6 := Four(l.crc, r7);
    var r5 := Two(l.date, r6);
    var r4 := Two(l.time, r5);
    var r3 := Two(l.method_, r4);
    var r2 := Two(l.flags, r3);
    var r1 := Two(l.version, r2);
    Take32(file, o, 0x04034b50, r1);
    Take16(file, o + 4, l.version, r2);
    Take16(file, o + 6, l.flags, r3);
    Take16(file, o + 8, l.method_, r4);
    Take16(file, o + 10, l.time, r5);
    Take16(file, o + 12, l.date, r6);
    Take32(file, o + 14, l.crc, r7);
    Take32(file, o + 18, l.compressed, r8);
    Take32(file, o + 22, l.uncompressed, r9);
    Take16(file, o + 26, |name|, r10);
    Take16(file, o + 28, |l.extra|, End);
  }

  lemma ReadsRecord(cd: seq<Byte>, o: nat, m: Member, start: nat)
    requires At(cd, o, Encode(RecordFields(m))) && MemberFits(m, start) && m.offset <= UINT32_MAX
    ensures o + CDR_SIZE <= |cd| && U32(cd, o) == CDR_SIGNATURE && U16(cd, o + 10) == m.method_
    ensures U16(cd, o + 12) == m.time && U16(cd, o + 14) == m.date && U32(cd, o + 16) == m.crc
    ensures U32(cd, o + 20) == m.compressed && U32(cd, o + 24) == m.uncompressed
    ensures U16(cd, o + 28) == |m.name| && U16(cd, o + 30) == |m.extra| && U16(cd, o + 32) == |m.comment|
    ensures U32(cd, o + 42) == m.offset
  {
    hide Encode, U16, U32, At;
    var r := m.rest;
    var r16 := Four(m.offset, End);
    var r15 := Four(r.external, r16);
    var r14 := Two(r.internal, r15);
    var r13 := Two(r.disk, r14);
    var r12 := Two(|m.comment|, r13);
    var r11 := Two(|m.extra|, r12);
    var r10 := Two(|m.name|, r11);
    var r9 := Four(m.uncompressed, r10);
    var r8 := Four(m.compressed, r9);
    var r7 := Four(m.crc, r8);
    var r6 := Two(m.date, r7);
    var r5 := Two(m.time, r6);
    var r4 := Two(m.method_, r5);
    var r3 := Two(r.flags, r4);
    var r2 := Two(r.version, r3);
    var r1 := Two(r.made_by, r2);
    Take32(cd, o, 0x02014b50, r1);
    Take16(cd, o + 4, r.made_by, r2);
    Take16(cd, o + 6, r.version, r3);
    Take16(cd, o + 8, r.flags, r4);
    Take16(cd, o + 10, m.method_, r5);
    Take16(cd, o + 12, m.time, r6);
    Take16(cd, o + 14, m.date, r7);
    Take32(cd, o + 16, m.crc, r8);
    Take32(cd, o + 20, m.compressed, r9);
    Take32(cd, o + 24, m.uncompressed, r10);
    Take16(cd, o + 28, |m.name|, r11);
    Take16(cd, o + 30, |m.extra|, r12);
    Take16(cd, o + 32, |m.comment|, r13);
    Take16(cd, o + 34, r.disk, r14);
    Take16(cd, o + 36, r.internal, r15);
    Take32(cd, o + 38, r.external, r16);
    Take32(cd, o + 42, m.offset, End);
  }

  lemma ReadsEnding(file: seq<Byte>, o: nat, count: nat, size: nat, start: nat, e: Ending)
    requires At(file, o, Encode(EndingFields(count, size, start, e))) && count <= UINT16_MAX && size <= UINT32_MAX
    requires start <= UINT32_MAX && EndingFits(e)
    ensures o + EOCD_SIZE <= |file| && U32(file, o) == EOCD_SIGNATURE && U16(file, o + 10) == count
    ensures U32(file, o + 12) == size && U32(file, o + 16) == start && U16(file, o + 20) == |e.comment|
  {
    hide Encode, U16, U32, At;
    var r7 := Two(|e.comment|, End);
    var r6 := Four(start, r7);
    var r5 := Four(size, r6);
    var r4 := Two(count, r5);
    var r3 := Two(e.on_disk, r4);
    var r2 := Two(e.directory_disk, r3);
    var r1 := Two(e.disk, r2);
    Take32(file, o, 0x06054b50, r1);
    Take16(file, o + 4, e.disk, r2);
    Take16(file, o + 6, e.directory_disk, r3);
    Take16(file, o + 8, e.on_disk, r4);
    Take16(file, o + 10, count, r5);
    Take32(file, o + 12, size, r6);
    Take32(file, o + 16, start, r7);
    Take16(file, o + 20, |e.comment|, End);
  }

  // ----- the sizes of the records

  lemma HeaderSize(name: Name, l: Local)
    ensures |Encode(HeaderFields(name, l))| == LFH_SIZE
  {
    hide Encode;
    EncodeSize(HeaderFields(name, l));
    var r6 := Four(l.crc, Four(l.compressed, Four(l.uncompressed, Two(|name|, Two(|l.extra|, End)))));
    assert Size(Two(|l.extra|, End)) == 2;
    assert Size(Two(|name|, Two(|l.extra|, End))) == 4;
    assert Size(Four(l.uncompressed, Two(|name|, Two(|l.extra|, End)))) == 8;
    assert Size(r6) == 16;
    var r3 := Two(l.method_, Two(l.time, Two(l.date, r6)));
    assert Size(Two(l.date, r6)) == 18;
    assert Size(r3) == 22;
    assert Size(Two(l.version, Two(l.flags, r3))) == 26;
  }

  lemma RecordSize(m: Member)
    ensures |Encode(RecordFields(m))| == CDR_SIZE
  {
    hide Encode;
    EncodeSize(RecordFields(m));
    var r := m.rest;
    var r13 := Two(r.disk, Two(r.internal, Four(r.external, Four(m.offset, End))));
    assert Size(Four(m.offset, End)) == 4;
    assert Size(Four(r.external, Four(m.offset, End))) == 8;
    assert Size(r13) == 12;
    var r10 := Two(|m.name|, Two(|m.extra|, Two(|m.comment|, r13)));
    assert Size(Two(|m.comment|, r13)) == 14;
    assert Size(r10) == 18;
    var r7 := Four(m.crc, Four(m.compressed, Four(m.uncompressed, r10)));
    assert Size(Four(m.uncompressed, r10)) == 22;
    assert Size(r7) == 30;
    var r4 := Two(m.method_, Two(m.time, Two(m.date, r7)));
    assert Size(Two(m.date, r7)) == 32;
    assert Size(r4) == 36;
    var r2 := Two(r.version, Two(r.flags, r4));
    assert Size(r2) == 40;
    assert Size(Two(r.made_by, r2)) == 42;
  }

  lemma EndingSize(count: nat, size: nat, start: nat, e: Ending)
    ensures |Encode(EndingFields(count, size, start, e))| == EOCD_SIZE
  {
    hide Encode;
    EncodeSize(EndingFields(count, size, start, e));
    var r5 := Four(size, Four(start, Two(|e.comment|, End)));
    assert Size(Two(|e.comment|, End)) == 2;
    assert Size(Four(start, Two(|e.comment|, End))) == 6;
    assert Size(r5) == 10;
    var r3 := Two(e.on_disk, Two(count, r5));
    assert Size(r3) == 14;
    assert Size(Two(e.disk, Two(e.directory_disk, r3))) == 18;
  }

  // ----- the end record

  /** The parts of the file from the directory on. */
  lemma SectionsAre(file: seq<Byte>, a: Layout)
    requires Laid(file, a)
    ensures At(file, a.start, DirectoryBytes(a)) && a.start + |DirectoryBytes(a)| <= |file|
    ensures At(file, EndAt(a), Encode(EndingFields(|a.members|, |DirectoryBytes(a)|, a.start, a.ending)))
  {
    hide Encode, DirectoryBytes, MemberFits, U32;
    var cd, ending := DirectoryBytes(a), Encode(EndingFields(|a.members|, |DirectoryBytes(a)|, a.start, a.ending));
    AtParts(file, a.start, cd, a.gap + (ending + a.ending.comment));
    AtParts(file, a.start + |cd|, a.gap, ending + a.ending.comment);
    AtParts(file, EndAt(a), ending, a.ending.comment);
  }

  /** The end record is found, and leads to the directory. */
  lemma InfoIs(file: seq<Byte>, a: Layout)
    requires Laid(file, a)
    ensures DirectoryInfo(file) == Success(CdInfo(|a.members|, |DirectoryBytes(a)|, a.start))
    ensures Slice(file, CdInfo(|a.members|, |DirectoryBytes(a)|, a.start)) == DirectoryBytes(a)
    ensures EOCD_SIZE <= |file| && a.start <= |file|
  {
    hide Encode, U16, U32, DirectoryBytes, MemberFits;
    SectionsAre(file, a);
    ReadsEnding(file, EndAt(a), |a.members|, |DirectoryBytes(a)|, a.start, a.ending);
    AtIs(file, a.start, DirectoryBytes(a));
    LastIsFound(file, EndAt(a));
  }

  lemma LastIsFound(file: seq<Byte>, eocd: nat)
    requires SearchStart(|file|) <= eocd && eocd + EOCD_SIZE <= |file| && U32(file, eocd) == EOCD_SIGNATURE
    requires forall k :: eocd < k <= |file| - EOCD_SIZE ==> U32(file, k) != EOCD_SIGNATURE
    ensures Scan(file, |file| - EOCD_SIZE, SearchStart(|file|)) == Some(eocd)
  {
    hide Scan, U32;
    ScanRange(file, |file| - EOCD_SIZE, SearchStart(|file|));
  }

  /** What is wrong with the numbers of the last end record. */
  lemma EndingRefused(file: seq<Byte>, eocd: nat, count: nat, size: nat, start: nat, e: Ending)
    requires At(file, eocd, EndingBytes(count, size, start, e)) && |file| <= MAX_FILE_LENGTH && EndingFits(e)
    requires count <= UINT16_MAX && size <= UINT32_MAX && start <= UINT32_MAX
    requires |file| <= eocd + EOCD_SIZE + UINT16_MAX
    requires forall k :: eocd < k <= |file| - EOCD_SIZE ==> U32(file, k) != EOCD_SIGNATURE
    ensures DirectoryInfo(file) ==
            if eocd + EOCD_SIZE + |e.comment| != |file| then Failure(InvalidFile)
            else if size == UINT32_MAX || start == UINT32_MAX then Failure(Zip64)
            else if start + size > eocd then Failure(InvalidOffset)
            else if count == 0 then Failure(EmptyArchive)
            else Success(CdInfo(count, size, start))
  {
    hide Encode, U16, U32;
    AtParts(file, eocd, Encode(EndingFields(count, size, start, e)), e.comment);
    ReadsEnding(file, eocd, count, size, start, e);
    LastIsFound(file, eocd);
  }

  /** A file without an end record is refused. */
  lemma WithoutEnding(file: seq<Byte>)
    requires forall k :: 0 <= k <= |file| - EOCD_SIZE ==> U32(file, k) != EOCD_SIGNATURE
    ensures DirectoryInfo(file) == Failure(InvalidFile)
  {
    hide U32, Scan;
    if |file| >= EOCD_SIZE { ScanRange(file, |file| - EOCD_SIZE, SearchStart(|file|)); }
  }

  // ----- the directory

  /** Where the record of a member starts. */
  function RecordAt(members: seq<Member>, i: nat): nat
    requires i <= |members|
  {
    |DirectoryOf(members[..i])|
  }

  lemma {:induction false} RecordIsAt(members: seq<Member>, i: nat)
    requires i < |members|
    ensures At(DirectoryOf(members), RecordAt(members, i), Record(members[i]))
    ensures RecordAt(members, i + 1) == RecordAt(members, i) + |Record(members[i])| <= |DirectoryOf(members)|
  {
    hide Record;
    var n := |members| - 1;
    var init, last := members[..n], Record(members[n]);
    assert members[..i + 1][..i] == members[..i] && members[..i + 1][i] == members[i];
    Z.AtEnd(DirectoryOf(init), last);
    if i < n {
      RecordIsAt(init, i);
      assert init[..i] == members[..i] && init[..i + 1] == members[..i + 1];
      AtGrows(DirectoryOf(init), last, RecordAt(members, i), Record(members[i]));
    } else {
      assert members[..i + 1] == members;
    }
  }

  /** The record is accepted exactly if its name is valid, and the walk goes on after all that belongs to it. */
  lemma RecordIsRead(a: Layout, i: nat)
    requires i < |a.members| && MemberFits(a.members[i], a.start) && a.start < UINT32_MAX
    ensures var cd, ptr, m := DirectoryBytes(a), RecordAt(a.members, i), a.members[i];
            && RecordError(cd, a.start, ptr) == (if ValidName(m.name) then None else Some(InvalidEntryName))
            && ptr + CDR_SIZE + |m.name| <= |cd| && U16(cd, ptr + 28) == |m.name| && NameOf(cd, ptr) == m.name
            && ptr + RecordLength(cd, ptr) == RecordAt(a.members, i + 1)
            && At(cd, ptr, Encode(RecordFields(m)))
  {
    hide Encode, U16, U32, DirectoryOf, ValidName, RecordFields;
    var cd, ptr, m := DirectoryBytes(a), RecordAt(a.members, i), a.members[i];
    RecordIsAt(a.members, i);
    AtGrows(DirectoryOf(a.members), a.slack, ptr, Record(m));
    RecordSize(m);
    AtParts(cd, ptr, Encode(RecordFields(m)), m.name + (m.extra + m.comment));
    AtParts(cd, ptr + CDR_SIZE, m.name, m.extra + m.comment);
    ReadsRecord(cd, ptr, m, a.start);
    AtIs(cd, ptr + CDR_SIZE, m.name);
  }

  /** Where a directory that ends too early is cut off, and what is wrong with its last record, decides the error. */
  lemma CutOff(before: seq<Byte>, m: Member, start: nat, k: nat)
    requires MemberFits(m, m.offset + 1) && m.offset <= UINT32_MAX && k <= |Record(m)|
    ensures RecordError(before + Record(m)[..k], start, |before|) ==
            if k < 46 then Some(InvalidFile)
            else if k < 46 + |m.name| then Some(InvalidEntryName)
            else if k < 46 + |m.name| + |m.extra| then Some(InvalidFile)
            else if m.offset == UINT32_MAX then Some(Zip64)
            else if m.offset >= start then Some(InvalidFile)
            else if !ValidName(m.name) then Some(InvalidEntryName)
            else if k < |Record(m)| then Some(InvalidFile)
            else None
  {
    hide Encode, U16, U32, ValidName, RecordFields;
    var cd, ptr := before + Record(m)[..k], |before|;
    RecordSize(m);
    if k >= 46 {
      var fields, body := Encode(RecordFields(m)), m.name + (m.extra + m.comment);
      assert Record(m)[..k] == fields + body[..k - 46];
      AtEnd(before, fields + body[..k - 46]);
      AtParts(cd, ptr, fields, body[..k - 46]);
      ReadsRecord(cd, ptr, m, m.offset + 1);
      if k >= 46 + |m.name| { StartsWithName(cd, ptr + 46, m.name, m.extra + m.comment, k - 46); }
    }
  }

  lemma StartsWithName(cd: seq<Byte>, o: nat, name: Name, rest: seq<Byte>, k: nat)
    requires |name| <= k <= |name + rest| && At(cd, o, (name + rest)[..k])
    ensures At(cd, o, name) && cd[o..o + |name|] == name
  {
    assert (name + rest)[..k] == name + rest[..k - |name|];
    AtParts(cd, o, name, rest[..k - |name|]);
  }

  ghost predicate AllValid(members: seq<Member>) {
    forall i :: 0 <= i < |members| ==> ValidName(members[i].name)
  }

  ghost predicate NamesDiffer(members: seq<Member>) {
    forall i, j :: 0 <= i < j < |members| ==> members[i].name != members[j].name
  }

  /** The names from member `i` on, with where they are in the directory. */
  ghost function NameList(members: seq<Member>, i: nat): seq<(Name, nat)>
    requires i <= |members|
    decreases |members| - i
  {
    if i == |members| then [] else [(members[i].name, RecordAt(members, i) + CDR_SIZE)] + NameList(members, i + 1)
  }

  /** The walk over the next `n` records ends at the first bad name, or meets these names. */
  ghost predicate Meets(cd: seq<Byte>, start: nat, n: nat, ptr: nat, valid: bool, names: seq<(Name, nat)>) {
    && Verify(cd, start, n, ptr) == (if valid then None else Some(InvalidEntryName))
    && (valid ==> Names(cd, start, n, ptr) == names)
  }

  /** The walk over the directory meets exactly the names that are there, up to the first that is not valid. */
  lemma {:induction false} WalkMeets(a: Layout, i: nat)
    requires i <= |a.members| && a.start < UINT32_MAX
    requires forall k :: 0 <= k < |a.members| ==> MemberFits(a.members[k], a.start)
    ensures Meets(DirectoryBytes(a), a.start, |a.members| - i, RecordAt(a.members, i), AllValid(a.members[i..]),
                  NameList(a.members, i))
    decreases |a.members| - i
  {
    hide DirectoryBytes, RecordError, RecordLength, NameOf, ValidName, MemberFits, RecordAt, U16, At, Encode;
    if i < |a.members| {
      RecordIsRead(a, i);
      WalkMeets(a, i + 1);
      ValidRest(a.members, i);
    }
  }

  lemma ValidRest(members: seq<Member>, i: nat)
    requires i < |members|
    ensures AllValid(members[i..]) <==> ValidName(members[i].name) && AllValid(members[i + 1..])
  {
    hide ValidName;
    var a, b := members[i..], members[i + 1..];
    assert a[0] == members[i] && forall k :: 0 <= k < |b| ==> b[k] == a[k + 1];
    if ValidName(members[i].name) && AllValid(b) {
      forall k | 0 <= k < |a|
        ensures ValidName(a[k].name)
      {
        if k > 0 { assert ValidName(b[k - 1].name); }
      }
    }
    if AllValid(a) {
      assert ValidName(a[0].name);
      forall k | 0 <= k < |b|
        ensures ValidName(b[k].name)
      {
        assert ValidName(a[k + 1].name);
      }
    }
  }

  lemma {:induction false} NameListSize(members: seq<Member>, i: nat)
    requires i <= |members|
    ensures |NameList(members, i)| == |members| - i
    decreases |members| - i
  {
    hide RecordAt;
    if i < |members| { NameListSize(members, i + 1); }
  }

  lemma {:induction false} NameListAt(members: seq<Member>, i: nat, k: nat)
    requires i <= k < |members|
    ensures |NameList(members, i)| == |members| - i
    ensures NameList(members, i)[k - i] == (members[k].name, RecordAt(members, k) + CDR_SIZE)
    decreases |members| - i
  {
    hide RecordAt;
    NameListSize(members, i);
    if i < k { NameListAt(members, i + 1, k); }
  }

  lemma DistinctNames(members: seq<Member>)
    ensures NoDuplicates(NameList(members, 0)) <==> NamesDiffer(members)
  {
    hide NameList, RecordAt;
    NameListSize(members, 0);
    var names := NameList(members, 0);
    forall k | 0 <= k < |members|
      ensures names[k].0 == members[k].name
    {
      NameListAt(members, 0, k);
    }
    if NamesDiffer(members) {
      assert NoDuplicates(names);
    } else {
      var i, j :| 0 <= i < j < |members| && members[i].name == members[j].name;
      assert names[i].0 == names[j].0;
    }
  }

  /** An archive is opened if and only if its names are valid and distinct, and it starts with an entry. */
  lemma OpensIf(file: seq<Byte>, a: Layout)
    requires Laid(file, a)
    ensures |file| >= 4
    ensures OpenError(file) ==
            if !AllValid(a.members) then Some(InvalidEntryName)
            else if !NamesDiffer(a.members) then Some(DuplicateEntry)
            else if file[..4] != [0x50, 0x4b, 3, 4] then Some(InvalidFile)
            else None
  {
    hide DirectoryBytes, NameList, Verify, Names, DirectoryInfo, NoDuplicates, U32, ValidName, MemberFits, NamesDiffer,
         AllValid;
    InfoIs(file, a);
    assert a.members[0..] == a.members && RecordAt(a.members, 0) == 0 by { Begins(a.members); }
    WalkMeets(a, 0);
    DistinctNames(a.members);
    SignatureIs(file);
  }

  /** The signature of a local header, as bytes. */
  lemma SignatureIs(file: seq<Byte>)
    requires |file| >= 4
    ensures U32(file, 0) == 0x04034b50 <==> file[..4] == [0x50, 0x4b, 3, 4]
  {
    hide ValueOf;
    var b := file[0..4];
    var b0: int, b1: int, b2: int, b3: int := b[0], b[1], b[2], b[3];
    assert b == file[..4] && b[1..][1..] == b[2..] && b[2..][1..] == b[3..];
    assert U32(file, 0) == b0 + 256 * (b1 + 256 * (b2 + 256 * b3)) by {
      ValueUnfolds(b);
      ValueUnfolds(b[1..]);
      ValueUnfolds(b[2..]);
      ValueUnfolds(b[3..]);
      assert b[3..][1..] == [];
      ValueUnfolds([]);
    }
  }

  lemma ValueUnfolds(b: seq<Byte>)
    ensures ValueOf(b) == if b == [] then 0 else b[0] + 256 * ValueOf(b[1..])
  {
  }

  lemma Begins(members: seq<Member>)
    ensures members[0..] == members && RecordAt(members, 0) == 0
  {
    assert members[..0] == [];
  }
}
