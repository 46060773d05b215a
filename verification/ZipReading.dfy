/**
 The reader opens exactly the archives that the application note describes, if
 their names are valid and distinct, and finds exactly what is in them.
 */
module ZipReading {
  import opened A = ZipArchive
  import opened Bits
  import opened CdEntryMap
  import opened EntryNames
  import opened OrderedKeys
  import opened WordSizes
  import opened Z = ZipFormat
  import opened ZipLayout

  // ----- every file that is opened is laid out like this

  /** The member whose record is at an offset of the directory. */
  function RecordOf(cd: seq<Byte>, ptr: nat): Member
    requires ptr + CDR_SIZE <= |cd| && ptr + RecordLength(cd, ptr) <= |cd|
  {
    var name := ptr + CDR_SIZE;
    var extra := name + U16(cd, ptr + 28);
    var comment := extra + U16(cd, ptr + 30);
    Member(cd[name..extra], U16(cd, ptr + 10), U16(cd, ptr + 12), U16(cd, ptr + 14), U32(cd, ptr + 16),
           U32(cd, ptr + 20), U32(cd, ptr + 24), U32(cd, ptr + 42), cd[extra..comment],
           cd[comment..comment + U16(cd, ptr + 32)],
           Rest(U16(cd, ptr + 4), U16(cd, ptr + 6), U16(cd, ptr + 8), U16(cd, ptr + 34), U16(cd, ptr + 36),
                U32(cd, ptr + 38)))
  }

  /** The bytes of a record that has no error are those of its member. */
  lemma RecordDecodes(cd: seq<Byte>, start: nat, ptr: nat)
    requires RecordError(cd, start, ptr).None?
    ensures ptr + CDR_SIZE <= |cd| && ptr + RecordLength(cd, ptr) <= |cd|
    ensures At(cd, ptr, Record(RecordOf(cd, ptr))) && MemberFits(RecordOf(cd, ptr), start)
    ensures |Record(RecordOf(cd, ptr))| == RecordLength(cd, ptr)
  {
    hide Encode, U16, U32, ValidName, Record;
    assert ptr + CDR_SIZE <= |cd| && ptr + RecordLength(cd, ptr) <= |cd| && U32(cd, ptr) == CDR_SIGNATURE;
    assert U32(cd, ptr + 42) < start;
    hide RecordError;
    var m := RecordOf(cd, ptr);
    RecordNumbers(cd, ptr);
    RecordSize(m);
    RecordIs(m);
    AtJoin(cd, ptr + CDR_SIZE + |m.name|, m.extra, m.comment);
    AtJoin(cd, ptr + CDR_SIZE, m.name, m.extra + m.comment);
    AtJoin(cd, ptr, Encode(RecordFields(m)), m.name + (m.extra + m.comment));
  }

  lemma RecordIs(m: Member)
    ensures Record(m) == Encode(RecordFields(m)) + (m.name + (m.extra + m.comment))
  {
  }

  lemma RecordNumbers(cd: seq<Byte>, ptr: nat)
    requires ptr + CDR_SIZE <= |cd| && ptr + RecordLength(cd, ptr) <= |cd| && U32(cd, ptr) == CDR_SIGNATURE
    ensures At(cd, ptr, Encode(RecordFields(RecordOf(cd, ptr))))
    ensures MemberFits(RecordOf(cd, ptr), U32(cd, ptr + 42) + 1)
  {
    hide Encode, U16, U32, At, ValidName;
    var r16 := Four(U32(cd, ptr + 42), End);
    var r15 := Four(U32(cd, ptr + 38), r16);
    var r14 := Two(U16(cd, ptr + 36), r15);
    var r13 := Two(U16(cd, ptr + 34), r14);
    var r12 := Two(U16(cd, ptr + 32), r13);
    var r11 := Two(U16(cd, ptr + 30), r12);
    var r10 := Two(U16(cd, ptr + 28), r11);
    var r9 := Four(U32(cd, ptr + 24), r10);
    var r8 := Four(U32(cd, ptr + 20), r9);
    var r7 := Four(U32(cd, ptr + 16), r8);
    var r6 := Two(U16(cd, ptr + 14), r7);
    var r5 := Two(U16(cd, ptr + 12), r6);
    var r4 := Two(U16(cd, ptr + 10), r5);
    var r3 := Two(U16(cd, ptr + 8), r4);
    var r2 := Two(U16(cd, ptr + 6), r3);
    var r1 := Two(U16(cd, ptr + 4), r2);
    Nothing(cd, ptr + 46);
    Put32(cd, ptr + 42, End);
    Put32(cd, ptr + 38, r16);
    Put16(cd, ptr + 36, r15);
    Put16(cd, ptr + 34, r14);
    Put16(cd, ptr + 32, r13);
    Put16(cd, ptr + 30, r12);
    Put16(cd, ptr + 28, r11);
    Put32(cd, ptr + 24, r10);
    Put32(cd, ptr + 20, r9);
    Put32(cd, ptr + 16, r8);
    Put16(cd, ptr + 14, r7);
    Put16(cd, ptr + 12, r6);
    Put16(cd, ptr + 10, r5);
    Put16(cd, ptr + 8, r4);
    Put16(cd, ptr + 6, r3);
    Put16(cd, ptr + 4, r2);
    Put32(cd, ptr, r1);
  }

  lemma Nothing(file: seq<Byte>, o: nat)
    requires o <= |file|
    ensures At(file, o, Encode(End))
  {
    EncodeEnd();
  }

  /** The members whose records are the next `n`. */
  function Parsed(cd: seq<Byte>, start: nat, n: nat, ptr: nat): seq<Member>
    requires Verify(cd, start, n, ptr).None?
    decreases n
  {
    if n == 0 then []
    else [RecordOf(cd, ptr)] + Parsed(cd, start, n - 1, ptr + RecordLength(cd, ptr))
  }

  lemma {:induction false} DirectoryGrows(first: Member, rest: seq<Member>)
    ensures DirectoryOf([first] + rest) == Record(first) + DirectoryOf(rest)
  {
    hide Record;
    var all := [first] + rest;
    if rest == [] {
      assert all[..0] == [];
    } else {
      var n := |rest| - 1;
      DirectoryGrows(first, rest[..n]);
      assert all[..n + 1] == [first] + rest[..n];
    }
  }

  lemma {:induction false} WalkDecodes(cd: seq<Byte>, start: nat, n: nat, ptr: nat)
    requires Verify(cd, start, n, ptr).None? && ptr <= |cd|
    ensures var members := Parsed(cd, start, n, ptr);
            && |members| == n && At(cd, ptr, DirectoryOf(members))
            && forall i :: 0 <= i < n ==> MemberFits(members[i], start)
    decreases n
  {
    hide RecordError, RecordLength, RecordOf, MemberFits, Record, DirectoryOf, At;
    if n > 0 {
      RecordDecodes(cd, start, ptr);
      var next := ptr + RecordLength(cd, ptr);
      WalkDecodes(cd, start, n - 1, next);
      var rest := Parsed(cd, start, n - 1, next);
      AtJoin(cd, ptr, Record(RecordOf(cd, ptr)), DirectoryOf(rest));
      DirectoryGrows(RecordOf(cd, ptr), rest);
    } else {
      NoMembers(cd, ptr);
    }
  }

  lemma NoMembers(cd: seq<Byte>, ptr: nat)
    requires ptr <= |cd|
    ensures At(cd, ptr, DirectoryOf([]))
  {
  }

  /** The end record of a file. */
  function EndingOf(file: seq<Byte>, eocd: nat): Ending
    requires eocd + EOCD_SIZE <= |file|
  {
    Ending(U16(file, eocd + 4), U16(file, eocd + 6), U16(file, eocd + 8), file[eocd + EOCD_SIZE..])
  }

  lemma EndingDecodes(file: seq<Byte>, eocd: nat)
    requires eocd + EOCD_SIZE <= |file| && U32(file, eocd) == EOCD_SIGNATURE
    requires eocd + EOCD_SIZE + U16(file, eocd + 20) == |file|
    ensures EndingFits(EndingOf(file, eocd))
    ensures At(file, eocd, EndingBytes(U16(file, eocd + 10), U32(file, eocd + 12), U32(file, eocd + 16),
                                       EndingOf(file, eocd)))
  {
    hide Encode, U16, U32, At;
    var r7 := Two(U16(file, eocd + 20), End);
    var r6 := Four(U32(file, eocd + 16), r7);
    var r5 := Four(U32(file, eocd + 12), r6);
    var r4 := Two(U16(file, eocd + 10), r5);
    var r3 := Two(U16(file, eocd + 8), r4);
    var r2 := Two(U16(file, eocd + 6), r3);
    var r1 := Two(U16(file, eocd + 4), r2);
    Nothing(file, eocd + 22);
    Put16(file, eocd + 20, End);
    Put32(file, eocd + 16, r7);
    Put32(file, eocd + 12, r6);
    Put16(file, eocd + 10, r5);
    Put16(file, eocd + 8, r4);
    Put16(file, eocd + 6, r3);
    Put16(file, eocd + 4, r2);
    Put32(file, eocd, r1);
    var e, count, size, start := EndingOf(file, eocd), U16(file, eocd + 10), U32(file, eocd + 12), U32(file, eocd + 16);
    EndingSize(count, size, start, e);
    SliceAt(file, eocd + EOCD_SIZE, |file|);
    AtJoin(file, eocd, Encode(EndingFields(count, size, start, e)), e.comment);
  }

  lemma SliceAt(file: seq<Byte>, i: nat, j: nat)
    requires i <= j <= |file|
    ensures At(file, i, file[i..j])
  {
  }

  /** The end record that is found is the last that there could be. */
  lemma InfoDecodes(file: seq<Byte>) returns (eocd: nat)
    requires DirectoryInfo(file).Success?
    ensures var info := DirectoryInfo(file).value;
            && eocd + EOCD_SIZE <= |file| <= MAX_FILE_LENGTH && U32(file, eocd) == EOCD_SIGNATURE
            && eocd + EOCD_SIZE + U16(file, eocd + 20) == |file|
            && info == CdInfo(U16(file, eocd + 10), U32(file, eocd + 12), U32(file, eocd + 16))
            && info.cd_start_offset + info.cd_size <= eocd && info.num_records > 0
            && info.cd_size != UINT32_MAX && info.cd_start_offset != UINT32_MAX
            && forall k :: eocd < k <= |file| - EOCD_SIZE ==> U32(file, k) != EOCD_SIGNATURE
  {
    hide U16, U32, Scan;
    ScanRange(file, |file| - EOCD_SIZE, SearchStart(|file|));
    eocd := Scan(file, |file| - EOCD_SIZE, SearchStart(|file|)).value;
  }

  /** Every file that is opened is an archive. */
  lemma Decodes(file: seq<Byte>) returns (a: Layout)
    requires OpenError(file).None?
    ensures Laid(file, a)
  {
    hide U16, U32, MemberFits, DirectoryOf, DirectoryInfo, NoDuplicates, Names, Verify, EndingBytes, EndingFits,
         EndingOf, At;
    var info := DirectoryInfo(file).value;
    var start := info.cd_start_offset;
    assert Verify(Slice(file, info), start, info.num_records, 0).None?;
    hide OpenError;
    var eocd := InfoDecodes(file);
    Small(file, eocd + 10, eocd + 12);
    Small(file, eocd + 10, eocd + 16);
    var cd := Slice(file, info);
    WalkDecodes(cd, start, info.num_records, 0);
    var members := Parsed(cd, start, info.num_records, 0);
    var slack := FirstPart(cd, DirectoryOf(members));
    var gap := file[start + info.cd_size..eocd];
    a := Layout(members, start, slack, gap, EndingOf(file, eocd));
    assert DirectoryBytes(a) == cd;
    EndingDecodes(file, eocd);
    SliceAt(file, start, start + info.cd_size);
    SliceAt(file, start + info.cd_size, eocd);
    AtJoin(file, start + info.cd_size, gap, EndingBytes(|members|, |cd|, start, a.ending));
    AtJoin(file, start, cd, gap + EndingBytes(|members|, |cd|, start, a.ending));
    CommentSize(file, eocd);
  }

  lemma FirstPart(whole: seq<Byte>, part: seq<Byte>) returns (rest: seq<Byte>)
    requires At(whole, 0, part)
    ensures whole == part + rest
  {
    rest := whole[|part|..];
  }

  lemma CommentSize(file: seq<Byte>, eocd: nat)
    requires eocd + EOCD_SIZE <= |file|
    ensures |EndingOf(file, eocd).comment| == |file| - eocd - EOCD_SIZE
  {
  }

  // ----- finding entries

  /** The local header says that a descriptor follows the data. */
  predicate HasDescriptor(l: Local) {
    l.flags / 8 % 2 == 1
  }

  /** The local header agrees with the directory, or leaves sizes and checksum to a descriptor. */
  predicate Consistent(m: Member, l: Local) {
    HasDescriptor(l) || (l.crc == m.crc && l.compressed == m.compressed && l.uncompressed == m.uncompressed)
  }

  lemma FlagIs(flags: nat)
    ensures Bitwise(And, flags, DD_FLAG) != 0 <==> flags / 8 % 2 == 1
  {
    hide Bitwise;
    var h1, h2, h3 := flags / 2, flags / 2 / 2, flags / 2 / 2 / 2;
    BitwiseUnfolds(And, flags, 8);
    BitwiseUnfolds(And, h1, 4);
    BitwiseUnfolds(And, h2, 2);
    BitwiseUnfolds(And, h3, 1);
    AndWithZero(h3 / 2);
    assert h3 == flags / 8;
  }

  /** The parts of an entry, where the reader looks for them. */
  lemma PartsAre(file: seq<Byte>, m: Member, l: Local, start: nat)
    requires Placed(file, m, l, start)
    ensures At(file, m.offset, Encode(HeaderFields(m.name, l))) && At(file, m.offset + LFH_SIZE, m.name)
    ensures At(file, DataAt(m, l), l.data) && DataAt(m, l) + |l.data| <= start
  {
    hide Encode, At;
    HeaderSize(m.name, l);
    AtParts(file, m.offset, Encode(HeaderFields(m.name, l)), m.name + (l.extra + l.data));
    AtParts(file, m.offset + LFH_SIZE, m.name, l.extra + l.data);
    AtParts(file, m.offset + LFH_SIZE + |m.name|, l.extra, l.data);
  }

  /** What is found for a member. */
  function EntryOf(m: Member, l: Local): ZipEntry {
    ZipEntry(m.method_, m.date * 0x10000 + m.time, m.crc, m.compressed, m.uncompressed, HasDescriptor(l), DataAt(m, l))
  }

  /** What the directory says where the name of a member is. */
  ghost predicate Recorded(cd: seq<Byte>, o: nat, m: Member) {
    && CDR_SIZE <= o <= |cd| && U16(cd, o - 36) == m.method_ && U16(cd, o - 34) == m.time && U16(cd, o - 32) == m.date
    && U32(cd, o - 30) == m.crc && U32(cd, o - 26) == m.compressed && U32(cd, o - 22) == m.uncompressed
    && U32(cd, o - 4) == m.offset
  }

  lemma IsRecorded(a: Layout, i: nat)
    requires i < |a.members| && MemberFits(a.members[i], a.start) && a.start < UINT32_MAX
    ensures Recorded(DirectoryBytes(a), RecordAt(a.members, i) + CDR_SIZE, a.members[i])
  {
    hide Encode, U16, U32, DirectoryBytes, ValidName, At, RecordAt, RecordFields, RecordError, RecordLength, NameOf;
    RecordIsRead(a, i);
    ReadsRecord(DirectoryBytes(a), RecordAt(a.members, i), a.members[i], a.start);
  }

  /** An entry that stands where its record says is found. */
  lemma Locates(file: seq<Byte>, cd: seq<Byte>, o: nat, m: Member, l: Local, start: nat)
    requires Recorded(cd, o, m) && Placed(file, m, l, start) && 0 < |m.name| <= UINT16_MAX
    requires start <= |file| && start < UINT32_MAX
    ensures Locate(file, cd, start, m.name, o) ==
            if Consistent(m, l) then Success(EntryOf(m, l)) else Failure(InconsistentInformation)
  {
    hide Encode, U16, U32, ValidName, Bitwise, At, HeaderFields;
    PartsAre(file, m, l, start);
    ReadsHeader(file, m.offset, m.name, l);
    AtIs(file, m.offset + LFH_SIZE, m.name);
    FlagIs(l.flags);
  }

  /** An entry of another name is refused, as is one that reaches into the directory. */
  lemma Refuses(file: seq<Byte>, cd: seq<Byte>, o: nat, m: Member, name: Name, l: Local, start: nat)
    requires Recorded(cd, o, m) && start <= |file| && |m.name| <= UINT16_MAX && |name| <= UINT16_MAX
    requires HeaderFits(l) && SizesFit(m, l) && m.offset < UINT32_MAX && At(file, m.offset, LocalBytes(name, l))
    ensures m.offset + 30 >= start ==> Locate(file, cd, start, m.name, o) == Failure(InvalidOffset)
    ensures m.offset + 30 < start && m.offset + 30 + |name| <= start && name != m.name ==>
              Locate(file, cd, start, m.name, o) == Failure(InconsistentInformation)
    ensures m.offset + 30 < start && m.offset + 30 + |name| <= start && name == m.name && Consistent(m, l) &&
            DataAt(m, l) + |l.data| > start ==>
              Locate(file, cd, start, m.name, o) == Failure(InvalidOffset)
  {
    hide Encode, U16, U32, ValidName, Bitwise, At, HeaderFields;
    HeaderSize(name, l);
    AtParts(file, m.offset, Encode(HeaderFields(name, l)), name + (l.extra + l.data));
    AtParts(file, m.offset + LFH_SIZE, name, l.extra + l.data);
    ReadsHeader(file, m.offset, name, l);
    AtIs(file, m.offset + LFH_SIZE, name);
    FlagIs(l.flags);
  }

  /** The local part at an offset, if the name and the data have these sizes. */
  function LocalOf(file: seq<Byte>, o: nat, name: nat, size: nat): Local
    requires o + LFH_SIZE <= |file| && o + LFH_SIZE + name + U16(file, o + 28) + size <= |file|
  {
    var extra := o + LFH_SIZE + name;
    var data := extra + U16(file, o + 28);
    Local(U16(file, o + 4), U16(file, o + 6), U16(file, o + 8), U16(file, o + 10), U16(file, o + 12), U32(file, o + 14),
          U32(file, o + 18), U32(file, o + 22), file[extra..data], file[data..data + size])
  }

  lemma HeaderNumbers(file: seq<Byte>, o: nat, name: Name, size: nat)
    requires o + LFH_SIZE <= |file| && o + LFH_SIZE + |name| + U16(file, o + 28) + size <= |file|
    requires U32(file, o) == LFH_SIGNATURE && U16(file, o + 26) == |name|
    ensures At(file, o, Encode(HeaderFields(name, LocalOf(file, o, |name|, size))))
    ensures HeaderFits(LocalOf(file, o, |name|, size))
  {
    hide Encode, U16, U32, At;
    var r10 := Two(U16(file, o + 28), End);
    var r9 := Two(U16(file, o + 26), r10);
    var r8 := Four(U32(file, o + 22), r9);
    var r7 := Four(U32(file, o + 18), r8);
    var r6 := Four(U32(file, o + 14), r7);
    var r5 := Two(U16(file, o + 12), r6);
    var r4 := Two(U16(file, o + 10), r5);
    var r3 := Two(U16(file, o + 8), r4);
    var r2 := Two(U16(file, o + 6), r3);
    var r1 := Two(U16(file, o + 4), r2);
    Nothing(file, o + 30);
    Put16(file, o + 28, End);
    Put16(file, o + 26, r10);
    Put32(file, o + 22, r9);
    Put32(file, o + 18, r8);
    Put32(file, o + 14, r7);
    Put16(file, o + 12, r6);
    Put16(file, o + 10, r5);
    Put16(file, o + 8, r4);
    Put16(file, o + 6, r3);
    Put16(file, o + 4, r2);
    Put32(file, o, r1);
  }

  /** Only an entry that stands where its record says, and agrees with it, is found. */
  lemma LocatesOnly(file: seq<Byte>, cd: seq<Byte>, o: nat, m: Member, start: nat) returns (l: Local)
    requires Recorded(cd, o, m) && MemberFits(m, start) && start <= |file|
             && Locate(file, cd, start, m.name, o).Success?
    ensures Placed(file, m, l, start) && Consistent(m, l)
  {
    hide Encode, U16, U32, Bitwise, At, HeaderFields;
    var s := m.offset;
    assert U32(file, s) == LFH_SIGNATURE && U16(file, s + 26) == |m.name|;
    l := LocalOf(file, s, |m.name|, m.compressed);
    HeaderNumbers(file, s, m.name, m.compressed);
    FlagIs(l.flags);
    LocalJoins(file, s, m.name, l);
  }

  lemma LocalJoins(file: seq<Byte>, s: nat, name: Name, l: Local)
    requires At(file, s, Encode(HeaderFields(name, l)))
    requires var o := s + LFH_SIZE + |name|;
             && o + |l.extra| + |l.data| <= |file| && file[s + LFH_SIZE..o] == name
             && file[o..o + |l.extra|] == l.extra && file[o + |l.extra|..o + |l.extra| + |l.data|] == l.data
    ensures At(file, s, LocalBytes(name, l)) && |LocalBytes(name, l)| == LFH_SIZE + |name| + |l.extra| + |l.data|
  {
    hide Encode, HeaderFields;
    HeaderSize(name, l);
    var o := s + LFH_SIZE + |name|;
    AtJoin(file, o, l.extra, l.data);
    AtJoin(file, s + LFH_SIZE, name, l.extra + l.data);
    AtJoin(file, s, Encode(HeaderFields(name, l)), name + (l.extra + l.data));
  }

  /** The names of an archive that is opened. */
  lemma NamesAre(file: seq<Byte>, a: Layout)
    requires Laid(file, a) && OpenError(file).None?
    ensures AllValid(a.members) && NamesDiffer(a.members) && DirectoryInfo(file).Success?
    ensures var info, cd := DirectoryInfo(file).value, DirectoryBytes(a);
            && info == CdInfo(|a.members|, |cd|, a.start) && Slice(file, info) == cd
            && Verify(cd, a.start, |a.members|, 0).None?
            && Names(cd, a.start, |a.members|, 0) == NameList(a.members, 0)
            && NoDuplicates(NameList(a.members, 0)) && a.start <= |file|
  {
    hide DirectoryBytes, NameList, Verify, Names, DirectoryInfo, NoDuplicates, U32, ValidName, MemberFits, NamesDiffer,
         AllValid, OpenError;
    OpensIf(file, a);
    InfoIs(file, a);
    Begins(a.members);
    WalkMeets(a, 0);
    DistinctNames(a.members);
  }

  /** Looking up the name of a member goes to its record. */
  lemma LooksAt(file: seq<Byte>, a: Layout, i: nat)
    requires Laid(file, a) && OpenError(file).None? && i < |a.members| && a.members[i].name != []
    ensures a.start <= |file| && Recorded(DirectoryBytes(a), RecordAt(a.members, i) + CDR_SIZE, a.members[i])
    ensures |a.members[i].name| <= UINT16_MAX
    ensures Lookup(file, a.members[i].name) ==
            Locate(file, DirectoryBytes(a), a.start, a.members[i].name, RecordAt(a.members, i) + CDR_SIZE)
  {
    hide DirectoryBytes, NameList, Verify, Names, DirectoryInfo, NoDuplicates, OpenError, ToMap, Locate, At, RecordAt,
         NamesDiffer, AllValid, Recorded;
    NamesAre(file, a);
    NameListAt(a.members, 0, i);
    ToMapAt(NameList(a.members, 0), i);
    IsRecorded(a, i);
  }

  /** What was found leads to the data of the member, if its local header agrees with the directory. */
  predicate LeadsTo(file: seq<Byte>, found: Result<ZipEntry>, m: Member, l: Local) {
    if !Consistent(m, l) then found == Failure(InconsistentInformation)
    else
      && found.Success?
      && var e := found.value;
         && e.method_ == m.method_ && e.mod_time == m.date * 0x10000 + m.time && e.crc32 == m.crc
         && e.uncompressed_length == m.uncompressed && e.has_data_descriptor == HasDescriptor(l)
         && e.offset == m.offset + 30 + |m.name| + |l.extra| && e.compressed_length == |l.data|
         && e.offset + |l.data| <= |file|
         && file[e.offset..e.offset + |l.data|] == l.data
  }

  /** A member is found exactly if its entry stands where the directory says and agrees with it, and then as it is. */
  ghost predicate FoundAs(file: seq<Byte>, found: Result<ZipEntry>, m: Member, start: nat) {
    && (found.Success? <==> exists l :: Placed(file, m, l, start) && Consistent(m, l))
    && forall l :: Placed(file, m, l, start) ==> LeadsTo(file, found, m, l)
  }

  lemma FindsMember(file: seq<Byte>, a: Layout, i: nat)
    requires Laid(file, a) && OpenError(file).None? && i < |a.members| && a.members[i].name != []
    ensures FoundAs(file, Lookup(file, a.members[i].name), a.members[i], a.start)
  {
    hide DirectoryBytes, DirectoryInfo, OpenError, At, Consistent, Lookup, Locate, Placed, Recorded, LeadsTo, RecordAt;
    var m, cd, o := a.members[i], DirectoryBytes(a), RecordAt(a.members, i) + CDR_SIZE;
    var found := Lookup(file, m.name);
    LooksAt(file, a, i);
    forall l | Placed(file, m, l, a.start)
      ensures LeadsTo(file, found, m, l) && (Consistent(m, l) ==> found.Success?)
    {
      Locates(file, cd, o, m, l, a.start);
      Leads(file, m, l, a.start);
    }
    if found.Success? {
      assert MemberFits(m, a.start);
      var l := LocatesOnly(file, cd, o, m, a.start);
    }
  }

  lemma Leads(file: seq<Byte>, m: Member, l: Local, start: nat)
    requires Placed(file, m, l, start) && start <= |file|
    ensures LeadsTo(file, if Consistent(m, l) then Success(EntryOf(m, l)) else Failure(InconsistentInformation), m, l)
  {
    hide At, Encode, Consistent;
    PartsAre(file, m, l, start);
    AtIs(file, DataAt(m, l), l.data);
  }

  /** A name that no entry has is not found. */
  lemma FindsNothingElse(file: seq<Byte>, a: Layout, name: Name)
    requires Laid(file, a) && OpenError(file).None? && 0 < |name| <= UINT16_MAX
    requires forall i :: 0 <= i < |a.members| ==> a.members[i].name != name
    ensures Lookup(file, name) == Failure(EntryNotFound)
  {
    hide DirectoryBytes, NameList, Verify, Names, DirectoryInfo, NoDuplicates, OpenError, ToMap, Locate, Laid, RecordAt,
         NamesDiffer, AllValid;
    NamesAre(file, a);
    NameListSize(a.members, 0);
    var names := NameList(a.members, 0);
    forall k | 0 <= k < |names|
      ensures names[k].0 != name
    {
      NameListAt(a.members, 0, k);
    }
    ToMapOnly(names, name);
  }

  /** What looking up a name in an archive gives. */
  ghost predicate Answers(file: seq<Byte>, a: Layout, name: Name, found: Result<ZipEntry>) {
    if name == [] || |name| > UINT16_MAX then found == Failure(InvalidEntryName)
    else
      && (forall i :: 0 <= i < |a.members| && a.members[i].name == name ==> FoundAs(file, found, a.members[i], a.start))
      && ((forall i :: 0 <= i < |a.members| ==> a.members[i].name != name) ==> found == Failure(EntryNotFound))
  }

  lemma LookupAnswers(file: seq<Byte>, a: Layout, name: Name)
    requires Laid(file, a) && OpenError(file).None?
    ensures Answers(file, a, name, Lookup(file, name))
  {
    hide Laid, OpenError, FoundAs, Locate, Names, ToMap, DirectoryInfo;
    if 0 < |name| <= UINT16_MAX {
      hide Lookup;
      forall i | 0 <= i < |a.members| && a.members[i].name == name
        ensures FoundAs(file, Lookup(file, name), a.members[i], a.start)
      {
        FindsMember(file, a, i);
      }
      if forall i :: 0 <= i < |a.members| ==> a.members[i].name != name {
        FindsNothingElse(file, a, name);
      }
    }
  }

  // ----- data descriptors

  /** A data descriptor, as section 4.3.9 of the application note describes it. */
  function DescriptorBytes(signed: bool, crc: nat, size: nat, compressed: nat, uncompressed: nat): seq<Byte> {
    (if signed then Bytes(4, 0x08074b50) else []) +
    (Bytes(4, crc) + (Bytes(size, compressed) + Bytes(size, uncompressed)))
  }

  /** Where the descriptor of an entry is looked for, and the size of its sizes. */
  function DescriptorAt(e: ZipEntry): nat {
    e.offset + if e.method_ == 0 then e.uncompressed_length else e.compressed_length
  }

  function WidthOf(e: ZipEntry): nat {
    if e.compressed_length >= UINT32_MAX || e.uncompressed_length >= UINT32_MAX then 8 else 4
  }

  /** The numbers of a descriptor, from its checksum on. */
  lemma ReadsNumbers(file: seq<Byte>, p: nat, crc: nat, size: nat, compressed: nat, uncompressed: nat)
    requires At(file, p, Bytes(4, crc) + (Bytes(size, compressed) + Bytes(size, uncompressed)))
    requires crc <= UINT32_MAX && compressed < Pow2(8 * size) && uncompressed < Pow2(8 * size)
    ensures p + 4 + 2 * size <= |file| && U32(file, p) == crc && ValueOf(file[p + 4..p + 4 + size]) == compressed
    ensures ValueOf(file[p + 4 + size..p + 4 + 2 * size]) == uncompressed
  {
    hide Bytes, ValueOf, Pow2, At;
    Pow2Known();
    BytesLength(4, crc);
    BytesLength(size, compressed);
    BytesLength(size, uncompressed);
    BytesAre(4, crc);
    BytesAre(size, compressed);
    BytesAre(size, uncompressed);
    AtParts(file, p, Bytes(4, crc), Bytes(size, compressed) + Bytes(size, uncompressed));
    AtParts(file, p + 4, Bytes(size, compressed), Bytes(size, uncompressed));
    AtIs(file, p, Bytes(4, crc));
    AtIs(file, p + 4, Bytes(size, compressed));
    AtIs(file, p + 4 + size, Bytes(size, uncompressed));
  }

  /**
   A descriptor with or without signature is accepted exactly if it agrees with
   the directory; one without signature must not start like one.
   */
  lemma DescriptorExactly(file: seq<Byte>, e: ZipEntry, signed: bool, crc: nat, compressed: nat, uncompressed: nat)
    requires At(file, DescriptorAt(e), DescriptorBytes(signed, crc, WidthOf(e), compressed, uncompressed))
    requires crc <= UINT32_MAX && compressed < Pow2(8 * WidthOf(e)) && uncompressed < Pow2(8 * WidthOf(e))
    requires signed || crc != 0x08074b50
    ensures DescriptorError(file, e) ==
            if DescriptorAt(e) + 24 > |file| then Some(IoError)
            else if (e.crc32, e.compressed_length, e.uncompressed_length) == (crc, compressed, uncompressed) then None
            else Some(InconsistentInformation)
  {
    hide Bytes, ValueOf, Pow2, At, U32;
    var o, size := DescriptorAt(e), WidthOf(e);
    var numbers := Bytes(4, crc) + (Bytes(size, compressed) + Bytes(size, uncompressed));
    AtParts(file, o, if signed then Bytes(4, 0x08074b50) else [], numbers);
    BytesLength(4, 0x08074b50);
    if signed { ReadsSignature(file, o); }
    ReadsNumbers(file, if signed then o + 4 else o, crc, size, compressed, uncompressed);
  }

  lemma ReadsSignature(file: seq<Byte>, o: nat)
    requires At(file, o, Bytes(4, 0x08074b50))
    ensures o + 4 <= |file| && U32(file, o) == DD_SIGNATURE
  {
    hide Bytes, ValueOf, Pow2;
    Pow2Known();
    BytesLength(4, 0x08074b50);
    BytesAre(4, 0x08074b50);
  }

  /** One that starts like a signature is taken for one, and refused though it is right. */
  lemma DescriptorMistaken(file: seq<Byte>, e: ZipEntry)
    requires e.crc32 == 0x08074b50 && e.compressed_length < UINT32_MAX && e.uncompressed_length < UINT32_MAX
    requires At(file, DescriptorAt(e), DescriptorBytes(false, e.crc32, 4, e.compressed_length, e.uncompressed_length))
    requires e.compressed_length != e.crc32
    ensures DescriptorError(file, e).Some?
  {
    hide Bytes, ValueOf, Pow2, At;
    Pow2Known();
    var o := DescriptorAt(e);
    var numbers := Bytes(4, e.crc32) + (Bytes(4, e.compressed_length) + Bytes(4, e.uncompressed_length));
    assert DescriptorBytes(false, e.crc32, 4, e.compressed_length, e.uncompressed_length) == numbers;
    ReadsNumbers(file, o, e.crc32, 4, e.compressed_length, e.uncompressed_length);
  }

  /** The file is an archive that the reader takes. */
  ghost predicate IsArchive(file: seq<Byte>, a: Layout) {
    Laid(file, a) && AllValid(a.members) && NamesDiffer(a.members) && file[..4] == [0x50, 0x4b, 3, 4]
  }

  /** Exactly the archives are opened. */
  lemma OpensExactly(file: seq<Byte>)
    ensures OpenError(file).None? <==> |file| >= 4 && exists a :: IsArchive(file, a)
  {
    hide Laid, OpenError, AllValid, NamesDiffer;
    if OpenError(file).None? {
      var a := Decodes(file);
      OpensIf(file, a);
      assert IsArchive(file, a);
    }
    if a :| |file| >= 4 && IsArchive(file, a) {
      OpensIf(file, a);
    }
  }

  /**
   Reading any file: it is opened exactly if it is laid out like this with names
   that are valid and distinct, and starts with an entry.  Then each name leads
   to the data of its entry, and no other name to anything.
   */
  method Read(file: seq<Byte>, hash: Name -> nat, name: Name, ghost a: Layout)
    returns (error: Option<ZipError>, found: Result<ZipEntry>)
    ensures error.None? <==> |file| >= 4 && exists b :: IsArchive(file, b)
    ensures Laid(file, a) ==>
              && |file| >= 4
              && error == (if !AllValid(a.members) then Some(InvalidEntryName)
                           else if !NamesDiffer(a.members) then Some(DuplicateEntry)
                           else if file[..4] != [0x50, 0x4b, 3, 4] then Some(InvalidFile)
                           else None)
    ensures Laid(file, a) && error.None? ==> Answers(file, a, name, found)
  {
    hide Laid, OpenError, Lookup, AllValid, NamesDiffer, Answers, IsArchive;
    OpensExactly(file);
    var archive := new A.ZipArchive(file, hash);
    error := archive.Open();
    found := Failure(EntryNotFound);
    if Laid(file, a) { OpensIf(file, a); }
    if error.None? {
      found := archive.FindEntry(name);
      if Laid(file, a) { LookupAnswers(file, a, name); }
    }
  }
}
