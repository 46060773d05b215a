/** Whole runs: any sequence of calls of the writer, and what the reader then finds. */
module ZipReplay {
  import A = ZipArchive
  import opened Bits
  import opened CdEntryMap
  import EntryNames
  import opened OrderedKeys
  import opened W = ZipWriter
  import opened Z = ZipFormat
  import opened ZipRoundTrip
  import opened WordSizes

  type Word16 = n: nat | n <= 0xffff

  type Crc = (nat, seq<Byte>) -> nat

  /** A call of the writer. */
  datatype Event =
    | Start(path: seq<Byte>, align32: bool, mod_time: Word16, mod_date: Word16, alignment: nat)
    | Store(bytes: seq<Byte>)
    | Close
    | Discard

  /** What a caller knows of an entry. */
  datatype Item = Item(path: seq<Byte>, data: seq<Byte>, alignment: nat, mod_time: nat, mod_date: nat, crc32: nat)

  /** The entries a caller has written and kept, the one being written, and whether the writer is in error. */
  datatype Ledger = Ledger(items: seq<Item>, open: Option<Item>, broken: bool)

  /** How much room an entry takes that starts at an offset. */
  function RoomFor(it: Item, start: nat, dd: bool): nat {
    var data := start + LFH_SIZE + |it.path|;
    LFH_SIZE + |it.path| + Padding(data, it.alignment) + |it.data| + if dd then 16 else 0
  }

  /** Where the entries end in the file. */
  function EndOf(items: seq<Item>, dd: bool): nat {
    if items == [] then 0
    else
      var start := EndOf(items[..|items| - 1], dd);
      start + RoomFor(items[|items| - 1], start, dd)
  }

  function DirectorySize(items: seq<Item>): nat {
    if items == [] then 0 else DirectorySize(items[..|items| - 1]) + CDR_SIZE + |items[|items| - 1].path|
  }

  function StateOf(l: Ledger): W.State {
    if l.broken then Errored else if l.open.Some? then WritingEntry else WritingZip
  }

  /** What a caller can know that a call will return, and what to note of it. */
  function Respond(l: Ledger, e: Event, crc: Crc, dd: bool): (W.Status, Ledger) {
    match e
    case Start(path, align32, time, date, alignment) =>
      var status := StartStatus(StateOf(l), |l.items|, EndOf(l.items, dd), path, align32, alignment);
      (status,
       if status == NoError then l.(open := Some(Item(path, [], alignment, time, date, 0)))
       else l.(broken := l.broken || status == IoError))
    case Store(bytes) =>
      if StateOf(l) != WritingEntry then (InvalidState, l.(broken := true))
      else if |l.open.value.data| + |bytes| > UINT32_MAX then (IoError, l.(broken := true))
      else
        var it := l.open.value;
        (NoError, l.(open := Some(it.(data := it.data + bytes, crc32 := crc(it.crc32, bytes) % (UINT32_MAX + 1)))))
    case Close =>
      if StateOf(l) != WritingEntry then (InvalidState, l)
      else (NoError, l.(items := l.items + [l.open.value], open := None))
    case Discard =>
      if StateOf(l) != WritingZip || l.items == [] then (InvalidState, l)
      else (NoError, l.(items := l.items[..|l.items| - 1]))
  }

  const NothingWritten := Ledger([], None, false)

  /** What the caller has noted after these calls. */
  function Kept(events: seq<Event>, crc: Crc, dd: bool): Ledger {
    if events == [] then NothingWritten
    else Respond(Kept(events[..|events| - 1], crc, dd), events[|events| - 1], crc, dd).1
  }

  /** Finishing succeeds if no entry is open, the writer is not in error, and entries and directory fit 4 GiB. */
  function FinishStatus(l: Ledger, dd: bool): W.Status {
    if StateOf(l) != WritingZip then InvalidState
    else if EndOf(l.items, dd) + DirectorySize(l.items) <= UINT32_MAX then NoError
    else IoError
  }

  /** The record of an entry says what the caller knows. */
  predicate Records(e: FileEntry, c: Content, it: Item) {
    && e.path == it.path && e.last_mod_time == it.mod_time && e.last_mod_date == it.mod_date && e.crc32 == it.crc32
    && c == Content(it.data, it.alignment) && Padded(e, it.alignment)
  }

  ghost predicate AllRecorded(files: seq<FileEntry>, contents: seq<Content>, items: seq<Item>) {
    |files| == |contents| == |items| && forall i :: 0 <= i < |items| ==> Records(files[i], contents[i], items[i])
  }

  /**
   The writer is where the caller thinks, and as long as it is not in error it has
   recorded what the caller has noted.
   */
  ghost predicate Matches(w: ZipWriter, l: Ledger)
    reads w
  {
    && w.Valid() && w.state == StateOf(l)
    && (!l.broken ==>
          && AllRecorded(w.files, w.contents, l.items)
          && (l.open.Some? ==> Records(w.current, w.content, l.open.value)))
  }

  /** The entries take the room that the caller expects. */
  lemma {:induction false} EndIs(files: seq<FileEntry>, contents: seq<Content>, dd: bool, items: seq<Item>)
    requires AllDescribe(files, contents, dd) && AllRecorded(files, contents, items)
    ensures |Locals(files, contents, dd)| == EndOf(items, dd)
    decreases |files|
  {
    hide LocalHeader, Descriptor, Padding, Zeros, InRange, EntryNames.ValidName, Aligned;
    if files != [] {
      var n := |files| - 1;
      EndIs(files[..n], contents[..n], dd, items[..n]);
      assert Records(files[n], contents[n], items[n]);
      PartSize(files[n], contents[n].data, dd);
    }
  }

  lemma PartSize(e: FileEntry, data: seq<Byte>, dd: bool)
    ensures |LocalPart(e, data, dd)| == LFH_SIZE + |e.path| + e.padding_length + |data| + if dd then 16 else 0
  {
    hide LocalHeader, Descriptor;
    LocalHeaderSize(e, dd);
    DescriptorSize(e);
  }

  lemma {:induction false} DirectoryIs(files: seq<FileEntry>, contents: seq<Content>, dd: bool, items: seq<Item>)
    requires AllRecorded(files, contents, items)
    ensures |Directory(files, dd)| == DirectorySize(items)
    decreases |files|
  {
    hide DirectoryRecord, Padded;
    if files != [] {
      var n := |files| - 1;
      DirectoryIs(files[..n], contents[..n], dd, items[..n]);
      assert Records(files[n], contents[n], items[n]);
      DirectoryRecordSize(files[n], dd);
    }
  }

  /** Between entries, the writer stands where the caller expects. */
  lemma OffsetIs(w: ZipWriter, l: Ledger)
    requires Matches(w, l) && w.state == WritingZip
    ensures w.current_offset == EndOf(l.items, w.UsesDescriptor())
    ensures |Directory(w.files, w.UsesDescriptor())| == DirectorySize(l.items)
  {
    hide AllDescribe, Records, Locals, Directory;
    FilesFit(w.file, w.current_offset, w.files, w.contents, w.UsesDescriptor());
    EndIs(w.files, w.contents, w.UsesDescriptor(), l.items);
    DirectoryIs(w.files, w.contents, w.UsesDescriptor(), l.items);
  }

  /** Every call returns what the caller expects. */
  method Perform(w: ZipWriter, e: Event, ghost l: Ledger) returns (status: W.Status)
    requires Matches(w, l)
    modifies w
    ensures var (expected, l') := Respond(l, e, w.crc, w.UsesDescriptor()); status == expected && Matches(w, l')
  {
    hide ZipWriter.Valid, EndOf, Padding, GoodAlignment;
    if w.state == WritingZip { OffsetIs(w, l); }
    match e
    case Start(path, align32, time, date, alignment) =>
      status := w.StartAlignedEntryWithTime(path, align32, time, date, alignment);
    case Store(bytes) =>
      status := w.WriteBytes(bytes);
    case Close =>
      status := w.FinishEntry();
    case Discard =>
      status := w.DiscardLastEntry();
  }

  ghost predicate DistinctItems(items: seq<Item>) {
    forall i, j :: 0 <= i < j < |items| ==> items[i].path != items[j].path
  }

  /** What is found for an entry: its time and checksum, and exactly its bytes, aligned as asked for. */
  predicate FoundIn(file: seq<Byte>, found: A.Result<A.ZipEntry>, it: Item) {
    if it.path == [] then found == A.Failure(A.InvalidEntryName)
    else
      && found.Success?
      && var e := found.value;
         && e.method_ == 0 && e.mod_time == it.mod_date * 0x10000 + it.mod_time && e.crc32 == it.crc32
         && e.compressed_length == e.uncompressed_length == |it.data| && e.offset + |it.data| <= |file|
         && file[e.offset..e.offset + |it.data|] == it.data && (it.alignment != 0 ==> e.offset % it.alignment == 0)
         && (e.has_data_descriptor ==> A.DescriptorError(file, e).None?)
  }

  /** The reader accepts an archive exactly if it has entries and their names are distinct. */
  lemma Accepts(file: seq<Byte>, files: seq<FileEntry>, contents: seq<Content>, dd: bool, items: seq<Item>)
    requires AllRecorded(files, contents, items)
    requires if files == [] then file == Archive(files, contents, dd) else Finished(file, files, contents, dd)
    ensures A.OpenError(file) == OpenStatus(items)
  {
    hide Archive, A.OpenError, Finished;
    if files == [] {
      assert contents == [];
      EmptyIsRefused(dd);
    } else {
      ZipRoundTrip.Opens(file, files, contents, dd);
      assert DistinctPaths(files) <==> DistinctItems(items);
    }
  }

  lemma FindsItem(file: seq<Byte>, files: seq<FileEntry>, contents: seq<Content>, dd: bool, items: seq<Item>, i: nat)
    requires AllRecorded(files, contents, items) && Finished(file, files, contents, dd) && DistinctItems(items)
             && i < |items|
    ensures A.OpenError(file).None? && FoundIn(file, A.Lookup(file, items[i].path), items[i])
  {
    hide A.OpenError, Finished, A.Locate, A.Names, A.ToMap, A.DirectoryInfo, A.DescriptorError, Padded;
    ZipRoundTrip.Opens(file, files, contents, dd);
    assert DistinctPaths(files) <==> DistinctItems(items);
    assert Records(files[i], contents[i], items[i]);
    if items[i].path != [] {
      FindsEntry(file, files, contents, dd, i);
      if dd { DescriptorAccepted(file, files, contents, dd, i); }
    }
  }

  /** What a caller can know that opening the archive will say. */
  ghost function OpenStatus(items: seq<Item>): Option<A.ZipError> {
    if items == [] then Some(A.EmptyArchive) else if DistinctItems(items) then None else Some(A.DuplicateEntry)
  }

  /**
   Any calls of the writer, whether they succeed or not, and then finishing,
   opening and looking up every entry that was kept.  Every call, finishing and
   opening return what the caller can know from the calls alone, and every entry
   with a name is found as it was written.
   */
  method Replay(events: seq<Event>, seekable: bool, crc: Crc, hash: Name -> nat)
    returns (statuses: seq<W.Status>, finished: W.Status, file: seq<Byte>, error: Option<A.ZipError>,
             found: seq<A.Result<A.ZipEntry>>)
    ensures |statuses| == |events|
    ensures forall i :: 0 <= i < |events| ==>
                          statuses[i] == Respond(Kept(events[..i], crc, !seekable), events[i], crc, !seekable).0
    ensures finished == FinishStatus(Kept(events, crc, !seekable), !seekable)
    ensures finished == NoError ==>
              var items := Kept(events, crc, !seekable).items;
              && error == OpenStatus(items)
              && (error.None? ==>
                    |found| == |items| && forall i :: 0 <= i < |items| ==> FoundIn(file, found[i], items[i]))
  {
    hide ZipWriter.Valid, FoundIn, A.OpenError, Archive, Finished, A.Lookup, Respond, EndOf, DirectorySize, Records;
    var w := new ZipWriter(seekable, crc);
    statuses, found, file, error := [], [], [], None;
    ghost var l, dd := NothingWritten, !seekable;
    for n := 0 to |events|
      invariant |statuses| == n && l == Kept(events[..n], crc, dd) && Matches(w, l)
      invariant w.crc == crc && w.UsesDescriptor() == dd && fresh(w)
      invariant forall i :: 0 <= i < n ==> statuses[i] == Respond(Kept(events[..i], crc, dd), events[i], crc, dd).0
    {
      var status := Perform(w, events[n], l);
      l := Respond(l, events[n], crc, dd).1;
      assert events[..n + 1][..n] == events[..n];
      statuses := statuses + [status];
    }
    assert events[..|events|] == events;
    if w.state == WritingZip { OffsetIs(w, l); }
    finished := w.Finish();
    if finished != NoError { return; }
    file := w.file;
    WriterLeaves(w);
    Accepts(file, w.files, w.contents, dd, l.items);
    error, found := LookUpAll(file, w.files, hash);
    if error.None? {
      forall i | 0 <= i < |l.items|
        ensures FoundIn(file, found[i], l.items[i])
      {
        FindsItem(file, w.files, w.contents, dd, l.items, i);
        SamePath(w.files, w.contents, l.items, i);
      }
    }
  }

  lemma SamePath(files: seq<FileEntry>, contents: seq<Content>, items: seq<Item>, i: nat)
    requires AllRecorded(files, contents, items) && i < |items|
    ensures files[i].path == items[i].path
  {
    assert Records(files[i], contents[i], items[i]);
  }

  lemma WriterLeaves(w: ZipWriter)
    requires w.Valid() && w.state == Done
    ensures |w.files| == |w.contents|
    ensures if w.files == [] then w.file == Archive(w.files, w.contents, w.UsesDescriptor())
            else Finished(w.file, w.files, w.contents, w.UsesDescriptor())
  {
    hide Archive, AllDescribe;
    if w.files != [] { WriterFinishes(w); }
  }

  /** Opens the archive and looks up the names, one after the other. */
  method LookUpAll(file: seq<Byte>, files: seq<FileEntry>, hash: Name -> nat)
    returns (error: Option<A.ZipError>, found: seq<A.Result<A.ZipEntry>>)
    ensures error == A.OpenError(file)
    ensures error.None? ==>
              |found| == |files| && forall i :: 0 <= i < |files| ==> found[i] == A.Lookup(file, files[i].path)
  {
    hide A.OpenError, A.Lookup, A.ZipArchive.Opened;
    var archive := new A.ZipArchive(file, hash);
    found := [];
    error := archive.Open();
    if error.Some? { return; }
    assert A.OpenError(file).None?;
    for i := 0 to |files|
      invariant archive.Opened() && |found| == i && forall k :: 0 <= k < i ==> found[k] == A.Lookup(file, files[k].path)
    {
      var entry := archive.FindEntry(files[i].path);
      found := found + [entry];
    }
  }
}
