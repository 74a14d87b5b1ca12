/**
 The two messages about sensors as bytes, and the receiver that reads them: it puts the description
 pages together and cuts the data message by the sizes they announce.
 */
module SensorMessages {
  import opened Arithmetic
  import opened Options
  import opened Bytes
  import opened SensorPages

  // ---------------------------------------------------------------- description pages

  /** strncpy into the fixed name field: up to the first NUL, padded with zeros, cut at the end. */
  function CopyName(name: seq<byte>, n: nat): (r: seq<byte>)
    ensures |r| == n
    decreases n
  {
    if n == 0 then []
    else if name == [] || name[0] == 0 then Zeros(n)
    else [name[0]] + CopyName(name[1..], n - 1)
  }

  function EntryBytes(n: Named, groupId: byte): (r: seq<byte>)
    requires Describable(n)
    ensures |r| == ENTRY
  {
    [ENTRY] + CopyName(n.name, SENSOR_NAME_LENGTH) + [n.sensor.dataType, n.sensor.unit] + Be16(n.sensor.maxDataSize)
    + [n.sensor.useLower, n.sensor.useUpper] + n.sensor.thresholds + Be16(n.sensor.numberOfValues)
    + [groupId, n.sensor.rendering]
  }

  predicate AllDescribable(sensors: seq<Named>) {
    forall i :: 0 <= i < |sensors| ==> Describable(sensors[i])
  }

  function GroupNames(sensors: seq<Named>): (r: seq<string>)
    ensures |r| == |sensors| && forall i :: 0 <= i < |r| ==> r[i] == sensors[i].sensor.group
  {
    seq(|sensors|, i requires 0 <= i < |sensors| => sensors[i].sensor.group)
  }

  /** The entries of a page; each asks for the id of its group as it is written. */
  function EntriesBytes(sensors: seq<Named>, groups: Groups): (r: seq<byte>)
    requires AllDescribable(sensors) && Numbered(groups)
    ensures |r| == ENTRY * |sensors|
    decreases |sensors|
  {
    if sensors == [] then []
    else
      RequestKeepsNumbered(groups, sensors[0].sensor.group);
      var (after, id) := GroupRequest(groups, sensors[0].sensor.group);
      EntryBytes(sensors[0], id) + EntriesBytes(sensors[1..], after)
  }

  function PageHeader(count: nat, perPage: nat, page: nat): (r: seq<byte>)
    requires perPage > 0 && 1 <= page <= PageCount(count, perPage) <= 255 && perPage <= 255
    ensures |r| == DESCRIPTION_HEADER
  {
    PageBounds(count, perPage, page);
    [TYPE_DESCRIPTION] + Be16(DESCRIPTION_HEADER + ENTRY * EntriesOn(count, perPage, page))
    + [0, page, PageCount(count, perPage), EntriesOn(count, perPage, page)] + Be16(StartOf(perPage, page))
  }

  /** getDescriptionPage: the bytes it fills in. */
  function PageBytes(sensors: seq<Named>, perPage: nat, page: nat, groups: Groups): (r: seq<byte>)
    requires AllDescribable(sensors) && Numbered(groups)
    requires perPage > 0 && 1 <= page <= PageCount(|sensors|, perPage) <= 255 && perPage <= 255
    ensures |r| == DESCRIPTION_HEADER + ENTRY * EntriesOn(|sensors|, perPage, page)
  {
    hide PageCount, EntriesOn, Describable, EntriesBytes, PageHeader, Numbered;
    PageHeader(|sensors|, perPage, page) + EntriesBytes(OnPage(sensors, perPage, page), groups)
  }

  // ---------------------------------------------------------------- the data message

  /** What getData produced: the bytes, or nothing when it returned false. */
  type Reading = Option<seq<byte>>

  predicate Fits(n: Named, r: Reading) {
    r.Some? ==> |r.value| == n.sensor.maxDataSize
  }

  predicate AllFit(sensors: seq<Named>, readings: seq<Reading>) {
    |readings| == |sensors| && forall i :: 0 <= i < |sensors| ==> Fits(sensors[i], readings[i])
  }

  function BlockBytes(n: Named, r: Reading): (b: seq<byte>)
    requires Fits(n, r)
    ensures |b| == n.sensor.maxDataSize
  {
    if r.Some? then r.value else Zeros(n.sensor.maxDataSize)
  }

  function BlocksBytes(sensors: seq<Named>, readings: seq<Reading>): (b: seq<byte>)
    requires AllFit(sensors, readings)
    ensures |b| == SizeSum(sensors)
    decreases |sensors|
  {
    if sensors == [] then []
    else BlockBytes(sensors[0], readings[0]) + BlocksBytes(sensors[1..], readings[1..])
  }

  function SizeSum(sensors: seq<Named>): nat
    decreases |sensors|
  {
    if sensors == [] then 0 else sensors[0].sensor.maxDataSize + SizeSum(sensors[1..])
  }

  function DataSize(sensors: seq<Named>): nat {
    DATA_HEADER + SizeSum(sensors)
  }

  /** getMessage; the version byte of the header is whatever the buffer held. */
  function DataBytes(sensors: seq<Named>, readings: seq<Reading>, version: byte): (b: seq<byte>)
    requires AllFit(sensors, readings)
    ensures |b| == DataSize(sensors)
  {
    [TYPE_DATA] + Be16(DataSize(sensors)) + [version] + Be16(|sensors|) + [0] + BlocksBytes(sensors, readings)
  }

  // ---------------------------------------------------------------- the receiver

  /** What a receiver reads from one entry, by the offsets that daemon_msgs.h gives. */
  datatype Described = Described(
    entryLength: byte, name: seq<byte>, dataType: byte, unit: byte, maxDataSize: nat, useLower: byte, useUpper: byte,
    thresholds: seq<byte>, numberOfValues: nat, groupId: byte, rendering: byte)

  function ReadEntry(b: seq<byte>): Described
    requires |b| == ENTRY
  {
    Described(b[0], b[1..30], b[30], b[31], FromBe16(b[32..34]), b[34], b[35], b[36..68], FromBe16(b[68..70]), b[70], b[71])
  }

  function ReadEntries(b: seq<byte>, n: nat): (r: seq<Described>)
    requires |b| >= ENTRY * n
    ensures |r| == n
    decreases n
  {
    if n == 0 then [] else [ReadEntry(b[..ENTRY])] + ReadEntries(b[ENTRY..], n - 1)
  }

  /** The entries of a page message, as many as its header says. */
  function ReadPage(b: seq<byte>): Option<seq<Described>> {
    if |b| < 9 || b[0] != 1 || |b| < 9 + 72 * b[6] as nat then None
    else Some(ReadEntries(b[9..], b[6] as nat))
  }

  function ReadPages(pages: seq<seq<byte>>): Option<seq<Described>>
    decreases |pages|
  {
    if pages == [] then Some([])
    else
      var before := ReadPages(pages[..|pages| - 1]);
      var last := ReadPage(pages[|pages| - 1]);
      if before.None? || last.None? then None else Some(before.value + last.value)
  }

  /** Cuts a text of bytes by the announced sizes; None when it is too short or something is left. */
  function Cut(b: seq<byte>, described: seq<Described>): Option<seq<seq<byte>>>
    decreases |described|
  {
    if described == [] then if b == [] then Some([]) else None
    else
      var n := described[0].maxDataSize;
      if |b| < n then None
      else
        var rest := Cut(b[n..], described[1..]);
        if rest.None? then None else Some([b[..n]] + rest.value)
  }

  /** What a receiver makes of the pages and a data message. */
  function Receive(pages: seq<seq<byte>>, data: seq<byte>): Option<seq<seq<byte>>> {
    var described := ReadPages(pages);
    if described.None? || |data| < 7 || data[0] != 2 || FromBe16(data[1..3]) != |data| then None
    else Cut(data[7..], described.value)
  }

  // ---------------------------------------------------------------- the layouts agree

  /** A name field of 29 bytes: the name up to its first NUL, as far as it fits, and zeros behind it. */
  predicate NameField(name: seq<byte>, field: seq<byte>) {
    && |field| == 29
    && forall k :: 0 <= k < 29 ==> field[k] == if k < |name| && 0 !in name[..k + 1] then name[k] else 0
  }

  lemma {:induction false} CopiedNameAt(name: seq<byte>, n: nat, k: nat)
    requires k < n
    ensures CopyName(name, n)[k] == if k < |name| && 0 !in name[..k + 1] then name[k] else 0
    decreases n
  {
    if name != [] && name[0] != 0 {
      assert k < |name| ==> name[..k + 1] == [name[0]] + name[1..][..k];
      if k > 0 {
        CopiedNameAt(name[1..], n - 1, k - 1);
      }
    } else if name != [] {
      assert k < |name| ==> name[..k + 1][0] == 0;
    }
  }

  lemma CopiedName(name: seq<byte>)
    ensures NameField(name, CopyName(name, SENSOR_NAME_LENGTH))
  {
    forall k | 0 <= k < 29
      ensures CopyName(name, 29)[k] == if k < |name| && 0 !in name[..k + 1] then name[k] else 0
    {
      CopiedNameAt(name, 29, k);
    }
  }

  /** What the receiver should learn about a sensor. */
  predicate Matches(n: Named, d: Described) {
    && d.entryLength == 72 && NameField(n.name, d.name)
    && d.dataType == n.sensor.dataType && d.unit == n.sensor.unit
    && d.maxDataSize == n.sensor.maxDataSize && d.useLower == n.sensor.useLower && d.useUpper == n.sensor.useUpper
    && d.thresholds == n.sensor.thresholds && d.numberOfValues == n.sensor.numberOfValues
    && d.rendering == n.sensor.rendering
  }

  predicate AllMatch(sensors: seq<Named>, ds: seq<Described>) {
    |ds| == |sensors| && forall i :: 0 <= i < |sensors| ==> Matches(sensors[i], ds[i])
  }

  lemma EntryReadsBack(n: Named, groupId: byte)
    requires Describable(n)
    ensures Matches(n, ReadEntry(EntryBytes(n, groupId))) && ReadEntry(EntryBytes(n, groupId)).groupId == groupId
  {
    var s := n.sensor;
    var name := CopyName(n.name, SENSOR_NAME_LENGTH);
    var b := EntryBytes(n, groupId);
    CopiedName(n.name);
    assert b[1..30] == name;
    assert b[32..34] == Be16(s.maxDataSize);
    assert b[36..68] == s.thresholds;
    assert b[68..70] == Be16(s.numberOfValues);
    Be16ReadsBack(s.maxDataSize);
    Be16ReadsBack(s.numberOfValues);
  }

  lemma FirstEntryReadsBack(sensors: seq<Named>, groups: Groups)
    requires sensors != [] && AllDescribable(sensors) && Numbered(groups)
    ensures var (after, id) := GroupRequest(groups, sensors[0].sensor.group);
            var ds := ReadEntries(EntriesBytes(sensors, groups), |sensors|);
            && Numbered(after) && Matches(sensors[0], ds[0]) && ds[0].groupId == id
            && ds[1..] == ReadEntries(EntriesBytes(sensors[1..], after), |sensors| - 1)
  {
    hide Describable, EntryBytes, Matches, Numbered, ReadEntry;
    RequestKeepsNumbered(groups, sensors[0].sensor.group);
    var (after, id) := GroupRequest(groups, sensors[0].sensor.group);
    var first, rest := EntryBytes(sensors[0], id), EntriesBytes(sensors[1..], after);
    assert (first + rest)[..ENTRY] == first && (first + rest)[ENTRY..] == rest;
    EntryReadsBack(sensors[0], id);
  }

  lemma {:induction false} EntriesReadBack(sensors: seq<Named>, groups: Groups)
    requires AllDescribable(sensors) && Numbered(groups)
    ensures AllMatch(sensors, ReadEntries(EntriesBytes(sensors, groups), |sensors|))
    decreases |sensors|
  {
    if sensors != [] {
      hide Describable, EntriesBytes, Matches, Numbered, ReadEntries, GroupRequest;
      FirstEntryReadsBack(sensors, groups);
      var after := GroupRequest(groups, sensors[0].sensor.group).0;
      EntriesReadBack(sensors[1..], after);
      var ds := ReadEntries(EntriesBytes(sensors, groups), |sensors|);
      forall i | 0 <= i < |sensors| ensures Matches(sensors[i], ds[i]) {
        assert i > 0 ==> sensors[i] == sensors[1..][i - 1] && ds[i] == ds[1..][i - 1];
      }
    }
  }

  /** The group id in entry i is the one handed out for the i-th request of the run of group names. */
  lemma {:induction false} EntryCarriesGroupId(sensors: seq<Named>, groups: Groups, i: nat)
    requires AllDescribable(sensors) && Numbered(groups) && i < |sensors|
    ensures ReadEntries(EntriesBytes(sensors, groups), |sensors|)[i].groupId == IdOf(groups, GroupNames(sensors), i)
    decreases |sensors|
  {
    hide Describable, EntriesBytes, Matches, Numbered, ReadEntries, GroupRequest, IdOf;
    var names := GroupNames(sensors);
    FirstEntryReadsBack(sensors, groups);
    IdOfTail(groups, names, i);
    if i > 0 {
      var after := GroupRequest(groups, sensors[0].sensor.group).0;
      EntryCarriesGroupId(sensors[1..], after, i - 1);
      assert GroupNames(sensors[1..]) == names[1..];
      var ds := ReadEntries(EntriesBytes(sensors, groups), |sensors|);
      assert ds[i] == ds[1..][i - 1];
    }
  }

  lemma IdOfTail(groups: Groups, names: seq<string>, i: nat)
    requires i < |names|
    ensures IdOf(groups, names, i) ==
            if i == 0 then GroupRequest(groups, names[0]).1
            else IdOf(GroupRequest(groups, names[0]).0, names[1..], i - 1)
  {
    hide GroupRequest;
    if i == 0 {
      assert names[..0] == [];
    } else {
      assert names[..i][0] == names[0] && names[..i][1..] == names[1..][..i - 1];
    }
  }

  lemma PageReadsBack(sensors: seq<Named>, perPage: nat, page: nat, groups: Groups)
    requires AllDescribable(sensors) && Numbered(groups)
    requires perPage > 0 && 1 <= page <= PageCount(|sensors|, perPage) <= 255 && perPage <= 255
    ensures var r := ReadPage(PageBytes(sensors, perPage, page, groups));
            r.Some? && AllMatch(OnPage(sensors, perPage, page), r.value)
  {
    hide Describable, EntriesBytes, Matches, Numbered, ReadEntries, PageCount, EntriesOn;
    var b := PageBytes(sensors, perPage, page, groups);
    var on := OnPage(sensors, perPage, page);
    PageBounds(|sensors|, perPage, page);
    assert b[6] as nat == |on|;
    assert b[DESCRIPTION_HEADER..] == EntriesBytes(on, groups);
    EntriesReadBack(on, groups);
  }

  /** The fields of a page's header. */
  datatype PageInfo = PageInfo(
    kind: byte, size: nat, version: byte, page: byte, maxPages: byte, entries: byte, startIndex: nat)

  function ReadPageInfo(b: seq<byte>): PageInfo
    requires |b| >= DESCRIPTION_HEADER
  {
    PageInfo(b[0], FromBe16(b[1..3]), b[3], b[4], b[5], b[6], FromBe16(b[7..9]))
  }

  /** A receiver learns from the header of a page its length, its number, the number of pages, how many
      entries it has and how many are on the pages before. */
  lemma PageInfoReadsBack(sensors: seq<Named>, perPage: nat, page: nat, groups: Groups)
    requires AllDescribable(sensors) && Numbered(groups)
    requires perPage > 0 && 1 <= page <= PageCount(|sensors|, perPage) <= 255 && perPage <= 255
    ensures var b := PageBytes(sensors, perPage, page, groups);
            && EntriesOn(|sensors|, perPage, page) <= perPage
            && ReadPageInfo(b) == PageInfo(1, |b|, 0, page, PageCount(|sensors|, perPage),
                                           EntriesOn(|sensors|, perPage, page), EntriesBefore(|sensors|, perPage, page))
  {
    hide Describable, EntriesBytes, Numbered, PageCount, EntriesOn, StartOf, EntriesBefore, Be16, FromBe16;
    var b := PageBytes(sensors, perPage, page, groups);
    var start := StartOf(perPage, page);
    PageBounds(|sensors|, perPage, page);
    StartIsEntriesBefore(|sensors|, perPage, page);
    SmallStart(perPage, page);
    assert b[1..3] == Be16(|b|) && b[7..9] == Be16(start);
    Be16ReadsBack(|b|);
    Be16ReadsBack(start);
  }

  lemma SmallStart(perPage: nat, page: nat)
    requires perPage <= 255 && 1 <= page <= 255
    ensures StartOf(perPage, page) < 0x1_0000
  {
    MulMonotone(page - 1, 254, perPage);
  }

  /** The k-th message is the k-th page, whatever groups were known when it was made. */
  ghost predicate ArePages(sensors: seq<Named>, perPage: nat, pages: seq<seq<byte>>, groups: seq<Groups>) {
    && AllDescribable(sensors) && 1 <= perPage <= 255 && PageCount(|sensors|, perPage) <= 255
    && |pages| <= PageCount(|sensors|, perPage) && |groups| == |pages|
    && forall k :: 0 <= k < |pages| ==>
         Numbered(groups[k]) && pages[k] == PageBytes(sensors, perPage, k + 1, groups[k])
  }

  lemma AllMatchConcat(a: seq<Named>, da: seq<Described>, b: seq<Named>, db: seq<Described>)
    requires AllMatch(a, da) && AllMatch(b, db)
    ensures AllMatch(a + b, da + db)
  {
    hide Matches;
  }

  lemma PagesPrefix(sensors: seq<Named>, perPage: nat, pages: seq<seq<byte>>, groups: seq<Groups>)
    requires ArePages(sensors, perPage, pages, groups) && pages != []
    ensures ArePages(sensors, perPage, pages[..|pages| - 1], groups[..|pages| - 1])
    ensures Numbered(groups[|pages| - 1])
    ensures pages[|pages| - 1] == PageBytes(sensors, perPage, |pages|, groups[|pages| - 1])
  {
    hide PageBytes, Numbered, PageCount, AllDescribable;
  }

  lemma {:induction false} PagesReadBack(sensors: seq<Named>, perPage: nat, pages: seq<seq<byte>>, groups: seq<Groups>)
    requires ArePages(sensors, perPage, pages, groups)
    ensures ReadPages(pages).Some? && AllMatch(FirstPages(sensors, perPage, |pages|), ReadPages(pages).value)
    decreases |pages|
  {
    if pages != [] {
      hide PageBytes, Matches, Numbered, ReadPage, PageCount, AllDescribable, OnPage, EntriesOn, StartOf;
      hide AllMatch;
      var n := |pages| - 1;
      PagesPrefix(sensors, perPage, pages, groups);
      PagesReadBack(sensors, perPage, pages[..n], groups[..n]);
      PageReadsBack(sensors, perPage, n + 1, groups[n]);
      AllMatchConcat(FirstPages(sensors, perPage, n), ReadPages(pages[..n]).value,
                     OnPage(sensors, perPage, n + 1), ReadPage(pages[n]).value);
    }
  }

  lemma {:induction false} CutRecoversBlocks(sensors: seq<Named>, readings: seq<Reading>, ds: seq<Described>)
    requires AllFit(sensors, readings) && AllMatch(sensors, ds)
    ensures var r := Cut(BlocksBytes(sensors, readings), ds);
            r.Some? && |r.value| == |sensors|
            && forall k :: 0 <= k < |sensors| ==> r.value[k] == BlockBytes(sensors[k], readings[k])
    decreases |sensors|
  {
    if sensors != [] {
      var first, rest := BlockBytes(sensors[0], readings[0]), BlocksBytes(sensors[1..], readings[1..]);
      assert (first + rest)[..|first|] == first && (first + rest)[|first|..] == rest;
      assert Matches(sensors[0], ds[0]);
      CutRecoversBlocks(sensors[1..], readings[1..], ds[1..]);
    }
  }

  /** A receiver learns from the header of the data message its length and the number of sensors. */
  lemma DataInfoReadsBack(sensors: seq<Named>, readings: seq<Reading>, version: byte)
    requires AllFit(sensors, readings) && DataSize(sensors) < 0x1_0000 && |sensors| < 0x1_0000
    ensures var b := DataBytes(sensors, readings, version);
            && b[0] == 2 && FromBe16(b[1..3]) == |b| && b[3] == version
            && FromBe16(b[4..6]) == |sensors| && b[6] == 0
  {
    hide AllFit, BlocksBytes, Be16, FromBe16, SizeSum;
    var b := DataBytes(sensors, readings, version);
    assert b[1..3] == Be16(|b|) && b[4..6] == Be16(|sensors|);
    Be16ReadsBack(|b|);
    Be16ReadsBack(|sensors|);
  }

  /** A receiver that has all pages of a sensor set, and a data message of the same set, gets for the
      k-th sensor exactly the bytes its getData produced, zeros when it returned false, with nothing
      left over; the groups known when each page was made do not matter. */
  lemma ReceiverRecoversReadings(sensors: seq<Named>, bufferSize: nat, pages: seq<seq<byte>>, groups: seq<Groups>,
                                 readings: seq<Reading>, version: byte)
    requires Pageable(|sensors|, bufferSize) && ArePages(sensors, PerPage(bufferSize), pages, groups)
    requires |pages| == PageCount(|sensors|, PerPage(bufferSize))
    requires AllFit(sensors, readings) && DataSize(sensors) < 0x1_0000
    ensures var r := Receive(pages, DataBytes(sensors, readings, version));
            r.Some? && |r.value| == |sensors|
            && forall k :: 0 <= k < |sensors| ==>
                 r.value[k] == if readings[k].Some? then readings[k].value else Zeros(sensors[k].sensor.maxDataSize)
  {
    hide ReadPages, BlocksBytes, Cut, Matches, Numbered, PageBytes, PageCount, AllDescribable;
    var data := DataBytes(sensors, readings, version);
    PagesReadBack(sensors, PerPage(bufferSize), pages, groups);
    PagesPartition(sensors, bufferSize);
    assert data[1..3] == Be16(DataSize(sensors));
    Be16ReadsBack(DataSize(sensors));
    assert data[DATA_HEADER..] == BlocksBytes(sensors, readings);
    CutRecoversBlocks(sensors, readings, ReadPages(pages).value);
  }
}
