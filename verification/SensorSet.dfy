/**
 The sensor set of the daemon: it fills its own data buffer and the buffers of description pages at a
 moving offset, and hands out group ids.
 */
module SensorSets {
  import opened Options
  import opened Bytes
  import opened SensorPages
  import opened SensorMessages

  class SensorSet {
    var sensors: seq<Named>
    var knownGroups: Groups
    var size: nat
    var data: array<byte>

    /** Enough for description pages, with the sensors of the construction or with none. */
    ghost predicate CanDescribe()
      reads this
    {
      AllDescribable(sensors) && Numbered(knownGroups) && |sensors| < 0x1_0000
    }

    /** The sensors are those of the construction, and the buffer has room for them. */
    ghost predicate Valid()
      reads this
    {
      CanDescribe() && size == DataSize(sensors) == data.Length && size < 0x1_0000
    }

    /** The size computation of the constructor; finding and configuring sensors is left out. */
    constructor (sensors: seq<Named>)
      requires AllDescribable(sensors) && DataSize(sensors) < 0x1_0000 && |sensors| < 0x1_0000
      ensures Valid() && fresh(data) && this.sensors == sensors && knownGroups == map[]
    {
      this.sensors, this.knownGroups := sensors, map[];
      var total := DATA_HEADER;
      var i := 0;
      assert sensors[0..] == sensors;
      while i < |sensors|
        invariant i <= |sensors| && total + SizeSum(sensors[i..]) == DataSize(sensors)
      {
        assert sensors[i..][0] == sensors[i] && sensors[i..][1..] == sensors[i + 1..];
        total := total + sensors[i].sensor.maxDataSize;
        i := i + 1;
      }
      size := total;
      data := new byte[total];
      new;
      NoGroupsNumbered();
    }

    /** getGroupId. */
    method GetGroupId(name: string) returns (id: byte)
      requires CanDescribe()
      modifies this`knownGroups
      ensures CanDescribe() && (knownGroups, id as nat) == GroupRequest(old(knownGroups), name)
    {
      hide Numbered, AllDescribable, DataSize;
      RequestKeepsNumbered(knownGroups, name);
      if name == "" {
        return 0;
      }
      if name in knownGroups {
        return knownGroups[name];
      }
      if |knownGroups| >= 255 {
        return 0;
      }
      id := |knownGroups| + 1;
      knownGroups := knownGroups[name := id];
    }

    /** getMessage: the whole buffer but the version byte of the header, which is never written. */
    method GetMessage(readings: seq<Reading>) returns (message: array<byte>)
      requires Valid() && AllFit(sensors, readings)
      modifies data
      ensures Valid() && message == data
      ensures data[..] == DataBytes(sensors, readings, old(data[3]))
    {
      hide Numbered, AllDescribable;
      ghost var version := data[3];
      Copy(data, 0, [TYPE_DATA] + Be16(size));
      Copy(data, 4, Be16(|sensors|) + [0]);
      ghost var header := [TYPE_DATA] + Be16(size) + [version] + Be16(|sensors|) + [0];
      assert data[..DATA_HEADER] == header;
      FillBlocks(readings);
      assert data[..] == header + BlocksBytes(sensors, readings);
      return data;
    }

    /** The loop of getMessage. */
    method FillBlocks(readings: seq<Reading>)
      requires Valid() && AllFit(sensors, readings)
      modifies data
      ensures data[..] == old(data[..DATA_HEADER]) + BlocksBytes(sensors, readings)
    {
      hide Numbered, AllDescribable, BlocksBytes, SizeSum, Fits;
      var offset: nat := DATA_HEADER;
      var i := 0;
      ghost var header := data[..DATA_HEADER];
      ghost var blocks := BlocksBytes(sensors, readings);
      assert header + blocks == header + BlocksBytes(sensors[0..], readings[0..]) by {
        assert sensors[0..] == sensors && readings[0..] == readings;
      }
      assert sensors[0..] == sensors;
      while i < |sensors|
        invariant i <= |sensors| && offset <= data.Length
        invariant offset + SizeSum(sensors[i..]) == data.Length
        invariant data[..offset] + BlocksBytes(sensors[i..], readings[i..]) == header + blocks
      {
        var length := sensors[i].sensor.maxDataSize;
        BlocksUnfold(sensors, readings, i, data[..offset]);
        ghost var done := data[..offset];
        var block := if readings[i].Some? then readings[i].value else Zeros(length);
        Copy(data, offset, block);
        assert data[..offset + length] == done + block;
        offset := offset + length;
        i := i + 1;
      }
      NoBlocks(sensors, readings, data[..offset]);
      assert data[..offset] == data[..];
    }

    /** The numbers at the head of getDescriptionPage. */
    method PageNumbers(bufferSize: nat, page: byte)
      returns (sensorsPerPage: byte, maxPages: byte, sensorsOnPage: byte, startingSensor: nat)
      requires Pageable(|sensors|, bufferSize) && 1 <= page <= PageCount(|sensors|, PerPage(bufferSize))
      ensures sensorsPerPage as nat == PerPage(bufferSize) && maxPages as nat == PageCount(|sensors|, PerPage(bufferSize))
      ensures sensorsOnPage as nat == EntriesOn(|sensors|, PerPage(bufferSize), page as nat)
      ensures startingSensor == StartOf(PerPage(bufferSize), page as nat)
      ensures startingSensor + sensorsOnPage as nat <= |sensors|
      ensures DESCRIPTION_HEADER + ENTRY * sensorsOnPage as nat <= bufferSize
    {
      sensorsPerPage := PerPage(bufferSize);
      maxPages := PageCount(|sensors|, sensorsPerPage as nat);
      PageBounds(|sensors|, sensorsPerPage as nat, page as nat);
      sensorsOnPage := 0;
      if page < maxPages {
        sensorsOnPage := sensorsPerPage;
      } else {
        sensorsOnPage := |sensors| % sensorsPerPage as nat;
        if sensorsOnPage == 0 && |sensors| > 0 {
          sensorsOnPage := sensorsPerPage;
        }
      }
      startingSensor := (page as nat - 1) * sensorsPerPage as nat;
    }

    /** getDescriptionPage, on a buffer of bufferSize bytes. */
    method GetDescriptionPage(buffer: array<byte>, bufferSize: nat, page: byte) returns (length: nat, maxPages: byte)
      requires CanDescribe() && buffer != data && bufferSize <= buffer.Length && Pageable(|sensors|, bufferSize)
      requires 1 <= page <= PageCount(|sensors|, PerPage(bufferSize))
      modifies buffer, this`knownGroups
      ensures CanDescribe() && maxPages as nat == PageCount(|sensors|, PerPage(bufferSize))
      ensures length <= bufferSize
      ensures buffer[..length] == PageBytes(sensors, PerPage(bufferSize), page, old(knownGroups))
      ensures buffer[length..] == old(buffer[length..])
      ensures knownGroups == GroupsAfter(old(knownGroups), GroupNames(OnPage(sensors, PerPage(bufferSize), page as nat)))
    {
      hide GroupsAfter, Numbered, AllDescribable, DataSize, Be16, PageHeader;
      hide PageCount, EntriesOn, StartOf, PerPage, EntriesBytes;
      OnPageDescribable(sensors, OnPage(sensors, PerPage(bufferSize), page as nat));
      var perPage, onPage, start;
      perPage, maxPages, onPage, start := PageNumbers(bufferSize, page);
      ghost var entries := EntriesBytes(OnPage(sensors, perPage as nat, page as nat), knownGroups);
      length := FillEntries(buffer, start, onPage as nat);
      assert buffer[DESCRIPTION_HEADER..length] == entries;
      UnfoldHeader(|sensors|, perPage as nat, page as nat);
      WriteHeader(buffer, length, page, maxPages, onPage, start);
    }

    /** The end of getDescriptionPage: the header in front of the entries. */
    method WriteHeader(buffer: array<byte>, length: nat, page: byte, maxPages: byte, onPage: byte, start: nat)
      requires DESCRIPTION_HEADER <= length <= buffer.Length
      modifies buffer
      ensures buffer[..length] == [TYPE_DESCRIPTION] + Be16(length) + [0, page, maxPages, onPage] + Be16(start)
                                  + old(buffer[DESCRIPTION_HEADER..length])
      ensures buffer[length..] == old(buffer[length..])
    {
      hide Be16, Overlay;
      var header := [TYPE_DESCRIPTION] + Be16(length) + [0, page, maxPages, onPage] + Be16(start);
      OverlayParts(buffer[..], 0, header, DESCRIPTION_HEADER, length);
      Copy(buffer, 0, header);
    }

    /** One entry of the page: its group id is requested as it is written. */
    method WriteEntry(buffer: array<byte>, offset: nat, n: Named)
      requires CanDescribe() && buffer != data && offset + ENTRY <= buffer.Length && Describable(n)
      modifies buffer, this`knownGroups
      ensures CanDescribe()
      ensures var (after, id) := GroupRequest(old(knownGroups), n.sensor.group);
              && knownGroups == after && id < 256
              && buffer[..] == Overlay(old(buffer[..]), offset, EntryBytes(n, id))
    {
      hide Numbered, Describable, EntryBytes, Overlay, AllDescribable, DataSize;
      var groupId := GetGroupId(n.sensor.group);
      Copy(buffer, offset, EntryBytes(n, groupId));
    }

    /** The two loops of getDescriptionPage: skip to the first sensor of the page, write an entry for
        each sensor on it. */
    method FillEntries(buffer: array<byte>, startingSensor: nat, sensorsOnPage: nat) returns (offset: nat)
      requires CanDescribe() && buffer != data && startingSensor + sensorsOnPage <= |sensors|
      requires DESCRIPTION_HEADER + ENTRY * sensorsOnPage <= buffer.Length
      modifies buffer, this`knownGroups
      ensures CanDescribe() && offset == DESCRIPTION_HEADER + ENTRY * sensorsOnPage
      ensures AllDescribable(sensors[startingSensor..startingSensor + sensorsOnPage])
      ensures buffer[DESCRIPTION_HEADER..offset] ==
              EntriesBytes(sensors[startingSensor..startingSensor + sensorsOnPage], old(knownGroups))
      ensures buffer[offset..] == old(buffer[offset..])
      ensures knownGroups == GroupsAfter(old(knownGroups),
                                         GroupNames(sensors[startingSensor..startingSensor + sensorsOnPage]))
    {
      hide GroupsAfter, Numbered, AllDescribable, Describable, EntryBytes, EntriesBytes, Overlay, DataSize, GroupRequest;
      ghost var on := sensors[startingSensor..startingSensor + sensorsOnPage];
      OnPageDescribable(sensors, on);
      ghost var all := EntriesBytes(on, knownGroups);
      ghost var was := buffer[..];
      offset := DESCRIPTION_HEADER;
      var it := 0;
      for i := 0 to startingSensor
        invariant it == i
      {
        it := it + 1;
      }
      var i := startingSensor;
      assert on[0..] == on && [] + all == all;
      while i < startingSensor + sensorsOnPage
        invariant startingSensor <= i <= startingSensor + sensorsOnPage && it == i && CanDescribe()
        invariant offset == DESCRIPTION_HEADER + ENTRY * (i - startingSensor)
        invariant AllDescribable(on[i - startingSensor..])
        invariant GroupsAfter(knownGroups, GroupNames(on[i - startingSensor..]))
                  == GroupsAfter(old(knownGroups), GroupNames(on))
        invariant buffer[DESCRIPTION_HEADER..offset] + EntriesBytes(on[i - startingSensor..], knownGroups) == all
        invariant buffer[offset..] == was[offset..]
      {
        ghost var mem := buffer[..];
        EntriesUnfold(on, i - startingSensor, knownGroups, buffer[DESCRIPTION_HEADER..offset]);
        ghost var id := GroupRequest(knownGroups, sensors[it].sensor.group).1;
        OverlayParts(mem, offset, EntryBytes(sensors[it], id), DESCRIPTION_HEADER, buffer.Length);
        WriteEntry(buffer, offset, sensors[it]);
        it := it + 1;
        offset := offset + ENTRY;
        i := i + 1;
      }
      NoEntries(on, knownGroups, buffer[DESCRIPTION_HEADER..offset]);
    }

    /** clear: no sensors and no groups are left; the size and the data buffer stay as they were. */
    method Clear()
      modifies this`sensors, this`knownGroups
      ensures sensors == [] && knownGroups == map[] && CanDescribe()
    {
      sensors := [];
      knownGroups := map[];
      NoGroupsNumbered();
    }
  }

  lemma EntriesUnfold(on: seq<Named>, k: nat, groups: Groups, done: seq<byte>)
    requires k < |on| && AllDescribable(on[k..]) && Numbered(groups)
    ensures Describable(on[k]) && AllDescribable(on[k + 1..])
    ensures var (after, id) := GroupRequest(groups, on[k].sensor.group);
            && Numbered(after) && id < 256
            && GroupsAfter(groups, GroupNames(on[k..])) == GroupsAfter(after, GroupNames(on[k + 1..]))
            && done + EntriesBytes(on[k..], groups) == done + EntryBytes(on[k], id) + EntriesBytes(on[k + 1..], after)
  {
    hide Numbered, Describable, EntryBytes, GroupRequest;
    assert on[k..][0] == on[k] && on[k..][1..] == on[k + 1..];
    assert GroupNames(on[k..])[1..] == GroupNames(on[k + 1..]);
    RequestKeepsNumbered(groups, on[k].sensor.group);
    var (after, id) := GroupRequest(groups, on[k].sensor.group);
    Regroup(done, EntryBytes(on[k], id), EntriesBytes(on[k + 1..], after));
  }

  lemma NoEntries(on: seq<Named>, groups: Groups, done: seq<byte>)
    requires Numbered(groups)
    ensures GroupsAfter(groups, GroupNames(on[|on|..])) == groups
    ensures AllDescribable(on[|on|..]) && done + EntriesBytes(on[|on|..], groups) == done
  {
    hide Numbered;
    assert on[|on|..] == [] && done + [] == done;
  }

  lemma OnPageDescribable(sensors: seq<Named>, on: seq<Named>)
    requires AllDescribable(sensors) && forall i :: 0 <= i < |on| ==> on[i] in sensors
    ensures AllDescribable(on)
  {
    hide Describable;
  }

  lemma BlocksUnfold(sensors: seq<Named>, readings: seq<Reading>, i: nat, done: seq<byte>)
    requires AllFit(sensors, readings) && i < |sensors|
    ensures Fits(sensors[i], readings[i])
    ensures var block := BlockBytes(sensors[i], readings[i]);
            done + BlocksBytes(sensors[i..], readings[i..])
            == done + block + BlocksBytes(sensors[i + 1..], readings[i + 1..])
    ensures SizeSum(sensors[i..]) == sensors[i].sensor.maxDataSize + SizeSum(sensors[i + 1..])
  {
    assert sensors[i..][0] == sensors[i] && sensors[i..][1..] == sensors[i + 1..];
    assert readings[i..][0] == readings[i] && readings[i..][1..] == readings[i + 1..];
    Regroup(done, BlockBytes(sensors[i], readings[i]), BlocksBytes(sensors[i + 1..], readings[i + 1..]));
  }

  lemma NoBlocks(sensors: seq<Named>, readings: seq<Reading>, done: seq<byte>)
    requires AllFit(sensors, readings)
    ensures SizeSum(sensors[|sensors|..]) == 0
    ensures done + BlocksBytes(sensors[|sensors|..], readings[|sensors|..]) == done
  {
    assert done + [] == done;
  }

  lemma NoGroupsNumbered()
    ensures Numbered(map[])
  {
  }

  lemma UnfoldHeader(count: nat, perPage: nat, page: nat)
    requires perPage > 0 && 1 <= page <= PageCount(count, perPage) <= 255 && perPage <= 255
    ensures EntriesOn(count, perPage, page) <= perPage
    ensures PageHeader(count, perPage, page) ==
            [TYPE_DESCRIPTION] + Be16(DESCRIPTION_HEADER + ENTRY * EntriesOn(count, perPage, page))
            + [0, page, PageCount(count, perPage), EntriesOn(count, perPage, page)] + Be16(StartOf(perPage, page))
  {
    PageBounds(count, perPage, page);
  }
}
