/**
 The byte layout of the two messages about sensors, the paging arithmetic, and what a receiver gets
 out of them.
 */
module SensorPages {
  import opened Arithmetic
  import opened Bytes

  const DATA_HEADER := 7
  const DESCRIPTION_HEADER := 9
  const ENTRY := 72
  const SENSOR_NAME_LENGTH := 29
  const TYPE_DESCRIPTION: byte := 1
  const TYPE_DATA: byte := 2

  /** What a sensor says about itself.  The four thresholds are the 32 bytes of four doubles as the
      host stores them. */
  datatype Sensor = Sensor(
    dataType: byte, unit: byte, maxDataSize: nat, useLower: byte, useUpper: byte,
    thresholds: seq<byte>, numberOfValues: nat, group: string, rendering: byte)

  /** One entry of the sensor map; the map is kept in its iteration order. */
  datatype Named = Named(name: seq<byte>, sensor: Sensor)

  predicate Describable(n: Named) {
    |n.sensor.thresholds| == 32 && n.sensor.maxDataSize < 0x1_0000 && n.sensor.numberOfValues < 0x1_0000
  }

  // ---------------------------------------------------------------- group ids

  type Groups = map<string, nat>

  const MAX_GROUPS := 255

  /** getGroupId: the known groups after the request, and the id. */
  function GroupRequest(groups: Groups, name: string): (Groups, nat) {
    if name == "" then (groups, 0)
    else if name in groups then (groups, groups[name])
    else if |groups| >= MAX_GROUPS then (groups, 0)
    else (groups[name := |groups| + 1], |groups| + 1)
  }

  ghost predicate InUse(groups: Groups, id: nat) {
    exists g :: g in groups && groups[g] == id
  }

  /** The ids in use are exactly 1 to the number of groups, each used once. */
  ghost predicate Numbered(groups: Groups) {
    && |groups| <= 255
    && (forall g :: g in groups ==> 1 <= groups[g] <= |groups|)
    && (forall g, h :: g in groups && h in groups && groups[g] == groups[h] ==> g == h)
    && (forall id: nat :: 1 <= id <= |groups| ==> InUse(groups, id))
  }

  lemma RequestKeepsNumbered(groups: Groups, name: string)
    requires Numbered(groups)
    ensures var (after, id) := GroupRequest(groups, name);
            && Numbered(after) && id <= 255
            && (forall g :: g in groups ==> g in after && after[g] == groups[g])
            && (id == 0 <==> name == "" || name !in after)
            && (id != 0 ==> name in after && after[name] == id)
  {
    var (after, id) := GroupRequest(groups, name);
    if name != "" && name !in groups && |groups| < MAX_GROUPS {
      assert |after| == |groups| + 1;
      forall i: nat | 1 <= i <= |after| ensures InUse(after, i) {
        if i <= |groups| {
          assert InUse(groups, i);
          var g :| g in groups && groups[g] == i;
          assert g in after && after[g] == i;
        } else {
          assert name in after && after[name] == i;
        }
      }
    }
  }

  /** The groups after a run of requests. */
  function GroupsAfter(groups: Groups, names: seq<string>): Groups
    decreases |names|
  {
    if names == [] then groups else GroupsAfter(GroupRequest(groups, names[0]).0, names[1..])
  }

  /** The id handed out for request i of a run. */
  function IdOf(groups: Groups, names: seq<string>, i: nat): nat
    requires i < |names|
  {
    GroupRequest(GroupsAfter(groups, names[..i]), names[i]).1
  }

  lemma {:induction false} GroupsAfterSnoc(groups: Groups, names: seq<string>, i: nat)
    requires i < |names|
    ensures GroupsAfter(groups, names[..i + 1]) == GroupRequest(GroupsAfter(groups, names[..i]), names[i]).0
    decreases |names|
  {
    if i == 0 {
      assert names[..1][1..] == [] && names[..0] == [];
    } else {
      var next := GroupRequest(groups, names[0]).0;
      assert names[..i + 1][1..] == names[1..][..i] && names[..i][1..] == names[1..][..i - 1];
      GroupsAfterSnoc(next, names[1..], i - 1);
    }
  }

  lemma {:induction false} RunKeepsNumbered(groups: Groups, names: seq<string>, i: nat, j: nat)
    requires Numbered(groups) && i <= j <= |names|
    ensures Numbered(GroupsAfter(groups, names[..i])) && Numbered(GroupsAfter(groups, names[..j]))
    ensures forall g :: g in GroupsAfter(groups, names[..i]) ==>
              g in GroupsAfter(groups, names[..j])
              && GroupsAfter(groups, names[..j])[g] == GroupsAfter(groups, names[..i])[g]
    decreases j
  {
    hide Numbered, GroupRequest;
    if j == 0 {
      assert names[..0] == [] && GroupsAfter(groups, []) == groups;
    } else if i < j {
      RunKeepsNumbered(groups, names, i, j - 1);
      GroupsAfterSnoc(groups, names, j - 1);
      RequestKeepsNumbered(GroupsAfter(groups, names[..j - 1]), names[j - 1]);
    } else {
      RunKeepsNumbered(groups, names, i - 1, i - 1);
      GroupsAfterSnoc(groups, names, i - 1);
      RequestKeepsNumbered(GroupsAfter(groups, names[..i - 1]), names[i - 1]);
    }
  }

  lemma IdIsKnownLater(groups: Groups, names: seq<string>, i: nat, j: nat)
    requires Numbered(groups) && i < j <= |names|
    ensures var after := GroupsAfter(groups, names[..j]);
            && Numbered(after)
            && (IdOf(groups, names, i) != 0 ==> names[i] in after && after[names[i]] == IdOf(groups, names, i))
            && (IdOf(groups, names, i) == 0 <==> names[i] == "" || names[i] !in GroupsAfter(groups, names[..i + 1]))
  {
    RunKeepsNumbered(groups, names, i, i + 1);
    RunKeepsNumbered(groups, names, i + 1, j);
    GroupsAfterSnoc(groups, names, i);
    RequestKeepsNumbered(GroupsAfter(groups, names[..i]), names[i]);
  }

  /** Over any run of requests that starts from numbered groups: the ids handed out are those of the
      groups known at the end, which are numbered 1 to their count, and two requests get the same
      nonzero id exactly when both were served and their names are equal; a request is not served
      exactly when its name is empty or the 255 ids were exhausted before it. */
  lemma SameIdExactlyForSameGroup(groups: Groups, names: seq<string>, i: nat, j: nat)
    requires Numbered(groups) && i < |names| && j < |names|
    ensures Numbered(GroupsAfter(groups, names))
    ensures IdOf(groups, names, i) == IdOf(groups, names, j) != 0 <==>
              names[i] == names[j] && IdOf(groups, names, i) != 0 && IdOf(groups, names, j) != 0
    ensures IdOf(groups, names, i) == 0 <==>
              names[i] == "" || (names[i] !in GroupsAfter(groups, names[..i])
                                  && |GroupsAfter(groups, names[..i])| == 255)
  {
    assert names[..|names|] == names;
    IdIsKnownLater(groups, names, i, |names|);
    IdIsKnownLater(groups, names, j, |names|);
    RunKeepsNumbered(groups, names, i, |names|);
  }

  // ---------------------------------------------------------------- the paging arithmetic

  /** Entries that fit a buffer; the floor of a quotient of sizes. */
  function PerPage(bufferSize: nat): nat
    requires bufferSize >= DESCRIPTION_HEADER
  {
    (bufferSize - DESCRIPTION_HEADER) / ENTRY
  }

  /** As many entries of 72 bytes as fit behind the header of 9 bytes, and not one more. */
  lemma PerPageIsLargest(bufferSize: nat)
    requires bufferSize >= 9
    ensures 9 + 72 * PerPage(bufferSize) <= bufferSize < 9 + 72 * (PerPage(bufferSize) + 1)
  {
  }

  /** The ceiling of count / perPage, at least one. */
  function PageCount(count: nat, perPage: nat): nat
    requires perPage > 0
  {
    if count == 0 then 1 else (count + perPage - 1) / perPage
  }

  function EntriesOn(count: nat, perPage: nat, page: nat): nat
    requires perPage > 0
  {
    if page < PageCount(count, perPage) then perPage
    else if count % perPage == 0 && count > 0 then perPage
    else count % perPage
  }

  function StartOf(perPage: nat, page: nat): nat
    requires page >= 1
  {
    (page - 1) * perPage
  }

  /** The buffer sizes and sensor counts for which no field of the page header wraps around. */
  predicate Pageable(count: nat, bufferSize: nat) {
    && bufferSize >= DESCRIPTION_HEADER && 1 <= PerPage(bufferSize) <= 255
    && PageCount(count, PerPage(bufferSize)) <= 255
  }

  /** Pages before p end where p starts, p ends inside the sensors, the last page ends at the count. */
  lemma PageBounds(count: nat, perPage: nat, page: nat)
    requires perPage > 0 && 1 <= page <= PageCount(count, perPage)
    ensures StartOf(perPage, page) + EntriesOn(count, perPage, page)
         == if page == PageCount(count, perPage) then count else StartOf(perPage, page + 1)
    ensures StartOf(perPage, page) + EntriesOn(count, perPage, page) <= count
    ensures EntriesOn(count, perPage, page) <= perPage
  {
    var pages := PageCount(count, perPage);
    var r := count % perPage;
    var q := count / perPage;
    assert count == q * perPage + r;
    if count > 0 {
      LastPage(count, perPage);
    }
    assert (page - 1) * perPage + perPage == page * perPage;
    if page < pages {
      MulMonotone(page, pages - 1, perPage);
    }
  }

  lemma LastPage(count: nat, perPage: nat)
    requires perPage > 0 && count > 0
    ensures var r, q, pages := count % perPage, count / perPage, PageCount(count, perPage);
            && pages == (if r == 0 then q else q + 1)
            && (pages - 1) * perPage + (if r == 0 then perPage else r) == count
  {
    var r, q := count % perPage, count / perPage;
    assert count == q * perPage + r;
    if r == 0 {
      assert q > 0;
      assert count + perPage - 1 == q * perPage + (perPage - 1);
      DivModUnique(count + perPage - 1, perPage, q, perPage - 1);
      assert (q - 1) * perPage + perPage == q * perPage;
    } else {
      assert count + perPage - 1 == (q + 1) * perPage + (r - 1);
      DivModUnique(count + perPage - 1, perPage, q + 1, r - 1);
    }
  }

  /** Entries on the pages before the given one. */
  function EntriesBefore(count: nat, perPage: nat, page: nat): nat
    requires perPage > 0 && page >= 1
  {
    if page == 1 then 0 else EntriesBefore(count, perPage, page - 1) + EntriesOn(count, perPage, page - 1)
  }

  lemma {:induction false} StartIsEntriesBefore(count: nat, perPage: nat, page: nat)
    requires perPage > 0 && 1 <= page <= PageCount(count, perPage)
    ensures StartOf(perPage, page) == EntriesBefore(count, perPage, page)
    decreases page
  {
    if page > 1 {
      StartIsEntriesBefore(count, perPage, page - 1);
      PageBounds(count, perPage, page - 1);
    }
  }

  /** The stretch of a sequence that a page covers. */
  function OnPage<T>(all: seq<T>, perPage: nat, page: nat): (r: seq<T>)
    requires perPage > 0 && 1 <= page <= PageCount(|all|, perPage)
    ensures |r| == EntriesOn(|all|, perPage, page)
    ensures forall i :: 0 <= i < |r| ==> r[i] in all
  {
    PageBounds(|all|, perPage, page);
    var start := StartOf(perPage, page);
    all[start..start + EntriesOn(|all|, perPage, page)]
  }

  /** The pages 1 to p put together. */
  function FirstPages<T>(all: seq<T>, perPage: nat, p: nat): seq<T>
    requires perPage > 0 && p <= PageCount(|all|, perPage)
  {
    if p == 0 then [] else FirstPages(all, perPage, p - 1) + OnPage(all, perPage, p)
  }

  lemma {:induction false} FirstPagesArePrefix<T>(all: seq<T>, perPage: nat, p: nat)
    requires perPage > 0 && 1 <= p <= PageCount(|all|, perPage)
    ensures StartOf(perPage, p) + EntriesOn(|all|, perPage, p) <= |all|
    ensures FirstPages(all, perPage, p) == all[..StartOf(perPage, p) + EntriesOn(|all|, perPage, p)]
    decreases p
  {
    hide PageCount, EntriesOn, StartOf;
    PageBounds(|all|, perPage, p);
    if p > 1 {
      FirstPagesArePrefix(all, perPage, p - 1);
      PageBounds(|all|, perPage, p - 1);
    } else {
      assert StartOf(perPage, 1) == 0 by { FirstStart(perPage); }
    }
  }

  lemma FirstStart(perPage: nat)
    ensures StartOf(perPage, 1) == 0
  {
  }

  /** The pages partition the sensors in order, the start index of each is the number of entries before
      it, and every page fits the buffer. */
  lemma PagesPartition<T>(all: seq<T>, bufferSize: nat)
    requires bufferSize >= DESCRIPTION_HEADER && PerPage(bufferSize) >= 1
    ensures var perPage := PerPage(bufferSize);
            var pages := PageCount(|all|, perPage);
            && FirstPages(all, perPage, pages) == all
            && forall p {:trigger OnPage(all, perPage, p)} :: 1 <= p <= pages ==>
                 && StartOf(perPage, p) == EntriesBefore(|all|, perPage, p)
                 && DESCRIPTION_HEADER + ENTRY * |OnPage(all, perPage, p)| <= bufferSize
  {
    var perPage := PerPage(bufferSize);
    var pages := PageCount(|all|, perPage);
    assert pages >= 1 by { if |all| > 0 { LastPage(|all|, perPage); } }
    FirstPagesArePrefix(all, perPage, pages);
    PageBounds(|all|, perPage, pages);
    assert all[..|all|] == all;
    forall p | 1 <= p <= pages
      ensures StartOf(perPage, p) == EntriesBefore(|all|, perPage, p)
      ensures DESCRIPTION_HEADER + ENTRY * |OnPage(all, perPage, p)| <= bufferSize
    {
      StartIsEntriesBefore(|all|, perPage, p);
      PageBounds(|all|, perPage, p);
    }
  }
}
