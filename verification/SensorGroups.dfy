/**
 The group ids a receiver sees over any run of description pages that the sensor set hands out between
 two clears.
 */
module SensorGroups {
  import opened Options
  import opened Bytes
  import opened SensorPages
  import opened SensorMessages

  /** A list of page numbers that can be requested. */
  ghost predicate Requestable(sensors: seq<Named>, perPage: nat, requests: seq<nat>) {
    && AllDescribable(sensors) && 1 <= perPage <= 255 && PageCount(|sensors|, perPage) <= 255
    && forall k :: 0 <= k < |requests| ==> 1 <= requests[k] <= PageCount(|sensors|, perPage)
  }

  /** The sensors described over a run of requests, in order. */
  ghost function Requested(sensors: seq<Named>, perPage: nat, requests: seq<nat>): (r: seq<Named>)
    requires Requestable(sensors, perPage, requests)
    ensures AllDescribable(r)
    decreases |requests|
  {
    hide Describable, PageCount;
    if requests == [] then []
    else
      var n := |requests| - 1;
      Requested(sensors, perPage, requests[..n]) + OnPage(sensors, perPage, requests[n])
  }

  /** The pages of a run: each is made with the groups that the earlier ones left known. */
  ghost function Answers(sensors: seq<Named>, perPage: nat, requests: seq<nat>): (r: seq<seq<byte>>)
    requires Requestable(sensors, perPage, requests)
    ensures |r| == |requests|
    decreases |requests|
  {
    hide Describable, PageCount, PageBytes, AllDescribable;
    if requests == [] then []
    else
      var n := |requests| - 1;
      var known := Known(Requested(sensors, perPage, requests[..n]));
      Answers(sensors, perPage, requests[..n]) + [PageBytes(sensors, perPage, requests[n], known)]
  }

  /** The groups known after the given sensors were described. */
  ghost function Known(described: seq<Named>): (r: Groups)
    ensures Numbered(r)
  {
    NoGroups();
    var names := GroupNames(described);
    RunKeepsNumbered(map[], names, 0, |names|);
    assert names[..|names|] == names;
    GroupsAfter(map[], names)
  }

  lemma KnownIs(described: seq<Named>)
    ensures Known(described) == GroupsAfter(map[], GroupNames(described))
  {
  }

  lemma NoGroups()
    ensures Numbered(map[])
  {
  }

  lemma {:induction false} EntriesConcat(a: seq<Named>, b: seq<Named>, groups: Groups)
    requires AllDescribable(a) && AllDescribable(b) && Numbered(groups)
    ensures Numbered(GroupsAfter(groups, GroupNames(a)))
    ensures EntriesBytes(a + b, groups) == EntriesBytes(a, groups) + EntriesBytes(b, GroupsAfter(groups, GroupNames(a)))
    ensures GroupsAfter(groups, GroupNames(a + b)) == GroupsAfter(GroupsAfter(groups, GroupNames(a)), GroupNames(b))
    decreases |a|
  {
    hide Describable, EntryBytes, Numbered, GroupRequest;
    if a == [] {
      assert a + b == b;
    } else {
      RequestKeepsNumbered(groups, a[0].sensor.group);
      var (after, id) := GroupRequest(groups, a[0].sensor.group);
      EntriesConcat(a[1..], b, after);
      assert (a + b)[1..] == a[1..] + b && (a + b)[0] == a[0];
      Regroup(EntryBytes(a[0], id), EntriesBytes(a[1..], after), EntriesBytes(b, GroupsAfter(after, GroupNames(a[1..]))));
      assert GroupNames(a)[1..] == GroupNames(a[1..]) && GroupNames(a + b)[1..] == GroupNames(a[1..] + b);
    }
  }

  lemma {:induction false} ReadEntriesConcat(x: seq<byte>, y: seq<byte>, n: nat, m: nat)
    requires |x| == ENTRY * n && |y| >= ENTRY * m
    ensures ReadEntries(x + y, n + m) == ReadEntries(x, n) + ReadEntries(y, m)
    decreases n
  {
    hide ReadEntry;
    if n == 0 {
      assert x + y == y;
    } else {
      assert (x + y)[..ENTRY] == x[..ENTRY] && (x + y)[ENTRY..] == x[ENTRY..] + y;
      ReadEntriesConcat(x[ENTRY..], y, n - 1, m);
    }
  }

  lemma PageEntries(sensors: seq<Named>, perPage: nat, page: nat, groups: Groups)
    requires AllDescribable(sensors) && Numbered(groups)
    requires perPage > 0 && 1 <= page <= PageCount(|sensors|, perPage) <= 255 && perPage <= 255
    ensures var on := OnPage(sensors, perPage, page);
            && AllDescribable(on)
            && ReadPage(PageBytes(sensors, perPage, page, groups)) == Some(ReadEntries(EntriesBytes(on, groups), |on|))
  {
    hide Describable, EntriesBytes, Matches, Numbered, ReadEntries, PageCount, EntriesOn;
    var b := PageBytes(sensors, perPage, page, groups);
    var on := OnPage(sensors, perPage, page);
    PageBounds(|sensors|, perPage, page);
    assert b[6] as nat == |on|;
    assert b[DESCRIPTION_HEADER..] == EntriesBytes(on, groups);
  }

  lemma LastAnswer(sensors: seq<Named>, perPage: nat, requests: seq<nat>)
    requires Requestable(sensors, perPage, requests) && requests != []
    ensures var n := |requests| - 1;
            var before := Requested(sensors, perPage, requests[..n]);
            && AllDescribable(sensors) && perPage > 0 && 1 <= requests[n] <= PageCount(|sensors|, perPage) <= 255
            && Requestable(sensors, perPage, requests[..n])
            && Requested(sensors, perPage, requests) == before + OnPage(sensors, perPage, requests[n])
            && Answers(sensors, perPage, requests)
               == Answers(sensors, perPage, requests[..n]) + [PageBytes(sensors, perPage, requests[n], Known(before))]
  {
    hide Describable, PageCount, PageBytes, AllDescribable, Numbered, OnPage;
  }

  lemma LastPageRead(pages: seq<seq<byte>>, last: seq<byte>)
    requires ReadPages(pages).Some? && ReadPage(last).Some?
    ensures ReadPages(pages + [last]) == Some(ReadPages(pages).value + ReadPage(last).value)
  {
    hide ReadPage;
    assert (pages + [last])[..|pages|] == pages;
  }

  /** The pages of a run read like one long list of entries. */
  lemma {:induction false} AnswersAreEntries(sensors: seq<Named>, perPage: nat, requests: seq<nat>)
    requires Requestable(sensors, perPage, requests)
    ensures var all := Requested(sensors, perPage, requests);
            && Numbered(map[])
            && ReadPages(Answers(sensors, perPage, requests)) == Some(ReadEntries(EntriesBytes(all, map[]), |all|))
    decreases |requests|
  {
    NoGroups();
    if requests != [] {
      hide *;
      var n := |requests| - 1;
      LastAnswer(sensors, perPage, requests);
      AnswersAreEntries(sensors, perPage, requests[..n]);
      var before, on := Requested(sensors, perPage, requests[..n]), OnPage(sensors, perPage, requests[n]);
      PageEntries(sensors, perPage, requests[n], Known(before));
      LastPageRead(Answers(sensors, perPage, requests[..n]), PageBytes(sensors, perPage, requests[n], Known(before)));
      EntriesConcat(before, on, map[]);
      assert Known(before) == GroupsAfter(map[], GroupNames(before)) by { KnownIs(before); }
      ReadEntriesConcat(EntriesBytes(before, map[]), EntriesBytes(on, Known(before)), |before|, |on|);
    }
  }

  // ---------------------------------------------------------------- no more groups than names

  ghost function NamesIn(names: seq<string>): set<string> {
    set i | 0 <= i < |names| && names[i] != "" :: names[i]
  }

  lemma {:induction false} KnownAreNamed(names: seq<string>, i: nat)
    requires i <= |names|
    ensures GroupsAfter(map[], names[..i]).Keys <= NamesIn(names)
    decreases i
  {
    if i > 0 {
      KnownAreNamed(names, i - 1);
      GroupsAfterSnoc(map[], names, i - 1);
    } else {
      assert names[..0] == [];
    }
  }

  lemma SubsetSize<T>(a: set<T>, b: set<T>)
    requires a <= b
    ensures |a| <= |b|
  {
    assert |a| + |b - a| == |b| by { assert b == a + (b - a); }
  }

  lemma ServedUnlessUnnamed(names: seq<string>, i: nat)
    requires i < |names| && |NamesIn(names)| <= 255 && Numbered(map[])
    ensures IdOf(map[], names, i) == 0 <==> names[i] == ""
  {
    hide NamesIn;
    SameIdExactlyForSameGroup(map[], names, i, i);
    var known := GroupsAfter(map[], names[..i]);
    if names[i] != "" && names[i] !in known {
      KnownAreNamed(names, i);
      assert names[i] in NamesIn(names) by { NameIsIn(names, i); }
      SubsetSize(known.Keys + {names[i]}, NamesIn(names));
      assert |known.Keys| == |known|;
    }
  }

  lemma NameIsIn(names: seq<string>, i: nat)
    requires i < |names| && names[i] != ""
    ensures names[i] in NamesIn(names)
  {
  }

  /** Over any run of page requests since the last clear, in any order and with repeats, when the
      sensors described have at most 255 distinct groups: the receiver reads one entry for each sensor
      described, its group id is 0 exactly for a sensor without group, and two entries have the same
      nonzero id exactly when their groups have the same nonempty name. */
  lemma ReceivedIdsAreGroups(sensors: seq<Named>, perPage: nat, requests: seq<nat>, i: nat, j: nat)
    requires Requestable(sensors, perPage, requests)
    requires var all := Requested(sensors, perPage, requests);
             |NamesIn(GroupNames(all))| <= 255 && i < |all| && j < |all|
    ensures var all := Requested(sensors, perPage, requests);
            var read := ReadPages(Answers(sensors, perPage, requests));
            && read.Some? && |read.value| == |all|
            && (read.value[i].groupId == 0 <==> all[i].sensor.group == "")
            && (read.value[i].groupId == read.value[j].groupId != 0 <==>
                  all[i].sensor.group == all[j].sensor.group != "")
  {
    hide Requestable, Requested, Answers, NamesIn, EntriesBytes, ReadEntries, Describable, IdOf, Numbered;
    var all := Requested(sensors, perPage, requests);
    AnswersAreEntries(sensors, perPage, requests);
    EntryCarriesGroupId(all, map[], i);
    EntryCarriesGroupId(all, map[], j);
    var names := GroupNames(all);
    SameIdExactlyForSameGroup(map[], names, i, j);
    ServedUnlessUnnamed(names, i);
    ServedUnlessUnnamed(names, j);
  }
}
