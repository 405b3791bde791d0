/**
 * The popup of js/popup.js: its copy of the duplicate key, the duplicate
 * groups it lists, the cleanup that keeps the first tab of every group, the
 * backup payload and file name, and the "tab"/"tabs" wording.
 */
module Popup {
  import opened Wrappers
  import opened Text
  import opened Browser
  import Grouping
  import Background

  // ---------------------------------------------------------------------------
  // The popup's copy of the key

  /** The key of a tab URL as the popup derives it; None when the tab is skipped. */
  function NormalizedKey(parse: Parser, url: Option<string>): (k: Option<string>)
    ensures k.None? <==> url.None? || url.value == "" || url.value == NewTabUrl || parse(url.value).None?
  {
    if url.None? || url.value == "" || url.value == NewTabUrl then None
    else
      match parse(url.value)
      case None => None
      case Some(u) =>
        var query := u.q;
        Some(
          if Contains(u.hostname, "google.com") then
            u.origin + u.pathname + (if query.Some? && query.value != "" then "?q=" + query.value else "")
          else
            u.origin + u.pathname + u.search)
  }

  function KeyOf(parse: Parser): Grouping.KeyFn {
    (t: Tab) => NormalizedKey(parse, t.url)
  }

  /** The popup and the background derive the same key from every URL. */
  lemma KeysAgree(parse: Parser, url: Option<string>)
    ensures NormalizedKey(parse, url) == Background.NormalizedKey(parse, url)
  {
  }

  /** Hence they group every tab list alike. */
  lemma GroupingAgrees(tabs: seq<Tab>, parse: Parser)
    ensures Grouping.FirstOccurrence(tabs, KeyOf(parse)) == Grouping.FirstOccurrence(tabs, Background.KeyOf(parse))
    ensures Grouping.GroupMap(tabs, KeyOf(parse)) == Grouping.GroupMap(tabs, Background.KeyOf(parse))
    ensures Grouping.DuplicateTotal(tabs, KeyOf(parse)) == Background.DuplicateTotal(tabs, parse)
  {
    forall i | 0 <= i < |tabs| ensures KeyOf(parse)(tabs[i]) == Background.KeyOf(parse)(tabs[i]) {
      KeysAgree(parse, tabs[i].url);
    }
    Grouping.SameKeysSameGrouping(tabs, KeyOf(parse), Background.KeyOf(parse));
  }

  // ---------------------------------------------------------------------------
  // Duplicate groups

  datatype DuplicateGroup = DuplicateGroup(url: string, tabs: seq<Tab>)

  function Urls(gs: seq<DuplicateGroup>): seq<string> {
    seq(|gs|, i requires 0 <= i < |gs| => gs[i].url)
  }

  /**
   * The filter and map at the end of `getDuplicateGroups`: the entries of the
   * map that hold more than one tab, in the map's key order.
   */
  function DuplicateGroups(keys: seq<string>, groups: map<string, seq<Tab>>): (r: seq<DuplicateGroup>)
    requires forall k :: k in keys ==> k in groups
    ensures forall i :: 0 <= i < |r| ==>
      r[i].url in keys && r[i].url in groups && r[i].tabs == groups[r[i].url] && |r[i].tabs| > 1
    ensures forall k :: k in keys && |groups[k]| > 1 ==> k in Urls(r)
    ensures Grouping.IsSubsequence(Urls(r), keys)
  {
    if keys == [] then []
    else
      var front := keys[..|keys| - 1];
      var k := keys[|keys| - 1];
      var r := DuplicateGroups(front, groups);
      assert keys == front + [k];
      Grouping.SubsequenceExtend(Urls(r), front, k);
      if |groups[k]| > 1 then
        var g := DuplicateGroup(k, groups[k]);
        assert Urls(r + [g]) == Urls(r) + [k];
        r + [g]
      else
        r
  }

  /** The duplicate groups of a tab list under a key function. */
  function GroupsBy(tabs: seq<Tab>, key: Grouping.KeyFn): (r: seq<DuplicateGroup>)
    ensures forall i :: 0 <= i < |r| ==>
      |r[i].tabs| >= 2 && r[i].tabs == Grouping.TabsWithKey(tabs, key, r[i].url)
    ensures forall k :: |Grouping.TabsWithKey(tabs, key, k)| >= 2 ==> k in Urls(r)
    ensures Grouping.IsSubsequence(Urls(r), Grouping.FirstOccurrence(tabs, key))
  {
    Grouping.FirstOccurrenceMembers(tabs, key);
    forall k | |Grouping.TabsWithKey(tabs, key, k)| >= 2
      ensures k in Grouping.FirstOccurrence(tabs, key)
    {
      Grouping.TabsWithKeyEmpty(tabs, key, k);
    }
    DuplicateGroups(Grouping.FirstOccurrence(tabs, key), Grouping.GroupMap(tabs, key))
  }

  /** The duplicate groups of a tab list, as the popup derives them. */
  function Groups(tabs: seq<Tab>, parse: Parser): seq<DuplicateGroup> {
    GroupsBy(tabs, KeyOf(parse))
  }

  /** `getDuplicateGroups`: group the tabs, then keep the groups of two or more. */
  method GetDuplicateGroups(tabs: seq<Tab>, parse: Parser) returns (gs: seq<DuplicateGroup>)
    ensures gs == Groups(tabs, parse)
  {
    var keys, groups := Grouping.BuildUrlMap(tabs, KeyOf(parse));
    gs := DuplicateGroups(keys, groups);
  }

  // ---------------------------------------------------------------------------
  // Cleanup

  function Ids(tabs: seq<Tab>): seq<int> {
    seq(|tabs|, i requires 0 <= i < |tabs| => tabs[i].id)
  }

  /** The `chrome.tabs.remove` argument for each group: every tab but the first. */
  function RemovalRequests(gs: seq<DuplicateGroup>): seq<seq<int>> {
    seq(|gs|, i requires 0 <= i < |gs| => Ids(Grouping.Tail(gs[i].tabs)))
  }

  /** The tab ids named by a list of removal requests. */
  function RequestedIds(requests: seq<seq<int>>): set<int> {
    if requests == [] then {}
    else
      var last := requests[|requests| - 1];
      RequestedIds(requests[..|requests| - 1]) + set i | 0 <= i < |last| :: last[i]
  }

  lemma {:induction false} RequestedIdsMembers(requests: seq<seq<int>>, x: int)
    ensures x in RequestedIds(requests) <==> exists i :: 0 <= i < |requests| && x in requests[i]
  {
    if requests != [] {
      var front := requests[..|requests| - 1];
      RequestedIdsMembers(front, x);
      if x in RequestedIds(front) {
        var i :| 0 <= i < |front| && x in front[i];
        assert x in requests[i];
      }
      if exists i :: 0 <= i < |requests| && x in requests[i] {
        var i :| 0 <= i < |requests| && x in requests[i];
        if i < |front| {
          assert x in front[i];
        }
      }
    }
  }

  /** The number of tabs the requests for `gs` remove. */
  function RemovedTotal(gs: seq<DuplicateGroup>): nat {
    if gs == [] then 0
    else RemovedTotal(gs[..|gs| - 1]) + |Grouping.Tail(gs[|gs| - 1].tabs)|
  }

  datatype CleanupOutcome = Completed(removedCount: nat) | Failed(error: string)

  /**
   * The loop of `cleanupDuplicates`: for each duplicate group in order, ask
   * the host to remove every tab but the first and add their number to the
   * count. The host's answer to a removal is `removeTabs(ids)`: None for
   * success, Some(message) for a failure, which ends the loop.
   */
  method RemoveDuplicateGroups(gs: seq<DuplicateGroup>, removeTabs: seq<int> -> Option<string>)
    returns (requests: seq<seq<int>>, outcome: CleanupOutcome)
    ensures requests <= RemovalRequests(gs)
    ensures outcome.Completed? ==>
      && requests == RemovalRequests(gs)
      && outcome.removedCount == RemovedTotal(gs)
      && forall i :: 0 <= i < |requests| ==> removeTabs(requests[i]).None?
    ensures outcome.Failed? ==>
      && requests != []
      && removeTabs(requests[|requests| - 1]) == Some(outcome.error)
      && forall i :: 0 <= i < |requests| - 1 ==> removeTabs(requests[i]).None?
  {
    requests := [];
    var removedCount := 0;
    var i := 0;
    while i < |gs|
      invariant 0 <= i <= |gs|
      invariant requests == RemovalRequests(gs)[..i]
      invariant removedCount == RemovedTotal(gs[..i])
      invariant forall j :: 0 <= j < |requests| ==> removeTabs(requests[j]).None?
    {
      var toRemove := Ids(Grouping.Tail(gs[i].tabs));
      assert RemovalRequests(gs)[..i + 1] == RemovalRequests(gs)[..i] + [toRemove];
      requests := requests + [toRemove];
      var err := removeTabs(toRemove);
      if err.Some? {
        outcome := Failed(err.value);
        return;
      }
      assert gs[..i + 1][..i] == gs[..i];
      removedCount := removedCount + |toRemove|;
      i := i + 1;
    }
    assert gs[..|gs|] == gs;
    outcome := Completed(removedCount);
  }

  /** `cleanupDuplicates`: derive the groups afresh, then remove all but the first tab of each. */
  method CleanupDuplicates(tabs: seq<Tab>, parse: Parser, removeTabs: seq<int> -> Option<string>)
    returns (requests: seq<seq<int>>, outcome: CleanupOutcome)
    ensures requests <= RemovalRequests(Groups(tabs, parse))
    ensures outcome.Completed? ==>
      requests == RemovalRequests(Groups(tabs, parse)) && outcome.removedCount == Background.DuplicateTotal(tabs, parse)
    ensures outcome.Failed? ==> requests != [] && removeTabs(requests[|requests| - 1]) == Some(outcome.error)
  {
    var gs := GetDuplicateGroups(tabs, parse);
    requests, outcome := RemoveDuplicateGroups(gs, removeTabs);
    CleanupCountMatchesBadge(tabs, parse);
  }

  /** The count of removed tabs is the excess of the grouping it came from. */
  lemma {:induction false} RemovedTotalIsExcess(keys: seq<string>, groups: map<string, seq<Tab>>)
    requires forall k :: k in keys ==> k in groups
    ensures RemovedTotal(DuplicateGroups(keys, groups)) == Grouping.Excess(keys, groups)
  {
    if keys != [] {
      var front := keys[..|keys| - 1];
      var k := keys[|keys| - 1];
      RemovedTotalIsExcess(front, groups);
      var r := DuplicateGroups(front, groups);
      if |groups[k]| > 1 {
        var g := DuplicateGroup(k, groups[k]);
        assert (r + [g])[..|r|] == r;
      }
    }
  }

  /** A completed cleanup removes as many tabs as the badge counts for the same tab list. */
  lemma CleanupCountMatchesBadge(tabs: seq<Tab>, parse: Parser)
    ensures RemovedTotal(Groups(tabs, parse)) == Background.DuplicateTotal(tabs, parse)
  {
    var key := KeyOf(parse);
    RemovedTotalIsExcess(Grouping.FirstOccurrence(tabs, key), Grouping.GroupMap(tabs, key));
    GroupingAgrees(tabs, parse);
  }

  /** A group with distinct ids splits into its first tab and the rest, with the first tab's id not among the rest. */
  lemma {:induction false} GroupSplits(g: seq<Tab>)
    requires |g| >= 2 && DistinctIds(g)
    ensures g == [g[0]] + Grouping.Tail(g) && g[0].id !in Ids(Grouping.Tail(g))
  {
    var tail := Grouping.Tail(g);
    forall p | 0 <= p < |tail| ensures Ids(tail)[p] != g[0].id {
      assert tail[p] == g[p + 1];
    }
  }

  /** Each group splits into the kept first tab and the removed rest, and the two are disjoint. */
  lemma GroupSplitsIntoKeptAndRemoved(tabs: seq<Tab>, parse: Parser)
    requires DistinctIds(tabs)
    ensures forall g :: g in Groups(tabs, parse) ==>
      |g.tabs| >= 2 && g.tabs == [g.tabs[0]] + Grouping.Tail(g.tabs) && g.tabs[0].id !in Ids(Grouping.Tail(g.tabs))
  {
    var gs := Groups(tabs, parse);
    forall g | g in gs
      ensures |g.tabs| >= 2 && g.tabs == [g.tabs[0]] + Grouping.Tail(g.tabs) && g.tabs[0].id !in Ids(Grouping.Tail(g.tabs))
    {
      var m :| 0 <= m < |gs| && gs[m] == g;
      assert g.tabs == Grouping.TabsWithKey(tabs, KeyOf(parse), g.url) && |g.tabs| >= 2;
      Grouping.TabsWithKeyIds(tabs, KeyOf(parse), g.url);
      GroupSplits(g.tabs);
    }
  }

  /** A tab whose key already occurred earlier is named by a removal request. */
  lemma LaterOccurrenceRemoved(tabs: seq<Tab>, key: Grouping.KeyFn, j: nat)
    requires j < |tabs| && key(tabs[j]).Some?
    requires Grouping.EarlierWithKey(tabs, key, key(tabs[j]).value, j)
    ensures tabs[j].id in RequestedIds(RemovalRequests(GroupsBy(tabs, key)))
  {
    var gs := GroupsBy(tabs, key);
    var reqs := RemovalRequests(gs);
    var k := key(tabs[j]).value;
    Grouping.LaterOccurrences(tabs, key, k);
    var tail := Grouping.Tail(Grouping.TabsWithKey(tabs, key, k));
    assert tabs[j] in tail;
    assert k in Urls(gs);
    var m :| 0 <= m < |gs| && gs[m].url == k;
    assert gs[m].tabs == Grouping.TabsWithKey(tabs, key, k);
    var p :| 0 <= p < |tail| && tail[p] == tabs[j];
    assert reqs[m] == Ids(tail);
    assert reqs[m][p] == tabs[j].id;
    RequestedIdsMembers(reqs, tabs[j].id);
  }

  /** With distinct ids, a tab named by a removal request has an earlier tab with its key. */
  lemma RemovedIsLaterOccurrence(tabs: seq<Tab>, key: Grouping.KeyFn, j: nat)
    requires DistinctIds(tabs)
    requires j < |tabs|
    requires tabs[j].id in RequestedIds(RemovalRequests(GroupsBy(tabs, key)))
    ensures key(tabs[j]).Some? && Grouping.EarlierWithKey(tabs, key, key(tabs[j]).value, j)
  {
    var gs := GroupsBy(tabs, key);
    var reqs := RemovalRequests(gs);
    RequestedIdsMembers(reqs, tabs[j].id);
    var m :| 0 <= m < |reqs| && tabs[j].id in reqs[m];
    var k := gs[m].url;
    var tail := Grouping.Tail(gs[m].tabs);
    assert reqs[m] == Ids(tail);
    var p :| 0 <= p < |tail| && reqs[m][p] == tabs[j].id;
    var t := tail[p];
    assert gs[m].tabs == Grouping.TabsWithKey(tabs, key, k);
    assert t in Grouping.Tail(Grouping.TabsWithKey(tabs, key, k));
    assert t.id == tabs[j].id;
    Grouping.LaterOccurrences(tabs, key, k);
    var j' :| 0 <= j' < |tabs| && tabs[j'] == t && key(t) == Some(k) && Grouping.EarlierWithKey(tabs, key, k, j');
    assert j' == j;
  }

  /**
   * With distinct tab ids, a completed cleanup removes a tab exactly when an
   * earlier tab has the same key: the first tab of every key survives.
   */
  lemma CleanupRemovesLaterOccurrences(tabs: seq<Tab>, parse: Parser)
    requires DistinctIds(tabs)
    ensures forall j :: 0 <= j < |tabs| ==>
      (tabs[j].id in RequestedIds(RemovalRequests(Groups(tabs, parse))) <==>
       KeyOf(parse)(tabs[j]).Some? && Grouping.EarlierWithKey(tabs, KeyOf(parse), KeyOf(parse)(tabs[j]).value, j))
  {
    forall j | 0 <= j < |tabs|
      ensures tabs[j].id in RequestedIds(RemovalRequests(Groups(tabs, parse))) <==>
              KeyOf(parse)(tabs[j]).Some? && Grouping.EarlierWithKey(tabs, KeyOf(parse), KeyOf(parse)(tabs[j]).value, j)
    {
      if KeyOf(parse)(tabs[j]).Some? && Grouping.EarlierWithKey(tabs, KeyOf(parse), KeyOf(parse)(tabs[j]).value, j) {
        LaterOccurrenceRemoved(tabs, KeyOf(parse), j);
      }
      if tabs[j].id in RequestedIds(RemovalRequests(Groups(tabs, parse))) {
        RemovedIsLaterOccurrence(tabs, KeyOf(parse), j);
      }
    }
  }

  /** After a completed cleanup no two remaining tabs share a key. */
  lemma NoDuplicateSurvivesCleanup(tabs: seq<Tab>, parse: Parser)
    requires DistinctIds(tabs)
    ensures var removed := RequestedIds(RemovalRequests(Groups(tabs, parse)));
      forall i, j ::
        (0 <= i < j < |tabs| && tabs[i].id !in removed && tabs[j].id !in removed && KeyOf(parse)(tabs[i]).Some?) ==>
        KeyOf(parse)(tabs[i]) != KeyOf(parse)(tabs[j])
  {
    CleanupRemovesLaterOccurrences(tabs, parse);
  }

  // ---------------------------------------------------------------------------
  // Backup

  /** One record of `tabs.json`. */
  datatype BackupEntry = BackupEntry(url: Option<string>, title: string, pinned: bool)

  /** The `tabData` mapping: one record per tab, in the order the host listed them. */
  function TabData(tabs: seq<Tab>): (entries: seq<BackupEntry>)
    ensures |entries| == |tabs|
    ensures forall i :: 0 <= i < |tabs| ==>
      entries[i].url == tabs[i].url && entries[i].title == tabs[i].title && entries[i].pinned == tabs[i].pinned
  {
    if tabs == [] then []
    else
      var last := tabs[|tabs| - 1];
      TabData(tabs[..|tabs| - 1]) + [BackupEntry(last.url, last.title, last.pinned)]
  }

  /** The local-time fields the backup handler reads from `Date`; `month` is 0-based like `getMonth()`. */
  datatype LocalTime = LocalTime(month: nat, date: nat, year: nat, hours: nat, minutes: nat, seconds: nat)

  /** The ranges `Date`'s getters return. */
  predicate ValidLocalTime(t: LocalTime) {
    t.month < 12 && 1 <= t.date <= 31 && t.hours < 24 && t.minutes < 60 && t.seconds < 60
  }

  /** `String(n).padStart(2, '0')`. */
  function TwoDigits(n: nat): (r: string)
    ensures AllDigits(r) && |r| >= 2 && |r| >= |DecimalString(n)|
    ensures r[|r| - |DecimalString(n)|..] == DecimalString(n)
    ensures n < 100 ==> |r| == 2 && DecimalValue(r) == n
    ensures |r| == if n < 10 then 2 else |DecimalString(n)|
  {
    var s := DecimalString(n);
    DecimalRoundTrip(n);
    if |s| == 1 then LeadingZero(s); PadStart(s, 2, '0') else PadStart(s, 2, '0')
  }

  /** Six fields joined with '-'. */
  function Stamp(mo: string, d: string, y: string, h: string, mi: string, se: string): string {
    (mo + "-" + d + "-") + y + ("-" + h + "-" + mi + "-" + se)
  }

  /** `MM-DD-YYYY-HH-MM-SS`, the month 1-based, the year unpadded. */
  function DateStamp(t: LocalTime): string {
    Stamp(TwoDigits(t.month + 1), TwoDigits(t.date), DecimalString(t.year), TwoDigits(t.hours), TwoDigits(t.minutes), TwoDigits(t.seconds))
  }

  const FilenamePrefix: string := "TabZippr-backup-"
  const FilenameSuffix: string := ".zip"

  function BackupFilename(t: LocalTime): string {
    FilenamePrefix + DateStamp(t) + FilenameSuffix
  }

  /** Reads a date stamp back: six fixed characters, the year, nine fixed characters. */
  function ParseDateStamp(s: string): Option<LocalTime> {
    if |s| < 16 then None
    else
      var head, y, tail := s[..6], s[6..|s| - 9], s[|s| - 9..];
      if !(head[2] == '-' && head[5] == '-' && tail[0] == '-' && tail[3] == '-' && tail[6] == '-') then None
      else
        var mo, d, h, mi, se := head[..2], head[3..5], tail[1..3], tail[4..6], tail[7..];
        if !(AllDigits(mo) && AllDigits(d) && AllDigits(y) && AllDigits(h) && AllDigits(mi) && AllDigits(se)) then None
        else if DecimalValue(mo) == 0 then None
        else Some(LocalTime(DecimalValue(mo) - 1, DecimalValue(d), DecimalValue(y), DecimalValue(h), DecimalValue(mi), DecimalValue(se)))
  }

  /** Reads a backup file name back. */
  function ParseBackupFilename(f: string): Option<LocalTime> {
    if |f| < |FilenamePrefix| + |FilenameSuffix| then None
    else
      var prefix, stamp, suffix := f[..|FilenamePrefix|], f[|FilenamePrefix|..|f| - |FilenameSuffix|], f[|f| - |FilenameSuffix|..];
      if prefix != FilenamePrefix || suffix != FilenameSuffix then None
      else ParseDateStamp(stamp)
  }

  lemma Concat3(a: string, b: string, c: string)
    ensures (a + b + c)[..|a|] == a
    ensures (a + b + c)[|a|..|a| + |b|] == b
    ensures (a + b + c)[|a| + |b|..] == c
  {
  }

  lemma HeadFields(mo: string, d: string)
    requires |mo| == 2 && |d| == 2
    ensures var head := mo + "-" + d + "-";
      |head| == 6 && head[..2] == mo && head[2] == '-' && head[3..5] == d && head[5] == '-'
  {
  }

  lemma TailFields(h: string, mi: string, se: string)
    requires |h| == 2 && |mi| == 2 && |se| == 2
    ensures var tail := "-" + h + "-" + mi + "-" + se;
      |tail| == 9 && tail[0] == '-' && tail[1..3] == h && tail[3] == '-' && tail[4..6] == mi && tail[6] == '-' && tail[7..] == se
  {
  }

  /** Reading back a stamp assembled from two-digit fields. */
  lemma ParseAssembled(head: string, y: string, tail: string, t: LocalTime)
    requires |head| == 6 && |tail| == 9 && |y| >= 1 && AllDigits(y) && DecimalValue(y) == t.year
    requires head[2] == '-' && head[5] == '-' && tail[0] == '-' && tail[3] == '-' && tail[6] == '-'
    requires AllDigits(head[..2]) && DecimalValue(head[..2]) == t.month + 1
    requires AllDigits(head[3..5]) && DecimalValue(head[3..5]) == t.date
    requires AllDigits(tail[1..3]) && DecimalValue(tail[1..3]) == t.hours
    requires AllDigits(tail[4..6]) && DecimalValue(tail[4..6]) == t.minutes
    requires AllDigits(tail[7..]) && DecimalValue(tail[7..]) == t.seconds
    ensures ParseDateStamp(head + y + tail) == Some(t)
  {
    Concat3(head, y, tail);
    var s := head + y + tail;
    assert s[..6] == head && s[6..|s| - 9] == y && s[|s| - 9..] == tail;
  }

  /** Reading back a stamp assembled from six digit fields, all but the year two digits long. */
  lemma ParseFields(mo: string, d: string, y: string, h: string, mi: string, se: string, t: LocalTime)
    requires |mo| == 2 && AllDigits(mo) && DecimalValue(mo) == t.month + 1
    requires |d| == 2 && AllDigits(d) && DecimalValue(d) == t.date
    requires |y| >= 1 && AllDigits(y) && DecimalValue(y) == t.year
    requires |h| == 2 && AllDigits(h) && DecimalValue(h) == t.hours
    requires |mi| == 2 && AllDigits(mi) && DecimalValue(mi) == t.minutes
    requires |se| == 2 && AllDigits(se) && DecimalValue(se) == t.seconds
    ensures ParseDateStamp(Stamp(mo, d, y, h, mi, se)) == Some(t)
  {
    HeadFields(mo, d);
    TailFields(h, mi, se);
    ParseAssembled(mo + "-" + d + "-", y, "-" + h + "-" + mi + "-" + se, t);
  }

  /** The fields of the stamp of a real local time, each reading back to its part of the time. */
  lemma DateStampFields(t: LocalTime)
    requires ValidLocalTime(t)
    ensures var mo := TwoDigits(t.month + 1); |mo| == 2 && AllDigits(mo) && DecimalValue(mo) == t.month + 1
    ensures var d := TwoDigits(t.date); |d| == 2 && AllDigits(d) && DecimalValue(d) == t.date
    ensures var y := DecimalString(t.year); |y| >= 1 && AllDigits(y) && DecimalValue(y) == t.year
    ensures var h := TwoDigits(t.hours); |h| == 2 && AllDigits(h) && DecimalValue(h) == t.hours
    ensures var mi := TwoDigits(t.minutes); |mi| == 2 && AllDigits(mi) && DecimalValue(mi) == t.minutes
    ensures var se := TwoDigits(t.seconds); |se| == 2 && AllDigits(se) && DecimalValue(se) == t.seconds
  {
    DecimalRoundTrip(t.year);
  }

  /** The stamp of a real local time reads back to that time: every field but the year takes exactly two digits. */
  lemma DateStampRoundTrip(t: LocalTime)
    requires ValidLocalTime(t)
    ensures ParseDateStamp(DateStamp(t)) == Some(t)
  {
    var mo, d, y := TwoDigits(t.month + 1), TwoDigits(t.date), DecimalString(t.year);
    var h, mi, se := TwoDigits(t.hours), TwoDigits(t.minutes), TwoDigits(t.seconds);
    assert DateStamp(t) == Stamp(mo, d, y, h, mi, se);
    DateStampFields(t);
    ParseFields(mo, d, y, h, mi, se, t);
  }

  /** The file name of a real local time reads back to that time. */
  lemma BackupFilenameRoundTrip(t: LocalTime)
    requires ValidLocalTime(t)
    ensures ParseBackupFilename(BackupFilename(t)) == Some(t)
  {
    Concat3(FilenamePrefix, DateStamp(t), FilenameSuffix);
    DateStampRoundTrip(t);
  }

  // ---------------------------------------------------------------------------
  // Wording

  /** `tab${n === 1 ? '' : 's'}`. */
  function TabWord(n: int): (w: string)
    ensures w == "tab" <==> n == 1
    ensures w == "tabs" <==> n != 1
  {
    "tab" + (if n == 1 then "" else "s")
  }

  /** The tab count line: the count, then the plural rule applied to it. */
  function TabsCountText(n: nat): (r: string)
    ensures StartsWith(r, DecimalString(n) + " ")
    ensures EndsWith(r, " " + TabWord(n) + " in current window")
    ensures |r| == |DecimalString(n)| + |" " + TabWord(n) + " in current window"|
  {
    var c := " " + TabWord(n) + " in current window";
    assert DecimalString(n) + " " + TabWord(n) + " in current window" == DecimalString(n) + c;
    DecimalString(n) + c
  }

  /** The backup handler's reply from the background. */
  datatype Response = Response(success: bool, error: Option<string>)

  /**
   * The status line after a backup request with `n` tabs. A reply without
   * success, or no reply, is a failure; its message is the reply's error,
   * or a fixed one when that is missing or empty.
   */
  function BackupStatusText(n: nat, response: Option<Response>): (r: string)
    ensures response.Some? && response.value.success ==>
      StartsWith(r, "Successfully backed up " + DecimalString(n)) && EndsWith(r, " " + TabWord(n)) &&
      |r| == |"Successfully backed up " + DecimalString(n)| + |" " + TabWord(n)|
    ensures !(response.Some? && response.value.success) ==>
      StartsWith(r, "Failed to create backup: ") &&
      (if response.Some? && response.value.error.Some? && response.value.error.value != ""
       then EndsWith(r, response.value.error.value) &&
            |r| == |"Failed to create backup: "| + |response.value.error.value|
       else r == "Failed to create backup: Failed to create backup")
  {
    if response.Some? && response.value.success then
      var head := "Successfully backed up " + DecimalString(n);
      assert head + " " + TabWord(n) == head + (" " + TabWord(n));
      head + (" " + TabWord(n))
    else
      var err := if response.Some? && response.value.error.Some? && response.value.error.value != ""
                 then response.value.error.value else "Failed to create backup";
      "Failed to create backup: " + err
  }

  /** The status line after a cleanup: the removed count with the plural rule, or the failure's message. */
  function CleanupStatusText(outcome: CleanupOutcome): (r: string)
    ensures outcome.Completed? ==>
      StartsWith(r, "Removed " + DecimalString(outcome.removedCount)) &&
      EndsWith(r, " duplicate " + TabWord(outcome.removedCount)) &&
      |r| == |"Removed " + DecimalString(outcome.removedCount)| + |" duplicate " + TabWord(outcome.removedCount)|
    ensures outcome.Failed? ==>
      StartsWith(r, "Failed to clean up duplicates: ") && EndsWith(r, outcome.error) &&
      |r| == |"Failed to clean up duplicates: "| + |outcome.error|
  {
    match outcome
    case Completed(n) => ("Removed " + DecimalString(n)) + (" duplicate " + TabWord(n))
    case Failed(e) => "Failed to clean up duplicates: " + e
  }
}
