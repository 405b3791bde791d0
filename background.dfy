/**
 * The background service of js/background.js: the duplicate-tab key, the
 * duplicate total, and the tracker that writes the toolbar badge only when
 * the total changes.
 */
module Background {
  import opened Wrappers
  import opened Text
  import opened Browser
  import Grouping

  // ---------------------------------------------------------------------------
  // The key of a tab

  /** The `q` value that makes it into a search key: a missing or empty `q` counts as none. */
  function EffectiveQuery(q: Option<string>): (r: Option<string>)
    ensures r.Some? ==> r == q && r.value != ""
    ensures r.None? <==> q.None? || q.value == ""
  {
    if q.Some? && q.value != "" then q else None
  }

  /** The key of a parsed URL: search pages on google.com hosts keep only `q`; the rest keep the whole query. */
  function ParsedKey(u: ParsedUrl): (k: string)
    ensures StartsWith(k, u.origin + u.pathname)
  {
    var base := u.origin + u.pathname;
    var k :=
      if Contains(u.hostname, "google.com") then
        base + (match EffectiveQuery(u.q) case Some(q) => "?q=" + q case None => "")
      else
        base + u.search;
    assert k[..|base|] == base;
    k
  }

  /** The key of a tab URL; None when the tab is skipped. */
  function NormalizedKey(parse: Parser, url: Option<string>): (k: Option<string>)
    ensures k.None? <==> url.None? || url.value == "" || url.value == NewTabUrl || parse(url.value).None?
    ensures k.Some? ==> parse(url.value).Some? && k.value == ParsedKey(parse(url.value).value)
  {
    if url.None? || url.value == "" || url.value == NewTabUrl then None
    else
      match parse(url.value)
      case None => None
      case Some(u) => Some(ParsedKey(u))
  }

  /** The key function the background's scan uses. */
  function KeyOf(parse: Parser): Grouping.KeyFn {
    (t: Tab) => NormalizedKey(parse, t.url)
  }

  /** Cancelling a common prefix. */
  lemma AppendCancel(a: string, s1: string, s2: string)
    ensures a + s1 == a + s2 <==> s1 == s2
  {
    if a + s1 == a + s2 {
      assert s1 == (a + s1)[|a|..];
      assert s2 == (a + s2)[|a|..];
    }
  }

  /** On a google.com host, two URLs with the same origin, path and `q` get the same key, whatever else their query or fragment holds. */
  lemma GoogleKeyIgnoresOtherParameters(u1: ParsedUrl, u2: ParsedUrl)
    requires Contains(u1.hostname, "google.com") && Contains(u2.hostname, "google.com")
    requires u1.origin == u2.origin && u1.pathname == u2.pathname && u1.q == u2.q
    ensures ParsedKey(u1) == ParsedKey(u2)
  {
  }

  /** On google.com hosts with the same origin and path, keys agree exactly when the effective `q` values do. */
  lemma GoogleKeyKeepsQuery(u1: ParsedUrl, u2: ParsedUrl)
    requires Contains(u1.hostname, "google.com") && Contains(u2.hostname, "google.com")
    requires u1.origin == u2.origin && u1.pathname == u2.pathname
    ensures ParsedKey(u1) == ParsedKey(u2) <==> EffectiveQuery(u1.q) == EffectiveQuery(u2.q)
  {
    var base := u1.origin + u1.pathname;
    var s1 := match EffectiveQuery(u1.q) case Some(q) => "?q=" + q case None => "";
    var s2 := match EffectiveQuery(u2.q) case Some(q) => "?q=" + q case None => "";
    assert ParsedKey(u1) == base + s1 && ParsedKey(u2) == base + s2;
    AppendCancel(base, s1, s2);
    if s1 == s2 && EffectiveQuery(u1.q).Some? {
      AppendCancel("?q=", EffectiveQuery(u1.q).value, EffectiveQuery(u2.q).value);
    }
  }

  /** Off google.com, with the same origin and path, keys agree exactly when the full query strings do. */
  lemma OtherKeyKeepsSearch(u1: ParsedUrl, u2: ParsedUrl)
    requires !Contains(u1.hostname, "google.com") && !Contains(u2.hostname, "google.com")
    requires u1.origin == u2.origin && u1.pathname == u2.pathname
    ensures ParsedKey(u1) == ParsedKey(u2) <==> u1.search == u2.search
  {
    AppendCancel(u1.origin + u1.pathname, u1.search, u2.search);
  }

  /** The fragment never reaches the key. */
  lemma FragmentIgnored(u: ParsedUrl, hash: string)
    ensures ParsedKey(u.(hash := hash)) == ParsedKey(u)
  {
  }

  // ---------------------------------------------------------------------------
  // The duplicate total

  /**
   * The second pass of the scan: walk the map's entries in insertion order
   * and add (length - 1) for every list of more than one tab.
   */
  method CountDuplicates(keys: seq<string>, groups: map<string, seq<Tab>>) returns (total: nat)
    requires forall k :: k in keys ==> k in groups
    ensures total == Grouping.Excess(keys, groups)
  {
    total := 0;
    for i := 0 to |keys|
      invariant total == Grouping.Excess(keys[..i], groups)
    {
      assert keys[..i + 1][..i] == keys[..i];
      var n := |groups[keys[i]]|;
      if n > 1 {
        total := total + (n - 1);
      }
    }
    assert keys[..|keys|] == keys;
  }

  /** The total the background computes for the tabs of the current window. */
  function DuplicateTotal(tabs: seq<Tab>, parse: Parser): nat {
    Grouping.DuplicateTotal(tabs, KeyOf(parse))
  }

  /** The scan of js/background.js:155-193 without its badge half. */
  method ScanDuplicates(tabs: seq<Tab>, parse: Parser) returns (total: nat)
    ensures total == DuplicateTotal(tabs, parse)
    ensures total == Grouping.IncludedCount(tabs, KeyOf(parse)) - |Grouping.FirstOccurrence(tabs, KeyOf(parse))|
  {
    var keys, groups := Grouping.BuildUrlMap(tabs, KeyOf(parse));
    total := CountDuplicates(keys, groups);
    Grouping.DuplicateCountIdentity(tabs, KeyOf(parse));
  }

  // ---------------------------------------------------------------------------
  // The badge

  datatype BadgeWrite = SetBackgroundColor(color: string) | SetText(text: string)

  const WarningColor: string := "#dc2626"

  /** What a changed total writes to the badge: the red total, or empty text for zero. */
  function BadgeWrites(total: nat): (w: seq<BadgeWrite>)
    ensures 1 <= |w| <= 2 && w[|w| - 1].SetText?
    ensures |w| == 2 <==> total > 0
    ensures |w| == 2 ==> w[0] == SetBackgroundColor(WarningColor)
    ensures w[|w| - 1].text == "" <==> total == 0
    ensures total > 0 ==> w[1].text == DecimalString(total)
    ensures total > 0 ==> AllDigits(w[|w| - 1].text) && DecimalValue(w[|w| - 1].text) == total
  {
    if total > 0 then
      var text := DecimalString(total);
      DecimalRoundTrip(total);
      [SetBackgroundColor(WarningColor), SetText(text)]
    else
      [SetText("")]
  }

  /** One recompute: the new value of the stored count and the badge writes. */
  function Recompute(last: int, total: nat): (r: (int, seq<BadgeWrite>))
    ensures r.0 == total
    ensures r.1 == [] <==> total == last
    ensures r.1 != [] ==> r.1 == BadgeWrites(total)
  {
    if total == last then (last, []) else (total, BadgeWrites(total))
  }

  /** A recompute after the count was set to -1 always writes the badge. */
  lemma ForcedRecomputeWrites(total: nat)
    ensures Recompute(-1, total).1 == BadgeWrites(total) != []
  {
  }

  /** A second recompute over an unchanged total writes nothing and keeps the count. */
  lemma RecomputeSettles(last: int, total: nat)
    ensures Recompute(Recompute(last, total).0, total) == (total, [])
  {
  }

  /** The badge text after the host applies `writes` to a badge showing `shown`: the last text write wins. */
  function ShownText(shown: string, writes: seq<BadgeWrite>): string {
    if writes == [] then shown
    else
      match writes[|writes| - 1]
      case SetText(text) => text
      case SetBackgroundColor(_) => ShownText(shown, writes[..|writes| - 1])
  }

  /** The text a badge in step with a total shows: the total in decimal, or nothing for zero. */
  function ExpectedText(total: nat): string {
    if total == 0 then "" else DecimalString(total)
  }

  /** A recompute keeps a badge that is in step with the stored count in step with the new total. */
  lemma RecomputeKeepsBadgeInSync(last: nat, shown: string, total: nat)
    requires shown == ExpectedText(last)
    ensures ShownText(shown, Recompute(last, total).1) == ExpectedText(total)
  {
  }

  /** A forced recompute brings any badge in step with the total. */
  lemma ForcedRecomputeSyncs(shown: string, total: nat)
    ensures ShownText(shown, Recompute(-1, total).1) == ExpectedText(total)
  {
  }

  /** The writes of the debugging startup listener of js/background.js:138-148. */
  const DebugStartupWrites: seq<BadgeWrite> := [SetText("5"), SetBackgroundColor(WarningColor)]

  /**
   * With both startup listeners as registered, a start with no duplicates
   * leaves the debugging "5" on the badge: the reset stores 0, the total is
   * 0, so the recompute writes nothing over it. Whichever listener runs
   * first, the recompute adds no write.
   */
  lemma DebugBadgeOutlivesStartup()
    ensures Recompute(0, 0).1 == []
    ensures ShownText("", DebugStartupWrites + Recompute(0, 0).1) == "5"
    ensures ShownText("", Recompute(0, 0).1 + DebugStartupWrites) == "5"
    ensures ExpectedText(0) == ""
  {
    assert DebugStartupWrites[..1] == [SetText("5")];
  }

  /** Without the debugging listener, a start from a blank badge leaves the badge in step with the total. */
  lemma StartupBadgeMatchesTotal(total: nat)
    ensures ShownText("", Recompute(0, total).1) == ExpectedText(total)
  {
    RecomputeKeepsBadgeInSync(0, "", total);
  }

  /**
   * A reload that stores 0 under a badge still showing an earlier count keeps
   * that badge through every recompute whose total is 0: the stored 0 equals
   * the total, so nothing is written.
   */
  lemma StaleBadgeAfterReload(badge: string)
    ensures Recompute(0, 0) == (0, [])
    ensures ShownText(badge, Recompute(0, 0).1) == badge
    ensures badge != "" ==> ShownText(badge, Recompute(0, 0).1) != ExpectedText(0)
  {
  }

  /** Host events that reach the tracker. */
  datatype TabEvent =
    | TabCreated
    | TabRemoved
    | TabUpdated(changedUrl: Option<string>, status: Option<string>)
    | TabActivated
    | WindowFocusChanged(windowId: int)

  /** `chrome.windows.WINDOW_ID_NONE`: focus moved away from every browser window. */
  const WindowIdNone: int := -1

  /** Whether an event's listener recomputes. */
  predicate Triggers(e: TabEvent) {
    match e
    case TabUpdated(u, s) => (u.Some? && u.value != "") || s == Some("complete")
    case WindowFocusChanged(w) => w != WindowIdNone
    case _ => true
  }

  /** The module-global `lastDuplicateCount` and the handlers that read and write it. */
  class DuplicateTracker {
    var lastDuplicateCount: int
    /** The text the toolbar badge displays. */
    ghost var shown: string

    /** The badge shows the stored count, which is a total and not the -1 sentinel. */
    ghost predicate InSync()
      reads this
    {
      lastDuplicateCount >= 0 && shown == ExpectedText(lastDuplicateCount)
    }

    /**
     * The script's load: the count starts at 0, whatever the badge shows.
     * The host stops an idle background worker and loads the script again on
     * the next event, so the badge may still show an earlier count.
     */
    constructor (badge: string)
      ensures lastDuplicateCount == 0 && shown == badge
      ensures badge == "" ==> InSync()
    {
      lastDuplicateCount := 0;
      shown := badge;
    }

    /** A load that stores the -1 sentinel instead, so that the first recompute always writes the badge. */
    constructor Sentinel(badge: string)
      ensures lastDuplicateCount == -1 && shown == badge
    {
      lastDuplicateCount := -1;
      shown := badge;
    }

    /** `updateDuplicateTabBadges`: recompute the total and write the badge only if it changed. */
    method UpdateDuplicateTabBadges(tabs: seq<Tab>, parse: Parser) returns (writes: seq<BadgeWrite>)
      modifies this
      ensures (lastDuplicateCount, writes) == Recompute(old(lastDuplicateCount), DuplicateTotal(tabs, parse))
      ensures shown == ShownText(old(shown), writes)
      ensures old(InSync()) ==> InSync()
      ensures old(lastDuplicateCount) == -1 ==> InSync()
    {
      var total := ScanDuplicates(tabs, parse);
      if total != lastDuplicateCount {
        lastDuplicateCount := total;
        if total > 0 {
          writes := [SetBackgroundColor(WarningColor), SetText(DecimalString(total))];
        } else {
          writes := [SetText("")];
        }
      } else {
        writes := [];
      }
      shown := ShownText(shown, writes);
      if old(InSync()) {
        RecomputeKeepsBadgeInSync(old(lastDuplicateCount), old(shown), total);
      }
      if old(lastDuplicateCount) == -1 {
        ForcedRecomputeSyncs(old(shown), total);
      }
    }

    /** The `forceBadgeUpdate` message: store -1, then recompute; the badge is always written. */
    method ForceBadgeUpdate(tabs: seq<Tab>, parse: Parser) returns (writes: seq<BadgeWrite>)
      modifies this
      ensures lastDuplicateCount == DuplicateTotal(tabs, parse)
      ensures writes == BadgeWrites(DuplicateTotal(tabs, parse)) && writes != []
      ensures shown == ShownText(old(shown), writes)
      ensures InSync()
    {
      lastDuplicateCount := -1;
      writes := UpdateDuplicateTabBadges(tabs, parse);
      ForcedRecomputeSyncs(old(shown), DuplicateTotal(tabs, parse));
    }

    /** Install or update: store 0, paint the badge red and empty, then recompute. */
    method OnInstalled(tabs: seq<Tab>, parse: Parser) returns (writes: seq<BadgeWrite>)
      modifies this
      ensures lastDuplicateCount == DuplicateTotal(tabs, parse)
      ensures writes == [SetBackgroundColor(WarningColor), SetText("")] + Recompute(0, DuplicateTotal(tabs, parse)).1
      ensures InSync()
    {
      lastDuplicateCount := 0;
      shown := ShownText(shown, [SetBackgroundColor(WarningColor), SetText("")]);
      var more := UpdateDuplicateTabBadges(tabs, parse);
      writes := [SetBackgroundColor(WarningColor), SetText("")] + more;
    }

    /** Browser startup as registered: the debugging listener's writes, then the reset and recompute. */
    method OnStartupAsWritten(tabs: seq<Tab>, parse: Parser) returns (writes: seq<BadgeWrite>)
      modifies this
      ensures lastDuplicateCount == DuplicateTotal(tabs, parse)
      ensures writes == DebugStartupWrites + Recompute(0, DuplicateTotal(tabs, parse)).1
      ensures shown == ShownText(ShownText(old(shown), DebugStartupWrites), Recompute(0, DuplicateTotal(tabs, parse)).1)
      ensures DuplicateTotal(tabs, parse) == 0 ==> shown == "5" && !InSync()
    {
      shown := ShownText(shown, DebugStartupWrites);
      assert DebugStartupWrites[..1] == [SetText("5")];
      var more := OnStartup(tabs, parse);
      writes := DebugStartupWrites + more;
    }

    /** Browser startup: store 0, then recompute. */
    method OnStartup(tabs: seq<Tab>, parse: Parser) returns (writes: seq<BadgeWrite>)
      modifies this
      ensures lastDuplicateCount == DuplicateTotal(tabs, parse)
      ensures writes == Recompute(0, DuplicateTotal(tabs, parse)).1
      ensures shown == ShownText(old(shown), writes)
      ensures old(shown) == "" ==> InSync()
    {
      lastDuplicateCount := 0;
      writes := UpdateDuplicateTabBadges(tabs, parse);
    }

    /** The tab and window listeners: recompute when the event's gate lets it through. */
    method OnTabEvent(e: TabEvent, tabs: seq<Tab>, parse: Parser) returns (writes: seq<BadgeWrite>)
      modifies this
      ensures !Triggers(e) ==> writes == [] && lastDuplicateCount == old(lastDuplicateCount) && shown == old(shown)
      ensures Triggers(e) ==>
        (lastDuplicateCount, writes) == Recompute(old(lastDuplicateCount), DuplicateTotal(tabs, parse))
      ensures shown == ShownText(old(shown), writes)
      ensures old(InSync()) ==> InSync()
      ensures Triggers(e) && old(lastDuplicateCount) == -1 ==> InSync()
    {
      if Triggers(e) {
        writes := UpdateDuplicateTabBadges(tabs, parse);
      } else {
        writes := [];
      }
    }
  }
}
