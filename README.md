# TabZippr duplicate-tab engine in Dafny

TabZippr is a browser extension. It backs up the tabs of the current window
into a file, and it watches for duplicate tabs. This project models the
duplicate-tab engine and the small formatting logic beside it:

- **The key of a tab** (`Background.NormalizedKey`, with a copy in
  `Popup.NormalizedKey`):
  - A tab with no URL, an empty URL, or the new-tab page is skipped.
  - A tab whose URL does not parse is skipped too.
  - On a host whose name contains `google.com`, the key is origin + path,
    plus `?q=<q>` when `q` is non-empty.
  - On any other host, the key is origin + path + query.
- **The grouping pass** (`Grouping.BuildUrlMap`) is the loop both scripts
  run. It fills an insertion-ordered map from key to the tabs with that key.
  - The map is a sequence of keys in insertion order plus a `map` from key
    to tab list.
  - The loop is proved against reference definitions:
    - `FirstOccurrence`: the keys in order of first sight;
    - `TabsWithKey`: the tabs with one key, in enumeration order.
- **The duplicate total** (`Background.CountDuplicates`,
  `Background.ScanDuplicates`) adds `length - 1` over the groups with more
  than one tab. It is proved equal to the number of keyed tabs minus the
  number of distinct keys.
- **The badge tracker** (`Background.DuplicateTracker`) is a class holding
  the script-global `lastDuplicateCount`.
  - A recompute writes the badge only when the total changed.
  - The `forceBadgeUpdate` message stores -1 first, so the badge is always
    written.
  - Install and startup store 0.
  - Badge writes are returned as a list of `BadgeWrite` records.
  - A ghost field holds the text the badge displays (`ShownText`).
  - The invariant `InSync` says the badge shows the stored count.
    - `UpdateDuplicateTabBadges` keeps it, and establishes it from the -1 sentinel.
    - `OnTabEvent` keeps it; it establishes it from the -1 sentinel only for an event that passes its gate (`Triggers`), since a gated-out event writes nothing.
    - `ForceBadgeUpdate` and `OnInstalled` establish it.
    - `OnStartup` establishes it only from a blank badge, because it stores 0 without clearing the badge.
    - The constructor establishes it only under a blank badge: a reloaded script stores 0 under whatever the badge shows (see Findings).
    - The `Sentinel` constructor is the corrected load: it stores -1, so the first recompute brings any badge in step (`ForcedRecomputeSyncs`).
- **The popup's duplicate groups and cleanup** (`Popup.GetDuplicateGroups`,
  `Popup.CleanupDuplicates`).
  - The groups are the map entries with two or more tabs, in key order.
  - Cleanup asks the host to remove every tab but the first of each group,
    and counts the removed tabs.
  - Proved: with distinct tab ids, a completed cleanup removes exactly the
    tabs whose key already occurred earlier. No two surviving tabs share a
    key. The count equals the badge total for the same tabs.
- **Backup helpers**:
  - the `tabs.json` records (`Popup.TabData`);
  - the `TabZippr-backup-MM-DD-YYYY-HH-MM-SS.zip` file name, with a parser
    that reads it back;
  - the "tab"/"tabs" wording.

Host facilities are parameters:
- URL parsing is a function `string -> Option<ParsedUrl>`; `None` stands for
  `new URL` throwing.
- The host's tab removal is a function from an id list to `None` (success)
  or `Some(message)` (failure).
- The local time is a record of the fields `Date`'s getters return.

Modules:
- `Wrappers` (Option);
- `Text` (`String(n)`, `padStart`, `includes`);
- `Browser` (tabs and parsed URLs);
- `Grouping` (the shared grouping pass and its laws);
- `Background` (js/background.js);
- `Popup` (js/popup.js).

## Model

| member | source | states |
|---|---|---|
| Text.DecimalString | js/background.js:206 | `String(n)` of a count is a non-empty digit string without a leading zero; it has one digit exactly when n < 10 |
| Text.DecimalRoundTrip | js/background.js:206 | reading the decimal text of n back gives n |
| Text.PadStart | js/popup.js:68-73 | `padStart` leaves a string at least `width` long, with the original at the end and only fill characters before it |
| Text.ContainsIff | js/background.js:169 | `includes` holds exactly when the substring occurs at some position |
| Background.ParsedKey | js/background.js:169-175 | every key starts with origin + path |
| Background.NormalizedKey | js/background.js:163-183 | a tab is skipped exactly when its URL is missing, empty, the new-tab page, or does not parse; otherwise its key is the key of the parsed URL |
| Background.GoogleKeyIgnoresOtherParameters | js/background.js:169-172 | on google.com hosts, URLs with the same origin, path and `q` get the same key, whatever their other parameters |
| Background.GoogleKeyKeepsQuery | js/background.js:169-172 | on google.com hosts with the same origin and path, keys agree if and only if the non-empty `q` values agree |
| Background.OtherKeyKeepsSearch | js/background.js:173-175 | off google.com, with the same origin and path, keys agree if and only if the query strings agree |
| Background.FragmentIgnored | js/background.js:172-174 | the fragment never changes the key |
| Grouping.TabsWithKey | js/background.js:177-180 | a group holds only tabs of the list that carry its key, and no more of them than the list has |
| Grouping.FirstOccurrence | js/background.js:177-179 | the map's keys are distinct and no more numerous than the tabs |
| Grouping.HasKeyPrefix | js/background.js:177 | a key carried by some tab of a prefix is carried by some tab of the whole list |
| Grouping.FirstOccurrenceOrder | js/background.js:177-179 | the keys are in the order of their first tabs: for an earlier key, some tab with it comes before every tab with a later key |
| Grouping.TabsWithKeyInOrder | js/background.js:177-180 | each group lists its tabs in the order the host enumerated them |
| Grouping.TabsWithKeyHolds | js/background.js:177-180 | every tab with key k is in k's group |
| Grouping.TabsWithKeyEmpty | js/background.js:177-180 | a key's group is empty exactly when no tab has that key |
| Grouping.FirstOccurrenceMembers | js/background.js:177-179 | a key is in the map exactly when some tab carries it |
| Grouping.BuildUrlMap | js/background.js:158-184 | the loop leaves the keys in first-occurrence order, and each key's list holds exactly its tabs in enumeration order; unkeyed tabs are skipped without an error |
| Grouping.SizesOfFirstOccurrence | js/background.js:177-180 | every keyed tab sits in exactly one group: the group sizes sum to the number of keyed tabs |
| Grouping.ExcessOfNonEmptyGroups | js/background.js:186-193 | over non-empty groups, the sum of (length - 1) for lengths above 1 is the total size minus the number of groups |
| Grouping.DuplicateCountIdentity | js/background.js:186-193 | the duplicate total is the number of keyed tabs minus the number of distinct keys |
| Grouping.SharedKeyTotal | js/background.js:186-193 | when N >= 1 tabs share one key, the map has that single key and the total is N - 1 |
| Grouping.SameKeysSameOrder | js/background.js:158-184 | two key functions that agree on the tabs give the same key order and the same groups |
| Grouping.SameKeysSameGrouping | js/background.js:158-193 | two key functions that agree on the tabs give the same map and the same total |
| Grouping.TabsWithKeyIds | js/popup.js:219-222 | the tabs of a group have distinct ids when the window's tabs do |
| Grouping.TailStep | js/popup.js:221 | how the tabs of a group after its first one change when a tab is appended to the window |
| Grouping.LaterOccurrenceInTail | js/popup.js:220-221 | a tab whose key occurred at an earlier position is in its group after the first tab |
| Grouping.TailIsLaterOccurrence | js/popup.js:220-221 | a tab in a group after the first tab has an earlier tab with its key |
| Grouping.LaterOccurrences | js/popup.js:220-221 | the tabs of a group after its first one are exactly the tabs whose key already occurred earlier |
| Background.CountDuplicates | js/background.js:187-193 | the counting loop returns the sum of (length - 1) over the map's entries with more than one tab |
| Background.ScanDuplicates | js/background.js:155-193 | the scan returns the duplicate total of the tabs, which is the number of keyed tabs minus the number of distinct keys |
| Background.BadgeWrites | js/background.js:202-213 | a changed total writes two things exactly when it is positive: the red colour, then `String(total)`, whose text reads back as the total. A zero total writes only empty text |
| Background.Recompute | js/background.js:198-213 | the stored count becomes the total; the badge is written if and only if the total differs from the stored count |
| Background.ForcedRecomputeWrites | js/background.js:31-33 | after the count is set to -1, a recompute always writes the badge |
| Background.RecomputeSettles | js/background.js:198-199 | a second recompute over the same total writes nothing and keeps the count |
| Background.RecomputeKeepsBadgeInSync | js/background.js:198-213 | if the badge shows the stored count, it shows the new total after a recompute |
| Background.ForcedRecomputeSyncs | js/background.js:31-33 | a forced recompute makes any badge show the total |
| Background.DebugBadgeOutlivesStartup | js/background.js:138-148 | with the debugging listener, a start with no duplicates leaves "5" on the badge in either listener order |
| Background.StartupBadgeMatchesTotal | js/background.js:221-225 | the startup reset then recompute, from a blank badge, leaves the badge showing the total |
| Background.DuplicateTracker.constructor | js/background.js:18 | each load of the script stores 0 and leaves the badge as it was; only under a blank badge is the badge in step with the count |
| Background.DuplicateTracker.Sentinel | js/background.js:18 | the corrected script load for the reload finding: it stores the -1 sentinel under any badge, so the first recompute writes the badge |
| Background.StaleBadgeAfterReload | js/background.js:18 | after a reload stores 0 under a badge showing an earlier count, a recompute with total 0 writes nothing and the stale text stays |
| Background.DuplicateTracker.UpdateDuplicateTabBadges | js/background.js:153-218 | the new stored count and the badge writes are those of a recompute from the old count over the window's duplicate total. The badge shows what the writes leave. A badge in step stays in step, and a recompute from -1 brings any badge in step |
| Background.DuplicateTracker.ForceBadgeUpdate | js/background.js:31-34 | the stored count becomes the total and the badge is always written with it, so whatever it showed before, the badge ends in step with the total |
| Background.DuplicateTracker.OnInstalled | js/background.js:129-135 | the badge is painted red and blanked, then a recompute from 0 follows; the stored count ends as the total and the badge shows it |
| Background.DuplicateTracker.OnStartupAsWritten | js/background.js:138-148 | both startup listeners together: the debugging writes, then the recompute from 0; with no duplicates the badge is left showing "5" and out of step with the count |
| Background.DuplicateTracker.OnStartup | js/background.js:221-225 | the stored count is reset to 0 and a recompute follows; the stored count ends as the total, and from a blank badge the badge shows it |
| Background.DuplicateTracker.OnTabEvent | js/background.js:228-255 | an event that passes its listener's gate recomputes: a created, removed or activated tab, an update whose URL changed or that completed loading, a focus change to a window. Any other event changes nothing and writes nothing; a badge in step stays in step |
| Popup.NormalizedKey | js/popup.js:154-175 | the popup skips exactly the tabs the background skips |
| Popup.KeysAgree | js/popup.js:154-166 | the popup's copy of the key derivation gives the background's key for every URL |
| Popup.GroupingAgrees | js/popup.js:147-175 | so the popup and the background build the same map and the same total for every tab list |
| Popup.DuplicateGroups | js/popup.js:177-180 | the result holds exactly the map entries with more than one tab, each with its full list, in the map's key order |
| Popup.GroupsBy | js/popup.js:147-181 | every group holds at least two tabs: exactly those with its key, in enumeration order; every key with two or more tabs has a group; groups follow first-occurrence order |
| Popup.GetDuplicateGroups | js/popup.js:147-181 | the method returns the duplicate groups of the window's tabs |
| Popup.RequestedIdsMembers | js/popup.js:222 | an id is requested for removal exactly when some request names it |
| Popup.RemoveDuplicateGroups | js/popup.js:219-224 | the requests are, in order, every group's tabs but the first. If all succeed, the count is the number of tabs requested. If one fails, the loop stops right after that request and reports its error |
| Popup.CleanupDuplicates | js/popup.js:214-233 | a completed cleanup requests all groups and removes as many tabs as the badge total; a failed one reports the failing request's error |
| Popup.RemovedTotalIsExcess | js/popup.js:217-224 | the removed count is the sum of (length - 1) over the duplicate groups |
| Popup.CleanupCountMatchesBadge | js/popup.js:217-224 | the removed count equals the background's total for the same tab list |
| Popup.GroupSplits | js/popup.js:220-221 | a group is its first tab followed by the tabs to remove, and the first tab's id is not among them |
| Popup.GroupSplitsIntoKeptAndRemoved | js/popup.js:219-222 | every duplicate group splits into the kept first tab and the removed rest, and the two are disjoint |
| Popup.LaterOccurrenceRemoved | js/popup.js:219-222 | a tab whose key occurred earlier is requested for removal |
| Popup.RemovedIsLaterOccurrence | js/popup.js:219-222 | with distinct ids, a tab requested for removal has an earlier tab with its key |
| Popup.CleanupRemovesLaterOccurrences | js/popup.js:211-222 | with distinct ids, cleanup removes a tab if and only if an earlier tab has its key, so the first tab of every key survives |
| Popup.NoDuplicateSurvivesCleanup | js/popup.js:211-222 | after a completed cleanup no two remaining keyed tabs share a key |
| Popup.TabData | js/popup.js:58-63 | one `{url, title, pinned}` record per tab, same length and same order |
| Popup.TwoDigits | js/popup.js:68-73 | the padded field is all digits and ends with the decimal text. It is two characters long for n < 10 and otherwise exactly as long as the decimal text. For n < 100 it reads back as n |
| Popup.DateStampFields | js/popup.js:67-74 | for a valid local time, the month (1-based), day, hours, minutes and seconds fields are exactly two digits, the year is its unpadded decimal text, and each reads back to its part of the time |
| Popup.DateStampRoundTrip | js/popup.js:65-74 | the `MM-DD-YYYY-HH-MM-SS` stamp of a valid local time reads back to that time, with the month 1-based in the text |
| Popup.BackupFilenameRoundTrip | js/popup.js:76 | the backup file name reads back to the local time it was made from |
| Popup.TabWord | js/popup.js:19 | the word is "tab" exactly when the count is 1 and "tabs" otherwise |
| Popup.TabsCountText | js/popup.js:19 | the count line starts with the count and a space, ends with the plural rule applied to it and " in current window", and is exactly as long as the two together, so it holds nothing else (`Text.PrefixSuffixPin`) |
| Popup.BackupStatusText | js/popup.js:83-90 | on success the line is "Successfully backed up " and the count, then a space and the plural rule applied to it, and nothing else (prefix, suffix and exact length). Otherwise it is "Failed to create backup: " followed by exactly the reply's error; when that is missing or empty, the fixed message is used |
| Popup.CleanupStatusText | js/popup.js:229-232 | a completed cleanup's line is "Removed " and the removed count, then " duplicate " and the plural rule applied to it, and nothing else (prefix, suffix and exact length); a failure's line is the fixed prefix followed by exactly the error |

## Left out

- URL parsing (`new URL`, `URLSearchParams.get`) is a parameter; its percent-decoding and form-urlencoded rules are not modelled.
- The backup archive and its reading back (js/background.js:51-126) are left out: the ZIP container, DEFLATE, `JSON.stringify`/`JSON.parse`, the data URL and the download with its `TabZippr/` folder prefix are library and host calls.
- The restore loop, which creates one tab per record and then closes the new window's first tab, is host I/O and is left out.
- Host effects are recorded, not performed: badge writes become `BadgeWrite` records, tab removals become id lists.
- Failed badge writes are not modelled; the writes always succeed, and `InSync` rests on that. In the source, the new count is stored before the writes, and the colour and text writes share one `catch`. A rejected colour write therefore skips the text write and leaves the badge stale until the count changes again.
- The outer `catch` of the scan only logs. An error from the tab query is not modelled: the tabs are an input.
- Message transport and the `sendResponse` plumbing (js/background.js:21-44) are left out. So are the popup's `forceBadgeUpdate` messages on load and after a section refresh.
- Recomputes that overlap and race on `lastDuplicateCount` are not modelled; each recompute is atomic.
- The DOM is not modelled: status message display and its timers, group rendering, buttons, and FileReader. Only the texts of the count, backup and cleanup status lines are modelled.
- `Date` is an input (`LocalTime`). The year is a natural number, so a negative year's sign is not modelled.
- js/contentScript.js (page styling) and js/version.js (constants) are not part of this model.
- Popup.NormalizedKey: its own contract states only when a tab is skipped; the key itself is tied to the background's through Popup.KeysAgree.

## Findings

| source | as written | input that shows it | evidently intended | confidence | as-written member | corrected member |
|---|---|---|---|---|---|---|
| js/background.js:138-148 | a debugging startup listener writes "5" on the badge, and the real startup listener stores 0 before recomputing | browser start with no duplicate tabs: the total is 0, equal to the stored 0, so the recompute writes nothing and "5" stays | the badge shows the duplicate total after startup, here an empty badge | not executed; high, as the outcome is the same in either listener order | Background.DebugBadgeOutlivesStartup | Background.StartupBadgeMatchesTotal |
| js/background.js:18 | each load of the background script stores 0, and the host stops an idle background worker and loads it again on the next event | the badge shows "1", the worker stops, and the user closes the duplicate tab. The reloaded script stores 0, the total is 0, nothing is written, and "1" stays with no duplicates open | the first recompute after a load writes the badge, as starting from the -1 sentinel does | not executed; medium, as it rests on the host's worker lifecycle | Background.StaleBadgeAfterReload | Background.DuplicateTracker.Sentinel, Background.ForcedRecomputeSyncs |
