/**
 * The grouping pass that js/background.js and js/popup.js both run over the
 * tabs of the current window: each tab gets a key (or is left out), and an
 * insertion-ordered map collects, per key, the tabs that have it in the
 * order the host enumerated them. The map is modelled as the sequence of its
 * keys in insertion order together with a `map` from key to tab list.
 */
module Grouping {
  import opened Wrappers
  import opened Browser

  /** How a tab is keyed; None leaves the tab out of every group. */
  type KeyFn = Tab -> Option<string>

  predicate Distinct<T(==)>(s: seq<T>) {
    forall i, j :: 0 <= i < j < |s| ==> s[i] != s[j]
  }

  /** Some tab of `tabs` has key `k`. */
  predicate HasKey(tabs: seq<Tab>, key: KeyFn, k: string) {
    exists i :: 0 <= i < |tabs| && key(tabs[i]) == Some(k)
  }

  /** The tabs with key `k`, in enumeration order. */
  function TabsWithKey(tabs: seq<Tab>, key: KeyFn, k: string): (g: seq<Tab>)
    ensures |g| <= |tabs|
    ensures forall t :: t in g ==> t in tabs && key(t) == Some(k)
  {
    if tabs == [] then []
    else
      var last := tabs[|tabs| - 1];
      TabsWithKey(tabs[..|tabs| - 1], key, k) + (if key(last) == Some(k) then [last] else [])
  }

  /** The distinct keys of the included tabs, in the order of their first tab. */
  function FirstOccurrence(tabs: seq<Tab>, key: KeyFn): (ks: seq<string>)
    ensures Distinct(ks)
    ensures |ks| <= |tabs|
  {
    if tabs == [] then []
    else
      var ks := FirstOccurrence(tabs[..|tabs| - 1], key);
      match key(tabs[|tabs| - 1])
      case None => ks
      case Some(k) => if k in ks then ks else ks + [k]
  }

  /** The map the grouping pass is meant to build: key to the tabs with that key. */
  function GroupMap(tabs: seq<Tab>, key: KeyFn): map<string, seq<Tab>> {
    map k | k in FirstOccurrence(tabs, key) :: TabsWithKey(tabs, key, k)
  }

  /** The number of tabs that get a key. */
  function IncludedCount(tabs: seq<Tab>, key: KeyFn): nat {
    if tabs == [] then 0
    else IncludedCount(tabs[..|tabs| - 1], key) + (if key(tabs[|tabs| - 1]).Some? then 1 else 0)
  }

  /** Sum over `keys` of (group length - 1), for groups of more than one tab. */
  function Excess(keys: seq<string>, groups: map<string, seq<Tab>>): nat
    requires forall k :: k in keys ==> k in groups
  {
    if keys == [] then 0
    else
      var n := |groups[keys[|keys| - 1]]|;
      Excess(keys[..|keys| - 1], groups) + (if n > 1 then n - 1 else 0)
  }

  /** The duplicate total of a tab list: the excess of its grouping. */
  function DuplicateTotal(tabs: seq<Tab>, key: KeyFn): nat {
    Excess(FirstOccurrence(tabs, key), GroupMap(tabs, key))
  }

  /** Sum over `keys` of the number of tabs with that key. */
  function Sizes(keys: seq<string>, tabs: seq<Tab>, key: KeyFn): nat {
    if keys == [] then 0
    else Sizes(keys[..|keys| - 1], tabs, key) + |TabsWithKey(tabs, key, keys[|keys| - 1])|
  }

  // ---------------------------------------------------------------------------
  // Order

  /** `xs` is `ys` with some elements left out. */
  predicate IsSubsequence<T(==)>(xs: seq<T>, ys: seq<T>)
    decreases |ys|
  {
    xs == [] ||
    (ys != [] &&
     if xs[|xs| - 1] == ys[|ys| - 1] then IsSubsequence(xs[..|xs| - 1], ys[..|ys| - 1])
     else IsSubsequence(xs, ys[..|ys| - 1]))
  }

  lemma {:induction false} SubsequenceExtend<T>(xs: seq<T>, ys: seq<T>, y: T)
    requires IsSubsequence(xs, ys)
    ensures IsSubsequence(xs, ys + [y])
    decreases |ys|, 1
  {
    assert (ys + [y])[..|ys|] == ys;
    if xs != [] && xs[|xs| - 1] == y {
      SubsequenceDropLast(xs, ys);
    }
  }

  lemma {:induction false} SubsequenceDropLast<T>(xs: seq<T>, ys: seq<T>)
    requires xs != [] && IsSubsequence(xs, ys)
    ensures IsSubsequence(xs[..|xs| - 1], ys)
    decreases |ys|, 0
  {
    var ys' := ys[..|ys| - 1];
    assert ys == ys' + [ys[|ys| - 1]];
    if xs[|xs| - 1] == ys[|ys| - 1] {
      SubsequenceExtend(xs[..|xs| - 1], ys', ys[|ys| - 1]);
    } else {
      SubsequenceDropLast(xs, ys');
      SubsequenceExtend(xs[..|xs| - 1], ys', ys[|ys| - 1]);
    }
  }

  /** Each group lists its tabs in the order the host enumerated them. */
  lemma {:induction false} TabsWithKeyInOrder(tabs: seq<Tab>, key: KeyFn, k: string)
    ensures IsSubsequence(TabsWithKey(tabs, key, k), tabs)
  {
    if tabs != [] {
      var p, t := tabs[..|tabs| - 1], tabs[|tabs| - 1];
      var g := TabsWithKey(p, key, k);
      TabsWithKeyInOrder(p, key, k);
      assert tabs == p + [t];
      if key(t) == Some(k) {
        assert (g + [t])[..|g|] == g;
      } else {
        assert TabsWithKey(tabs, key, k) == g;
        SubsequenceExtend(g, p, t);
      }
    }
  }

  // ---------------------------------------------------------------------------
  // Membership

  /** Every tab with key k is in k's group. */
  lemma {:induction false} TabsWithKeyHolds(tabs: seq<Tab>, key: KeyFn, k: string, i: nat)
    requires i < |tabs| && key(tabs[i]) == Some(k)
    ensures tabs[i] in TabsWithKey(tabs, key, k)
  {
    var p := tabs[..|tabs| - 1];
    if i < |p| {
      assert p[i] == tabs[i];
      TabsWithKeyHolds(p, key, k, i);
    }
  }

  /** A key has tabs exactly when some tab carries it. */
  lemma TabsWithKeyEmpty(tabs: seq<Tab>, key: KeyFn, k: string)
    ensures TabsWithKey(tabs, key, k) == [] <==> !HasKey(tabs, key, k)
    ensures forall i :: 0 <= i < |tabs| && key(tabs[i]) == Some(k) ==> tabs[i] in TabsWithKey(tabs, key, k)
  {
    forall i | 0 <= i < |tabs| && key(tabs[i]) == Some(k) ensures tabs[i] in TabsWithKey(tabs, key, k) {
      TabsWithKeyHolds(tabs, key, k, i);
    }
    var g := TabsWithKey(tabs, key, k);
    if g != [] {
      assert g[0] in tabs;
      var i :| 0 <= i < |tabs| && tabs[i] == g[0];
      assert key(tabs[i]) == Some(k);
    }
  }

  /** The first-occurrence list holds exactly the keys some tab carries. */
  lemma {:induction false} FirstOccurrenceMembers(tabs: seq<Tab>, key: KeyFn)
    ensures forall k :: k in FirstOccurrence(tabs, key) <==> HasKey(tabs, key, k)
  {
    if tabs != [] {
      var p := tabs[..|tabs| - 1];
      FirstOccurrenceMembers(p, key);
      assert forall i :: 0 <= i < |p| ==> p[i] == tabs[i];
      forall k | HasKey(tabs, key, k) ensures k in FirstOccurrence(tabs, key) {
        var i :| 0 <= i < |tabs| && key(tabs[i]) == Some(k);
        if i < |p| {
          assert key(p[i]) == Some(k);
        }
      }
      forall k | k in FirstOccurrence(tabs, key) ensures HasKey(tabs, key, k) {
        if k in FirstOccurrence(p, key) {
          var i :| 0 <= i < |p| && key(p[i]) == Some(k);
          assert key(tabs[i]) == Some(k);
        } else {
          assert key(tabs[|tabs| - 1]) == Some(k);
        }
      }
    }
  }

  /** A key found in a list is found in every longer list that starts with it. */
  lemma HasKeyPrefix(tabs: seq<Tab>, key: KeyFn, k: string, n: nat)
    requires n <= |tabs| && HasKey(tabs[..n], key, k)
    ensures HasKey(tabs, key, k)
  {
    var i :| 0 <= i < n && key(tabs[..n][i]) == Some(k);
    assert tabs[i] == tabs[..n][i];
  }

  /**
   * The map's keys are in the order of their first tabs: some tab keyed with
   * an earlier key comes before every tab keyed with a later one.
   */
  lemma {:induction false} FirstOccurrenceOrder(tabs: seq<Tab>, key: KeyFn, a: nat, b: nat)
    requires a < b < |FirstOccurrence(tabs, key)|
    ensures var ks := FirstOccurrence(tabs, key);
      exists i :: 0 <= i < |tabs| && key(tabs[i]) == Some(ks[a]) && !HasKey(tabs[..i], key, ks[b])
  {
    var ks := FirstOccurrence(tabs, key);
    var p := tabs[..|tabs| - 1];
    var ks' := FirstOccurrence(p, key);
    assert ks[..|ks'|] == ks' && |ks| <= |ks'| + 1;
    if b < |ks'| {
      FirstOccurrenceOrder(p, key, a, b);
      var i :| 0 <= i < |p| && key(p[i]) == Some(ks'[a]) && !HasKey(p[..i], key, ks'[b]);
      assert tabs[i] == p[i] && tabs[..i] == p[..i];
      assert ks[a] == ks'[a] && ks[b] == ks'[b];
    } else {
      var k := ks[b];
      assert k !in ks' && ks[a] in ks' by {
        assert ks'[a] == ks[a];
      }
      FirstOccurrenceMembers(p, key);
      var i :| 0 <= i < |p| && key(p[i]) == Some(ks[a]);
      assert tabs[i] == p[i];
      if HasKey(tabs[..i], key, k) {
        assert tabs[..i] == p[..i];
        HasKeyPrefix(p, key, k, i);
        assert false;
      }
    }
  }

  // ---------------------------------------------------------------------------
  // The grouping loop

  /**
   * The first pass of the duplicate scan (js/background.js:158-184, copied at
   * js/popup.js:149-175): walk the tabs, skip those without a key, create the
   * key's list on first sight and append the tab to it.
   */
  method BuildUrlMap(tabs: seq<Tab>, key: KeyFn) returns (keys: seq<string>, groups: map<string, seq<Tab>>)
    ensures keys == FirstOccurrence(tabs, key)
    ensures groups == GroupMap(tabs, key)
  {
    keys, groups := [], map[];
    for i := 0 to |tabs|
      invariant keys == FirstOccurrence(tabs[..i], key)
      invariant forall k :: k in groups <==> k in keys
      invariant forall k :: k in groups ==> groups[k] == TabsWithKey(tabs[..i], key, k)
    {
      ghost var before := tabs[..i];
      assert tabs[..i + 1][..i] == before;
      FirstOccurrenceMembers(before, key);
      match key(tabs[i]) {
        case None =>
        case Some(k) =>
          if k !in groups {
            TabsWithKeyEmpty(before, key, k);
            keys := keys + [k];
            groups := groups[k := []];
          }
          groups := groups[k := groups[k] + [tabs[i]]];
      }
    }
    assert tabs[..|tabs|] == tabs;
  }

  // ---------------------------------------------------------------------------
  // Counting identities

  /** Appending a tab adds one to the group sizes of a distinct key list that holds its key. */
  lemma {:induction false} SizesStep(keys: seq<string>, p: seq<Tab>, t: Tab, key: KeyFn)
    requires Distinct(keys)
    ensures Sizes(keys, p + [t], key)
         == Sizes(keys, p, key) + (if key(t).Some? && key(t).value in keys then 1 else 0)
  {
    if keys != [] {
      var front := keys[..|keys| - 1];
      var k := keys[|keys| - 1];
      assert Distinct(front);
      SizesStep(front, p, t, key);
      assert (p + [t])[..|p|] == p;
      assert key(t).Some? && key(t).value in keys <==>
             (key(t).Some? && key(t).value in front) || key(t) == Some(k);
    }
  }

  /** Every included tab sits in exactly one group. */
  lemma {:induction false} SizesOfFirstOccurrence(tabs: seq<Tab>, key: KeyFn)
    ensures Sizes(FirstOccurrence(tabs, key), tabs, key) == IncludedCount(tabs, key)
  {
    if tabs != [] {
      var p := tabs[..|tabs| - 1];
      var t := tabs[|tabs| - 1];
      assert tabs == p + [t];
      SizesOfFirstOccurrence(p, key);
      var ks := FirstOccurrence(p, key);
      SizesStep(ks, p, t, key);
      match key(t) {
        case None =>
        case Some(k) =>
          if k !in ks {
            FirstOccurrenceMembers(p, key);
            TabsWithKeyEmpty(p, key, k);
            assert (ks + [k])[..|ks|] == ks;
          }
      }
    }
  }

  /** With every group non-empty, the excess is the group sizes minus the number of groups. */
  lemma {:induction false} ExcessOfNonEmptyGroups(keys: seq<string>, groups: map<string, seq<Tab>>, tabs: seq<Tab>, key: KeyFn)
    requires forall k :: k in keys ==> k in groups && groups[k] == TabsWithKey(tabs, key, k) && groups[k] != []
    ensures Excess(keys, groups) == Sizes(keys, tabs, key) - |keys|
    ensures Sizes(keys, tabs, key) >= |keys|
  {
    if keys != [] {
      ExcessOfNonEmptyGroups(keys[..|keys| - 1], groups, tabs, key);
    }
  }

  /**
   * The duplicate total is the number of included tabs minus the number of
   * distinct keys.
   */
  lemma DuplicateCountIdentity(tabs: seq<Tab>, key: KeyFn)
    ensures DuplicateTotal(tabs, key) == IncludedCount(tabs, key) - |FirstOccurrence(tabs, key)|
    ensures IncludedCount(tabs, key) >= |FirstOccurrence(tabs, key)|
  {
    var ks := FirstOccurrence(tabs, key);
    FirstOccurrenceMembers(tabs, key);
    forall k | k in ks ensures TabsWithKey(tabs, key, k) != [] {
      TabsWithKeyEmpty(tabs, key, k);
    }
    ExcessOfNonEmptyGroups(ks, GroupMap(tabs, key), tabs, key);
    SizesOfFirstOccurrence(tabs, key);
  }

  /** When all N >= 1 tabs share one key, the total is N - 1. */
  lemma {:induction false} SharedKeyTotal(tabs: seq<Tab>, key: KeyFn, k: string)
    requires |tabs| >= 1
    requires forall i :: 0 <= i < |tabs| ==> key(tabs[i]) == Some(k)
    ensures FirstOccurrence(tabs, key) == [k]
    ensures IncludedCount(tabs, key) == |tabs|
    ensures DuplicateTotal(tabs, key) == |tabs| - 1
  {
    if |tabs| > 1 {
      SharedKeyTotal(tabs[..|tabs| - 1], key, k);
    }
    DuplicateCountIdentity(tabs, key);
  }

  /** Two key functions that agree on the tabs at hand key and order them alike. */
  lemma {:induction false} SameKeysSameOrder(tabs: seq<Tab>, key1: KeyFn, key2: KeyFn, k: string)
    requires forall i :: 0 <= i < |tabs| ==> key1(tabs[i]) == key2(tabs[i])
    ensures FirstOccurrence(tabs, key1) == FirstOccurrence(tabs, key2)
    ensures TabsWithKey(tabs, key1, k) == TabsWithKey(tabs, key2, k)
  {
    if tabs != [] {
      SameKeysSameOrder(tabs[..|tabs| - 1], key1, key2, k);
    }
  }

  /** The grouping depends on the key function only through the keys of the tabs at hand. */
  lemma SameKeysSameGrouping(tabs: seq<Tab>, key1: KeyFn, key2: KeyFn)
    requires forall i :: 0 <= i < |tabs| ==> key1(tabs[i]) == key2(tabs[i])
    ensures FirstOccurrence(tabs, key1) == FirstOccurrence(tabs, key2)
    ensures GroupMap(tabs, key1) == GroupMap(tabs, key2)
    ensures DuplicateTotal(tabs, key1) == DuplicateTotal(tabs, key2)
  {
    var ks := FirstOccurrence(tabs, key1);
    forall k | k in ks ensures TabsWithKey(tabs, key1, k) == TabsWithKey(tabs, key2, k) {
      SameKeysSameOrder(tabs, key1, key2, k);
    }
    SameKeysSameOrder(tabs, key1, key2, "");
  }

  // ---------------------------------------------------------------------------
  // Which tab of a group comes first

  /** Some tab before position j has key k. */
  predicate EarlierWithKey(tabs: seq<Tab>, key: KeyFn, k: string, j: int) {
    exists i :: 0 <= i < j && i < |tabs| && key(tabs[i]) == Some(k)
  }

  function Tail<T>(s: seq<T>): seq<T> {
    if s == [] then [] else s[1..]
  }

  /** A group of tabs with distinct ids has distinct ids. */
  lemma {:induction false} TabsWithKeyIds(tabs: seq<Tab>, key: KeyFn, k: string)
    requires DistinctIds(tabs)
    ensures DistinctIds(TabsWithKey(tabs, key, k))
  {
    if tabs != [] {
      var p := tabs[..|tabs| - 1];
      var t := tabs[|tabs| - 1];
      assert DistinctIds(p);
      TabsWithKeyIds(p, key, k);
      var g := TabsWithKey(p, key, k);
      forall u | u in g ensures u.id != t.id {
        var i :| 0 <= i < |p| && p[i] == u;
        assert tabs[i] == u;
      }
    }
  }

  /** How the tail of a group grows when a tab is appended. */
  lemma TailStep(tabs: seq<Tab>, key: KeyFn, k: string)
    requires tabs != []
    ensures var p, t0 := tabs[..|tabs| - 1], tabs[|tabs| - 1];
      var g := TabsWithKey(p, key, k);
      var e := if key(t0) == Some(k) then [t0] else [];
      Tail(TabsWithKey(tabs, key, k)) == if g == [] then [] else Tail(g) + e
  {
  }

  /** A tab whose key occurred earlier is in its group after the first tab. */
  lemma {:induction false} LaterOccurrenceInTail(tabs: seq<Tab>, key: KeyFn, k: string, j: nat)
    requires j < |tabs| && key(tabs[j]) == Some(k) && EarlierWithKey(tabs, key, k, j)
    ensures tabs[j] in Tail(TabsWithKey(tabs, key, k))
  {
    var p, t0 := tabs[..|tabs| - 1], tabs[|tabs| - 1];
    var g := TabsWithKey(p, key, k);
    var e := if key(t0) == Some(k) then [t0] else [];
    var i :| 0 <= i < j && i < |tabs| && key(tabs[i]) == Some(k);
    assert g != [] by {
      assert p[i] == tabs[i];
      assert HasKey(p, key, k);
      TabsWithKeyEmpty(p, key, k);
    }
    assert Tail(TabsWithKey(tabs, key, k)) == Tail(g) + e by {
      TailStep(tabs, key, k);
    }
    if j < |p| {
      assert tabs[j] in Tail(g) by {
        assert p[j] == tabs[j] && p[i] == tabs[i];
        assert EarlierWithKey(p, key, k, j);
        LaterOccurrenceInTail(p, key, k, j);
      }
    } else {
      assert tabs[j] == t0 && e == [t0];
    }
  }

  /** A tab in a group after the first tab has an earlier tab with its key. */
  lemma {:induction false} TailIsLaterOccurrence(tabs: seq<Tab>, key: KeyFn, k: string, t: Tab)
    requires t in Tail(TabsWithKey(tabs, key, k))
    ensures exists j :: 0 <= j < |tabs| && tabs[j] == t && key(t) == Some(k) && EarlierWithKey(tabs, key, k, j)
  {
    var p, t0 := tabs[..|tabs| - 1], tabs[|tabs| - 1];
    var g := TabsWithKey(p, key, k);
    var e := if key(t0) == Some(k) then [t0] else [];
    assert g != [] && Tail(TabsWithKey(tabs, key, k)) == Tail(g) + e by {
      TailStep(tabs, key, k);
    }
    if t in Tail(g) {
      TailIsLaterOccurrence(p, key, k, t);
      var j :| 0 <= j < |p| && p[j] == t && key(t) == Some(k) && EarlierWithKey(p, key, k, j);
      assert tabs[j] == t && EarlierWithKey(tabs, key, k, j) by {
        var i :| 0 <= i < j && i < |p| && key(p[i]) == Some(k);
        assert tabs[i] == p[i] && tabs[j] == p[j];
      }
    } else {
      assert t == t0 && key(t0) == Some(k);
      assert EarlierWithKey(tabs, key, k, |tabs| - 1) by {
        var u := g[0];
        assert u in p;
        var i :| 0 <= i < |p| && p[i] == u;
        assert tabs[i] == u && key(u) == Some(k);
      }
    }
  }

  /**
   * The tabs of a group after its first one are exactly the tabs whose key
   * already occurred at an earlier position.
   */
  lemma LaterOccurrences(tabs: seq<Tab>, key: KeyFn, k: string)
    ensures forall j :: 0 <= j < |tabs| && key(tabs[j]) == Some(k) && EarlierWithKey(tabs, key, k, j) ==>
              tabs[j] in Tail(TabsWithKey(tabs, key, k))
    ensures forall t :: t in Tail(TabsWithKey(tabs, key, k)) ==>
              exists j :: 0 <= j < |tabs| && tabs[j] == t && key(t) == Some(k) && EarlierWithKey(tabs, key, k, j)
  {
    forall j | 0 <= j < |tabs| && key(tabs[j]) == Some(k) && EarlierWithKey(tabs, key, k, j)
      ensures tabs[j] in Tail(TabsWithKey(tabs, key, k))
    {
      LaterOccurrenceInTail(tabs, key, k, j);
    }
    forall t | t in Tail(TabsWithKey(tabs, key, k))
      ensures exists j :: 0 <= j < |tabs| && tabs[j] == t && key(t) == Some(k) && EarlierWithKey(tabs, key, k, j)
    {
      TailIsLaterOccurrence(tabs, key, k, t);
    }
  }
}
