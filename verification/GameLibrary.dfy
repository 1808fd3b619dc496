/** The launcher's list of games: adding a game merges the entries that are the same game. */
module GameLibrary {

  /** An entry. A missing time is 0 and a missing setting is empty; the title stands for the
      fields that an added game always brings along. */
  datatype Item = Item(id: string, path: string, title: string, favorite: bool, lastPlayed: int, playSeconds: int,
                       addedAt: int, profile: string, bootMode: string)

  /** The absolute path of a path, in the case that the file system uses. */
  type Normal = string -> string

  predicate SameGame(norm: Normal, a: Item, b: Item) {
    a.id == b.id || (norm(b.path) != "" && norm(a.path) == norm(b.path))
  }

  // ----- What an added game does -----

  /** The entries that are not the same game, in their order. */
  function Others(norm: Normal, items: seq<Item>, item: Item): seq<Item> {
    if items == [] then []
    else (if SameGame(norm, items[0], item) then [] else [items[0]]) + Others(norm, items[1..], item)
  }

  function Matching(norm: Normal, items: seq<Item>, item: Item): seq<Item> {
    if items == [] then []
    else (if SameGame(norm, items[0], item) then [items[0]] else []) + Matching(norm, items[1..], item)
  }

  ghost predicate IsMax(m: int, olds: seq<Item>, time: Item -> int) {
    (exists k :: 0 <= k < |olds| && time(olds[k]) == m) && forall k :: 0 <= k < |olds| ==> time(olds[k]) <= m
  }

  /** m is the least of the times that are not missing, or what it was if all are. */
  ghost predicate IsMin(m: int, olds: seq<Item>, time: Item -> int, otherwise: int) {
    if forall k :: 0 <= k < |olds| ==> time(olds[k]) == 0 then m == otherwise
    else
      && m != 0 && (exists k :: 0 <= k < |olds| && time(olds[k]) == m)
      && forall k :: 0 <= k < |olds| ==> time(olds[k]) == 0 || m <= time(olds[k])
  }

  /** s is the last of the settings that are not missing, or what it was if all are. */
  ghost predicate IsLast(s: string, olds: seq<Item>, setting: Item -> string, otherwise: string) {
    if forall k :: 0 <= k < |olds| ==> setting(olds[k]) == "" then s == otherwise
    else s != "" && exists k :: 0 <= k < |olds| && setting(olds[k]) == s && AllMissing(olds, setting, k + 1)
  }

  ghost predicate AllMissing(olds: seq<Item>, setting: Item -> string, from: nat) {
    forall l :: from <= l < |olds| ==> setting(olds[l]) == ""
  }

  ghost predicate Merges(merged: Item, item: Item, olds: seq<Item>) {
    && merged.id == item.id && merged.path == item.path && merged.title == item.title
    && (merged.favorite <==> exists k :: 0 <= k < |olds| && olds[k].favorite)
    && IsMax(merged.lastPlayed, olds, (i: Item) => i.lastPlayed)
    && IsMax(merged.playSeconds, olds, (i: Item) => i.playSeconds)
    && IsMin(merged.addedAt, olds, (i: Item) => i.addedAt, item.addedAt)
    && IsLast(merged.profile, olds, (i: Item) => i.profile, item.profile)
    && IsLast(merged.bootMode, olds, (i: Item) => i.bootMode, item.bootMode)
  }

  /** The list after a game is added: it replaces the first entry that is the same game and all
      others go, or it comes last. */
  ghost predicate Upserted(norm: Normal, before: seq<Item>, item: Item, merged: Item, after: seq<Item>) {
    if Matching(norm, before, item) == [] then merged == item && after == before + [item]
    else
      exists first :: 0 <= first < |before| && FirstMatch(norm, before, item, first)
        && after == before[..first] + [merged] + Others(norm, before[first..], item)
        && Merges(merged, item, Matching(norm, before, item))
  }

  ghost predicate FirstMatch(norm: Normal, items: seq<Item>, item: Item, first: nat) {
    && first < |items| && SameGame(norm, items[first], item)
    && forall k :: 0 <= k < first ==> !SameGame(norm, items[k], item)
  }

  // ----- Two entries that are merged -----

  lemma MaxOfTwo(m: int, a: Item, b: Item, time: Item -> int)
    ensures IsMax(m, [a, b], time) <==> m == if time(a) >= time(b) then time(a) else time(b)
  {
    var olds := [a, b];
    assert olds[0] == a && olds[1] == b;
  }

  lemma MinOfTwo(m: int, a: Item, b: Item, time: Item -> int, otherwise: int)
    ensures IsMin(m, [a, b], time, otherwise) <==>
      m == if time(a) == 0 && time(b) == 0 then otherwise
           else if time(a) == 0 || (time(b) != 0 && time(b) < time(a)) then time(b) else time(a)
  {
    var olds := [a, b];
    assert olds[0] == a && olds[1] == b;
  }

  lemma LastOfTwo(s: string, a: Item, b: Item, setting: Item -> string, otherwise: string)
    ensures IsLast(s, [a, b], setting, otherwise) <==>
      s == if setting(b) != "" then setting(b) else if setting(a) != "" then setting(a) else otherwise
  {
    var olds := [a, b];
    assert olds[0] == a && olds[1] == b;
    assert AllMissing(olds, setting, 2);
    assert AllMissing(olds, setting, 1) <==> setting(b) == "";
  }

  /** What two old entries and an added one become. */
  lemma MergeTwo(merged: Item, item: Item, a: Item, b: Item)
    ensures Merges(merged, item, [a, b]) <==>
      && merged.id == item.id && merged.path == item.path && merged.title == item.title
      && (merged.favorite <==> a.favorite || b.favorite)
      && merged.lastPlayed == (if a.lastPlayed >= b.lastPlayed then a.lastPlayed else b.lastPlayed)
      && merged.playSeconds == (if a.playSeconds >= b.playSeconds then a.playSeconds else b.playSeconds)
      && merged.addedAt == (
        if a.addedAt == 0 && b.addedAt == 0 then item.addedAt
        else if a.addedAt == 0 || (b.addedAt != 0 && b.addedAt < a.addedAt) then b.addedAt else a.addedAt)
      && merged.profile == (if b.profile != "" then b.profile else if a.profile != "" then a.profile else item.profile)
      && merged.bootMode == (
        if b.bootMode != "" then b.bootMode else if a.bootMode != "" then a.bootMode else item.bootMode)
  {
    hide IsMax, IsMin, IsLast;
    var olds := [a, b];
    assert olds[0] == a && olds[1] == b;
    MaxOfTwo(merged.lastPlayed, a, b, (i: Item) => i.lastPlayed);
    MaxOfTwo(merged.playSeconds, a, b, (i: Item) => i.playSeconds);
    MinOfTwo(merged.addedAt, a, b, (i: Item) => i.addedAt, item.addedAt);
    LastOfTwo(merged.profile, a, b, (i: Item) => i.profile, item.profile);
    LastOfTwo(merged.bootMode, a, b, (i: Item) => i.bootMode, item.bootMode);
  }

  // ----- Uniqueness -----

  /** No two entries share an id, or a normal path that is not empty. */
  ghost predicate Unique(norm: Normal, items: seq<Item>) {
    forall i, j :: 0 <= i < j < |items| ==>
      items[i].id != items[j].id && (norm(items[j].path) == "" || norm(items[i].path) != norm(items[j].path))
  }

  /** No two entries are the same game. */
  ghost predicate Distinct(norm: Normal, items: seq<Item>) {
    forall i, j :: 0 <= i < j < |items| ==> !SameGame(norm, items[i], items[j])
  }

  lemma UniqueIsDistinct(norm: Normal, items: seq<Item>)
    ensures Unique(norm, items) <==> Distinct(norm, items)
  {
    if Distinct(norm, items) {
      forall i, j | 0 <= i < j < |items|
        ensures items[i].id != items[j].id
        ensures norm(items[j].path) == "" || norm(items[i].path) != norm(items[j].path)
      {
        assert !SameGame(norm, items[i], items[j]);
      }
    }
  }

  /** Of the old entries those stay that have another id and, if the path of the added game is
      not empty, another path; and they stay as often as they were there. */
  lemma {:induction false} WhoStays(norm: Normal, items: seq<Item>, item: Item, x: Item)
    ensures multiset(Others(norm, items, item))[x] ==
      if x.id != item.id && (norm(item.path) == "" || norm(x.path) != norm(item.path)) then multiset(items)[x] else 0
    decreases |items|
  {
    if items != [] {
      WhoStays(norm, items[1..], item, x);
      assert items == [items[0]] + items[1..];
    }
  }

  lemma {:induction false} OthersAre(norm: Normal, items: seq<Item>, item: Item)
    requires Distinct(norm, items)
    ensures var r := Others(norm, items, item);
      && Distinct(norm, r) && |r| <= |items|
      && (forall k :: 0 <= k < |r| ==> r[k] in items && !SameGame(norm, r[k], item))
      && (forall k :: 0 <= k < |items| && !SameGame(norm, items[k], item) ==> items[k] in r)
    decreases |items|
  {
    hide SameGame;
    if items != [] {
      var rest := items[1..];
      OthersAre(norm, rest, item);
      assert forall x :: x in rest ==> !SameGame(norm, items[0], x);
    }
  }

  lemma {:induction false} OthersSplit(norm: Normal, items: seq<Item>, item: Item, first: nat)
    requires first <= |items| && forall k :: 0 <= k < first ==> !SameGame(norm, items[k], item)
    ensures Others(norm, items, item) == items[..first] + Others(norm, items[first..], item)
    ensures Matching(norm, items, item) == Matching(norm, items[first..], item)
    decreases first
  {
    hide SameGame;
    if first == 0 {
      assert items[0..] == items;
    } else {
      OthersSplit(norm, items[1..], item, first - 1);
      assert items[1..][first - 1..] == items[first..];
      assert items[..first] == [items[0]] + items[1..][..first - 1];
    }
  }

  lemma {:induction false} NoneMatch(norm: Normal, items: seq<Item>, item: Item)
    ensures Matching(norm, items, item) == [] <==> forall k :: 0 <= k < |items| ==> !SameGame(norm, items[k], item)
    ensures Matching(norm, items, item) == [] ==> Others(norm, items, item) == items
    decreases |items|
  {
    hide SameGame;
    if items != [] {
      NoneMatch(norm, items[1..], item);
    }
  }

  /** Entry k is this one, and the rest are those. */
  ghost predicate IsAmong(items: seq<Item>, k: nat, item: Item, rest: seq<Item>) {
    k < |items| && items[k] == item && items[..k] + items[k + 1..] == rest
  }

  /** All but the merged entry are the entries that are other games, in their order. */
  lemma OthersKeepOrder(norm: Normal, before: seq<Item>, item: Item, merged: Item, after: seq<Item>)
    requires Upserted(norm, before, item, merged, after)
    ensures exists k :: 0 <= k < |after| && IsAmong(after, k, merged, Others(norm, before, item))
  {
    hide SameGame, Merges;
    if Matching(norm, before, item) == [] {
      NoneMatch(norm, before, item);
      var k := |before|;
      assert after[..k] == before && after[k + 1..] == [] && before + [] == before;
      assert IsAmong(after, k, merged, Others(norm, before, item));
    } else {
      var first :| 0 <= first < |before| && FirstMatch(norm, before, item, first)
        && after == before[..first] + [merged] + Others(norm, before[first..], item)
        && Merges(merged, item, Matching(norm, before, item));
      OthersSplit(norm, before, item, first);
      assert after[..first] == before[..first] && after[first + 1..] == Others(norm, before[first..], item);
      assert IsAmong(after, first, merged, Others(norm, before, item));
    }
  }

  lemma Inserted(norm: Normal, s: seq<Item>, t: seq<Item>, k: nat, merged: Item)
    requires k < |t| && t[k] == merged && t[..k] + t[k + 1..] == s && Distinct(norm, s)
    requires forall i :: 0 <= i < |s| ==> !SameGame(norm, s[i], merged)
    ensures Distinct(norm, t)
  {
    forall i, j | 0 <= i < j < |t| ensures !SameGame(norm, t[i], t[j]) {
      var i', j' := if i < k then i else i - 1, if j < k then j else j - 1;
      if i == k {
        assert t[j] == s[j'];
      } else if j == k {
        assert t[i] == s[i'];
      } else {
        assert t[i] == s[i'] && t[j] == s[j'];
      }
    }
  }

  /** Adding a game keeps the entries unique. */
  lemma StaysUnique(norm: Normal, before: seq<Item>, item: Item, merged: Item, after: seq<Item>)
    requires Unique(norm, before) && Upserted(norm, before, item, merged, after)
    ensures Unique(norm, after)
  {
    UniqueIsDistinct(norm, before);
    OthersKeepOrder(norm, before, item, merged, after);
    var k :| 0 <= k < |after| && IsAmong(after, k, merged, Others(norm, before, item));
    OthersAre(norm, before, item);
    SameIdentity(norm, before, item, merged, after);
    UniqueIsDistinct(norm, after);
    Inserted(norm, Others(norm, before, item), after, k, merged);
  }

  lemma SameIdentity(norm: Normal, before: seq<Item>, item: Item, merged: Item, after: seq<Item>)
    requires Upserted(norm, before, item, merged, after)
    ensures merged.id == item.id && merged.path == item.path
  {
  }

  /** Whatever games are added to an empty list, its entries are unique all the time. */
  lemma {:induction false} AlwaysUnique(norm: Normal, added: seq<Item>, merged: seq<Item>, lists: seq<seq<Item>>)
    requires |lists| == |added| + 1 == |merged| + 1 && lists[0] == []
    requires forall k :: 0 <= k < |added| ==> Upserted(norm, lists[k], added[k], merged[k], lists[k + 1])
    ensures forall k :: 0 <= k < |lists| ==> Unique(norm, lists[k])
    decreases |added|
  {
    hide Upserted, Unique;
    var n := |added|;
    if n == 0 {
      EmptyUnique(norm);
    } else {
      AlwaysUnique(norm, added[..n - 1], merged[..n - 1], lists[..n]);
      assert Upserted(norm, lists[n - 1], added[n - 1], merged[n - 1], lists[n]);
      assert Unique(norm, lists[..n][n - 1]);
      StaysUnique(norm, lists[n - 1], added[n - 1], merged[n - 1], lists[n]);
    }
  }

  lemma EmptyUnique(norm: Normal)
    ensures Unique(norm, [])
  {
  }

  // ----- The library -----

  lemma {:induction false} MatchingNext(norm: Normal, items: seq<Item>, next: Item, item: Item)
    ensures Matching(norm, items + [next], item) ==
      Matching(norm, items, item) + if SameGame(norm, next, item) then [next] else []
    ensures Others(norm, items + [next], item) ==
      Others(norm, items, item) + if SameGame(norm, next, item) then [] else [next]
    decreases |items|
  {
    hide SameGame;
    if items == [] {
      assert items + [next] == [next];
      assert [next][1..] == [];
    } else {
      assert (items + [next])[1..] == items[1..] + [next];
      MatchingNext(norm, items[1..], next, item);
    }
  }

  class Library {
    const norm: Normal
    var items: seq<Item>

    constructor (norm: Normal)
      ensures this.norm == norm && items == []
    {
      this.norm, items := norm, [];
    }

    /** Add a game, or merge it with the entries that are the same game. */
    method Upsert(item: Item) returns (merged: Item)
      modifies this`items
      ensures Upserted(norm, old(items), item, merged, items)
    {
      hide SameGame, Merges;
      var all := items;
      var oldItems: seq<Item>, rest: seq<Item>, first: nat := [], [], |all|;
      for i := 0 to |all|
        invariant items == all && oldItems == Matching(norm, all[..i], item) && rest == Others(norm, all[..i], item)
        invariant oldItems == [] ==> forall k :: 0 <= k < i ==> !SameGame(norm, all[k], item)
        invariant oldItems != [] ==> first < i && FirstMatch(norm, all, item, first)
      {
        MatchingNext(norm, all[..i], all[i], item);
        assert all[..i + 1] == all[..i] + [all[i]];
        if SameGame(norm, all[i], item) {
          if oldItems == [] {
            first := i;
          }
          oldItems := oldItems + [all[i]];
        } else {
          rest := rest + [all[i]];
        }
      }
      assert all[..|all|] == all;
      if oldItems != [] {
        merged := Merge(item, oldItems);
        OthersSplit(norm, all, item, first);
        assert rest[..first] == all[..first] && rest[first..] == Others(norm, all[first..], item);
        items := rest[..first] + [merged] + rest[first..];
        return;
      }
      items := all + [item];
      merged := item;
    }

    /** What the merged entry takes from the old ones. */
    static method Merge(item: Item, olds: seq<Item>) returns (merged: Item)
      requires olds != []
      ensures Merges(merged, item, olds)
    {
      var favorite, lastPlayed, playSeconds := false, olds[0].lastPlayed, olds[0].playSeconds;
      for k := 0 to |olds|
        invariant favorite <==> exists j :: 0 <= j < k && olds[j].favorite
        invariant k > 0 ==> IsMax(lastPlayed, olds[..k], (i: Item) => i.lastPlayed)
        invariant k > 0 ==> IsMax(playSeconds, olds[..k], (i: Item) => i.playSeconds)
        invariant k == 0 ==> lastPlayed == olds[0].lastPlayed && playSeconds == olds[0].playSeconds
      {
        favorite := favorite || olds[k].favorite;
        lastPlayed := if olds[k].lastPlayed > lastPlayed then olds[k].lastPlayed else lastPlayed;
        playSeconds := if olds[k].playSeconds > playSeconds then olds[k].playSeconds else playSeconds;
      }
      assert olds[..|olds|] == olds;
      var addedAt := Earliest(olds, item.addedAt);
      var profile := LastOf(olds, (i: Item) => i.profile, item.profile);
      var bootMode := LastOf(olds, (i: Item) => i.bootMode, item.bootMode);
      merged := item.(favorite := favorite, lastPlayed := lastPlayed, playSeconds := playSeconds, addedAt := addedAt,
                      profile := profile, bootMode := bootMode);
    }

    static method Earliest(olds: seq<Item>, otherwise: int) returns (m: int)
      ensures IsMin(m, olds, (i: Item) => i.addedAt, otherwise)
    {
      var found := false;
      m := otherwise;
      for k := 0 to |olds|
        invariant !found ==> m == otherwise && forall j :: 0 <= j < k ==> olds[j].addedAt == 0
        invariant found ==> m != 0 && exists j :: 0 <= j < k && olds[j].addedAt == m
        invariant found ==> forall j :: 0 <= j < k ==> olds[j].addedAt == 0 || m <= olds[j].addedAt
      {
        if olds[k].addedAt != 0 {
          m := if found && m <= olds[k].addedAt then m else olds[k].addedAt;
          found := true;
        }
      }
    }

    static method LastOf(olds: seq<Item>, setting: Item -> string, otherwise: string) returns (s: string)
      ensures IsLast(s, olds, setting, otherwise)
    {
      var k := |olds|;
      while k > 0
        invariant 0 <= k <= |olds| && AllMissing(olds, setting, k)
      {
        k := k - 1;
        if setting(olds[k]) != "" {
          return setting(olds[k]);
        }
      }
      return otherwise;
    }
  }
}
