/**
 Grouping a group's dynamic roles by process and merging them into a user's roles
 (backend_nest/src/auth-keycloak/auth-keycloak.service.ts).
 */
module Roles {
  import opened Prelude
  import opened Positions
  import opened Uniques

  datatype Role = Role(roleCode: string, name: string, groupId: Option<string>)

  datatype DynamicRole = DynamicRole(processKey: string, roleCode: string, name: string)

  /** Roles of one process as stored on a user; `roles` is None when the stored value is no array. */
  datatype Stored = Stored(processKey: string, name: Option<string>, roles: Option<seq<Role>>)

  /** Roles of one process as both functions return them. */
  datatype Item = Item(processKey: string, name: string, roles: seq<Role>)

  // ---------- a Map of ECMA-262: entries in insertion order ----------

  datatype Entries = Entries(keys: seq<string>, items: map<string, Item>) {
    ghost predicate Valid() {
      && Distinct(keys)
      && (forall k :: k in keys <==> k in items)
      && forall k | k in items :: items[k].processKey == k
    }

    /** A key already present keeps its place. */
    function Set(item: Item): Entries {
      Entries(if item.processKey in keys then keys else keys + [item.processKey], items[item.processKey := item])
    }

    function Values(): (r: seq<Item>)
      requires Valid()
      ensures |r| == |keys| && forall i | 0 <= i < |r| :: r[i] == items[keys[i]]
    {
      assert forall i | 0 <= i < |keys| :: keys[i] in keys;
      seq(|keys|, i requires 0 <= i < |keys| => items[keys[i]])
    }
  }

  lemma SetSpec(entries: Entries, item: Item)
    requires entries.Valid()
    ensures entries.Set(item).Valid()
    ensures entries.Set(item).items == entries.items[item.processKey := item]
  {
  }

  /** Setting a key extends the keys as the first appearances of one more key do. */
  lemma SetKeys(entries: Entries, keys: seq<string>, item: Item)
    requires entries.keys == FirstAppearances(keys)
    ensures entries.Set(item).keys == FirstAppearances(keys + [item.processKey])
  {
  }

  // ---------- what grouping and merging mean, key by key ----------

  function DynamicKeys(dynamicRoles: seq<DynamicRole>): seq<string> {
    seq(|dynamicRoles|, i requires 0 <= i < |dynamicRoles| => dynamicRoles[i].processKey)
  }

  function StoredKeys(current: seq<Stored>): seq<string> {
    seq(|current|, i requires 0 <= i < |current| => current[i].processKey)
  }

  function ItemKeys(items: seq<Item>): seq<string> {
    seq(|items|, i requires 0 <= i < |items| => items[i].processKey)
  }

  /** The roles of one process among the dynamic ones, in order. */
  function RolesFor(dynamicRoles: seq<DynamicRole>, key: string, groupId: string): seq<Role> {
    if dynamicRoles == [] then []
    else
      var n := |dynamicRoles| - 1;
      var last := dynamicRoles[n];
      RolesFor(dynamicRoles[..n], key, groupId)
      + if last.processKey == key then [Role(last.roleCode, last.name, Some(groupId))] else []
  }

  /** The last stored item with this key, if any: an earlier one with the same key is overwritten. */
  function LastStored(current: seq<Stored>, key: string): Option<Stored> {
    if current == [] then None
    else
      var n := |current| - 1;
      if current[n].processKey == key then Some(current[n]) else LastStored(current[..n], key)
  }

  function StoredRoles(item: Stored): seq<Role> {
    if item.roles.Some? then item.roles.value else []
  }

  function CurrentRoles(current: seq<Stored>, key: string): seq<Role> {
    var last := LastStored(current, key);
    if last.Some? then StoredRoles(last.value) else []
  }

  /** All roles of one key, item after item. */
  function IncomingRoles(incoming: seq<Item>, key: string): seq<Role> {
    if incoming == [] then []
    else
      var n := |incoming| - 1;
      IncomingRoles(incoming[..n], key) + if incoming[n].processKey == key then incoming[n].roles else []
  }

  function FirstName(incoming: seq<Item>, key: string): Option<string> {
    if incoming == [] then None
    else
      var n := |incoming| - 1;
      var before := FirstName(incoming[..n], key);
      if before.None? && incoming[n].processKey == key then Some(incoming[n].name) else before
  }

  function MergedName(current: seq<Stored>, incoming: seq<Item>, key: string): string {
    var last := LastStored(current, key);
    var first := FirstName(incoming, key);
    if last.Some? then (if last.value.name.Some? then last.value.name.value else key)
    else if first.Some? then first.value else key
  }

  ghost predicate Grouped(dynamicRoles: seq<DynamicRole>, groupId: string, items: seq<Item>) {
    && ItemKeys(items) == FirstAppearances(DynamicKeys(dynamicRoles))
    && forall i | 0 <= i < |items| ::
         items[i] == Item(items[i].processKey, items[i].processKey, RolesFor(dynamicRoles, items[i].processKey, groupId))
  }

  ghost predicate Merged(current: seq<Stored>, incoming: seq<Item>, items: seq<Item>) {
    && ItemKeys(items) == FirstAppearances(StoredKeys(current) + ItemKeys(incoming))
    && forall i | 0 <= i < |items| ::
         var key := items[i].processKey;
         items[i] == Item(key, MergedName(current, incoming, key), CurrentRoles(current, key) + IncomingRoles(incoming, key))
  }

  // ---------- the two functions ----------

  /** The map while grouping, after the roles in `done`. */
  ghost predicate Grouping(entries: Entries, done: seq<DynamicRole>, groupId: string) {
    && entries.Valid() && entries.keys == FirstAppearances(DynamicKeys(done))
    && GroupedContent(entries.items, done, groupId)
  }

  ghost predicate GroupedContent(items: map<string, Item>, done: seq<DynamicRole>, groupId: string) {
    forall k :: GroupedAt(items, done, groupId, k)
  }

  ghost predicate GroupedAt(items: map<string, Item>, done: seq<DynamicRole>, groupId: string, k: string) {
    if k in items then items[k] == Item(k, k, RolesFor(done, k, groupId)) else RolesFor(done, k, groupId) == []
  }

  /** The entry a dynamic role leaves. */
  function Grown(items: map<string, Item>, r: DynamicRole, groupId: string): Item {
    var old_ := if r.processKey in items then items[r.processKey].roles else [];
    Item(r.processKey, r.processKey, old_ + [Role(r.roleCode, r.name, Some(groupId))])
  }

  lemma GroupedContentStep(items: map<string, Item>, done: seq<DynamicRole>, r: DynamicRole, groupId: string)
    requires GroupedContent(items, done, groupId)
    ensures GroupedContent(items[r.processKey := Grown(items, r, groupId)], done + [r], groupId)
  {
    var grown := items[r.processKey := Grown(items, r, groupId)];
    forall k ensures GroupedAt(grown, done + [r], groupId, k) {
      assert GroupedAt(items, done, groupId, k);
      GroupedAtNext(items, done, r, groupId, k);
    }
  }

  lemma GroupedAtNext(items: map<string, Item>, done: seq<DynamicRole>, r: DynamicRole, groupId: string, k: string)
    requires GroupedAt(items, done, groupId, k)
    ensures GroupedAt(items[r.processKey := Grown(items, r, groupId)], done + [r], groupId, k)
  {
    RolesForNext(done, r, groupId, k);
  }

  lemma GroupingStep(entries: Entries, done: seq<DynamicRole>, r: DynamicRole, groupId: string)
    requires Grouping(entries, done, groupId)
    ensures Grouping(entries.Set(Grown(entries.items, r, groupId)), done + [r], groupId)
  {
    var item := Grown(entries.items, r, groupId);
    SetSpec(entries, item);
    SetKeys(entries, DynamicKeys(done), item);
    assert DynamicKeys(done + [r]) == DynamicKeys(done) + [r.processKey];
    GroupedContentStep(entries.items, done, r, groupId);
  }

  lemma RolesForNext(done: seq<DynamicRole>, r: DynamicRole, groupId: string, k: string)
    ensures RolesFor(done + [r], k, groupId) ==
              RolesFor(done, k, groupId) + if r.processKey == k then [Role(r.roleCode, r.name, Some(groupId))] else []
  {
  }

  lemma GroupedValues(entries: Entries, dynamicRoles: seq<DynamicRole>, groupId: string)
    requires Grouping(entries, dynamicRoles, groupId)
    ensures Grouped(dynamicRoles, groupId, entries.Values())
  {
    assert ItemKeys(entries.Values()) == entries.keys;
    forall i | 0 <= i < |entries.keys| ensures GroupedAt(entries.items, dynamicRoles, groupId, entries.keys[i]) {
      assert entries.keys[i] in entries.keys;
    }
  }

  method MapRolesDynamicToRolesByProcess(dynamicRoles: seq<DynamicRole>, groupId: string) returns (items: seq<Item>)
    ensures Grouped(dynamicRoles, groupId, items)
  {
    var entries := Entries([], map[]);
    assert dynamicRoles[..0] == [];
    var i := 0;
    while i < |dynamicRoles|
      invariant 0 <= i <= |dynamicRoles|
      invariant Grouping(entries, dynamicRoles[..i], groupId)
    {
      var r := dynamicRoles[i];
      GroupingStep(entries, dynamicRoles[..i], r, groupId);
      assert dynamicRoles[..i + 1] == dynamicRoles[..i] + [r];
      var roles := [];
      if r.processKey in entries.items {
        roles := entries.items[r.processKey].roles;
      }
      var grown := Item(r.processKey, r.processKey, roles + [Role(r.roleCode, r.name, Some(groupId))]);
      assert grown == Grown(entries.items, r, groupId);
      entries := entries.Set(grown);
      i := i + 1;
    }
    assert dynamicRoles[..i] == dynamicRoles;
    GroupedValues(entries, dynamicRoles, groupId);
    items := entries.Values();
  }

  /** The map while copying the stored items in `done`. */
  ghost predicate Copying(entries: Entries, done: seq<Stored>) {
    entries.Valid() && entries.keys == FirstAppearances(StoredKeys(done)) && Copied(entries.items, done)
  }

  ghost predicate Copied(items: map<string, Item>, done: seq<Stored>) {
    && (forall k :: k in items <==> LastStored(done, k).Some?)
    && forall k | k in items :: items[k] == CopyOf(LastStored(done, k).value)
  }

  function CopyOf(item: Stored): Item {
    Item(item.processKey, if item.name.Some? then item.name.value else item.processKey, StoredRoles(item))
  }

  lemma CopyingStep(entries: Entries, done: seq<Stored>, item: Stored)
    requires Copying(entries, done)
    ensures Copying(entries.Set(CopyOf(item)), done + [item])
  {
    SetSpec(entries, CopyOf(item));
    SetKeys(entries, StoredKeys(done), CopyOf(item));
    assert StoredKeys(done + [item]) == StoredKeys(done) + [item.processKey];
    CopiedNext(entries.items, done, item);
  }

  lemma CopiedNext(items: map<string, Item>, done: seq<Stored>, item: Stored)
    requires Copied(items, done)
    ensures Copied(items[item.processKey := CopyOf(item)], done + [item])
  {
    LastStoredNext(done, item);
  }

  lemma LastStoredNext(done: seq<Stored>, item: Stored)
    ensures forall k :: LastStored(done + [item], k) == if item.processKey == k then Some(item) else LastStored(done, k)
  {
  }

  /** The map while merging, after all stored items and the incoming ones in `done`. */
  ghost predicate Merging(entries: Entries, current: seq<Stored>, done: seq<Item>) {
    && entries.Valid() && entries.keys == FirstAppearances(StoredKeys(current) + ItemKeys(done))
    && MergedContent(entries.items, current, done)
  }

  ghost predicate MergedContent(items: map<string, Item>, current: seq<Stored>, done: seq<Item>) {
    forall k :: MergedAt(items, current, done, k)
  }

  ghost predicate MergedAt(items: map<string, Item>, current: seq<Stored>, done: seq<Item>, k: string) {
    && (k in items <==> LastStored(current, k).Some? || FirstName(done, k).Some?)
    && (if k in items
        then items[k] == Item(k, MergedName(current, done, k), CurrentRoles(current, k) + IncomingRoles(done, k))
        else IncomingRoles(done, k) == [])
  }

  /** The entry an incoming item leaves. */
  function Pushed(items: map<string, Item>, item: Item): Item {
    if item.processKey in items then items[item.processKey].(roles := items[item.processKey].roles + item.roles) else item
  }

  lemma MergingStarts(entries: Entries, current: seq<Stored>)
    requires Copying(entries, current)
    ensures Merging(entries, current, [])
  {
    assert StoredKeys(current) + ItemKeys([]) == StoredKeys(current);
    forall k ensures LastStored(current, k).Some? ==> LastStored(current, k).value.processKey == k {
      LastStoredIsLast(current, k);
    }
  }

  lemma MergedContentStep(items: map<string, Item>, current: seq<Stored>, done: seq<Item>, item: Item)
    requires MergedContent(items, current, done)
    ensures MergedContent(items[item.processKey := Pushed(items, item)], current, done + [item])
    ensures Pushed(items, item).processKey == item.processKey
  {
    assert MergedAt(items, current, done, item.processKey);
    var pushed := items[item.processKey := Pushed(items, item)];
    forall k ensures MergedAt(pushed, current, done + [item], k) {
      MergedAtStep(items, current, done, item, k);
    }
  }

  lemma MergedAtStep(items: map<string, Item>, current: seq<Stored>, done: seq<Item>, item: Item, k: string)
    requires MergedAt(items, current, done, k)
    ensures MergedAt(items[item.processKey := Pushed(items, item)], current, done + [item], k)
  {
  }

  lemma MergingStep(entries: Entries, current: seq<Stored>, done: seq<Item>, item: Item)
    requires Merging(entries, current, done)
    ensures Merging(entries.Set(Pushed(entries.items, item)), current, done + [item])
  {
    MergedContentStep(entries.items, current, done, item);
    SetSpec(entries, Pushed(entries.items, item));
    SetKeys(entries, StoredKeys(current) + ItemKeys(done), Pushed(entries.items, item));
    assert StoredKeys(current) + ItemKeys(done + [item]) == StoredKeys(current) + ItemKeys(done) + [item.processKey];
  }

  lemma MergedValues(entries: Entries, current: seq<Stored>, incoming: seq<Item>)
    requires Merging(entries, current, incoming)
    ensures Merged(current, incoming, entries.Values())
  {
    var items := entries.Values();
    assert ItemKeys(items) == entries.keys;
    forall i | 0 <= i < |items|
      ensures items[i] == Item(items[i].processKey, MergedName(current, incoming, items[i].processKey),
                               CurrentRoles(current, items[i].processKey) + IncomingRoles(incoming, items[i].processKey))
    {
      assert entries.keys[i] in entries.keys;
      assert MergedAt(entries.items, current, incoming, entries.keys[i]);
    }
  }

  method CopyStored(current: seq<Stored>) returns (entries: Entries)
    ensures Copying(entries, current)
  {
    entries := Entries([], map[]);
    assert current[..0] == [];
    var i := 0;
    while i < |current|
      invariant 0 <= i <= |current|
      invariant Copying(entries, current[..i])
    {
      CopyingStep(entries, current[..i], current[i]);
      assert current[..i + 1] == current[..i] + [current[i]];
      entries := entries.Set(CopyOf(current[i]));
      i := i + 1;
    }
    assert current[..i] == current;
  }

  method MergeRolesByProcess(current: seq<Stored>, incoming: seq<Item>) returns (items: seq<Item>)
    ensures Merged(current, incoming, items)
  {
    var entries := CopyStored(current);
    MergingStarts(entries, current);
    assert incoming[..0] == [];
    var i := 0;
    while i < |incoming|
      invariant 0 <= i <= |incoming|
      invariant Merging(entries, current, incoming[..i])
    {
      MergingStep(entries, current, incoming[..i], incoming[i]);
      assert incoming[..i + 1] == incoming[..i] + [incoming[i]];
      var existed := incoming[i].processKey in entries.items;
      if existed {
        var old_ := entries.items[incoming[i].processKey];
        entries := entries.Set(old_.(roles := old_.roles + incoming[i].roles));
      } else {
        entries := entries.Set(incoming[i]);
      }
      i := i + 1;
    }
    assert incoming[..i] == incoming;
    MergedValues(entries, current, incoming);
    items := entries.Values();
  }

  // ---------- nothing lost, nothing invented ----------

  function Sum(keys: seq<string>, count: string -> nat): nat {
    if keys == [] then 0 else count(keys[0]) + Sum(keys[1..], count)
  }

  lemma {:induction false} SumSame(keys: seq<string>, f: string -> nat, g: string -> nat)
    requires forall k | k in keys :: f(k) == g(k)
    ensures Sum(keys, f) == Sum(keys, g)
  {
    if keys != [] {
      assert keys[0] in keys;
      SumSame(keys[1..], f, g);
    }
  }

  /** Raising one count raises the sum by as much. */
  lemma {:induction false} SumRaised(keys: seq<string>, f: string -> nat, g: string -> nat, key: string, more: nat)
    requires Distinct(keys) && key in keys
    requires forall k | k in keys :: g(k) == f(k) + if k == key then more else 0
    ensures Sum(keys, g) == Sum(keys, f) + more
  {
    assert keys[0] in keys;
    assert keys == [keys[0]] + keys[1..];
    if keys[0] == key {
      SumSame(keys[1..], f, g);
    } else {
      SumRaised(keys[1..], f, g, key, more);
    }
  }

  lemma {:induction false} SumOfBoth(keys: seq<string>, f: string -> nat, g: string -> nat, both: string -> nat)
    requires forall k | k in keys :: both(k) == f(k) + g(k)
    ensures Sum(keys, both) == Sum(keys, f) + Sum(keys, g)
  {
    if keys != [] {
      assert keys[0] in keys;
      SumOfBoth(keys[1..], f, g, both);
    }
  }

  lemma {:induction false} SumOfNothing(keys: seq<string>, f: string -> nat)
    requires forall k | k in keys :: f(k) == 0
    ensures Sum(keys, f) == 0
  {
    if keys != [] {
      assert keys[0] in keys;
      SumOfNothing(keys[1..], f);
    }
  }

  function Total(items: seq<Item>): nat {
    if items == [] then 0 else |items[0].roles| + Total(items[1..])
  }

  function TotalStored(current: seq<Stored>): nat {
    if current == [] then 0
    else var n := |current| - 1; TotalStored(current[..n]) + |StoredRoles(current[n])|
  }

  lemma {:induction false} TotalIsSum(items: seq<Item>, count: string -> nat)
    requires forall i | 0 <= i < |items| :: |items[i].roles| == count(items[i].processKey)
    ensures Total(items) == Sum(ItemKeys(items), count)
  {
    if items != [] {
      TotalIsSum(items[1..], count);
      assert ItemKeys(items)[1..] == ItemKeys(items[1..]);
    }
  }

  lemma {:induction false} TotalOfAppended(items: seq<Item>, last: Item)
    ensures Total(items + [last]) == Total(items) + |last.roles|
  {
    if items != [] {
      TotalOfAppended(items[1..], last);
      assert (items + [last])[1..] == items[1..] + [last];
    }
  }

  function CountIncoming(incoming: seq<Item>): string -> nat {
    (k: string) => |IncomingRoles(incoming, k)|
  }

  function CountCurrent(current: seq<Stored>): string -> nat {
    (k: string) => |CurrentRoles(current, k)|
  }

  function CountDynamic(dynamicRoles: seq<DynamicRole>, groupId: string): string -> nat {
    (k: string) => |RolesFor(dynamicRoles, k, groupId)|
  }

  lemma {:induction false} IncomingCounted(incoming: seq<Item>, keys: seq<string>)
    requires Distinct(keys) && forall i | 0 <= i < |incoming| :: incoming[i].processKey in keys
    ensures Sum(keys, CountIncoming(incoming)) == Total(incoming)
  {
    if incoming == [] {
      SumOfNothing(keys, CountIncoming(incoming));
    } else {
      var n := |incoming| - 1;
      IncomingCounted(incoming[..n], keys);
      SumRaised(keys, CountIncoming(incoming[..n]), CountIncoming(incoming), incoming[n].processKey, |incoming[n].roles|);
      TotalOfAppended(incoming[..n], incoming[n]);
      assert incoming == incoming[..n] + [incoming[n]];
    }
  }

  /** Roles of stored items overwritten by a later item with the same key. */
  function Overwritten(current: seq<Stored>): nat {
    if current == [] then 0
    else var n := |current| - 1; Overwritten(current[..n]) + |CurrentRoles(current[..n], current[n].processKey)|
  }

  lemma {:induction false} CurrentCounted(current: seq<Stored>, keys: seq<string>)
    requires Distinct(keys) && forall i | 0 <= i < |current| :: current[i].processKey in keys
    ensures Sum(keys, CountCurrent(current)) + Overwritten(current) == TotalStored(current)
  {
    if current == [] {
      SumOfNothing(keys, CountCurrent(current));
    } else {
      var n := |current| - 1;
      var key := current[n].processKey;
      CurrentCounted(current[..n], keys);
      var f, g := CountCurrent(current[..n]), CountCurrent(current);
      var none: string -> nat := (k: string) => if k == key then 0 else f(k);
      SumRaised(keys, none, f, key, |CurrentRoles(current[..n], key)|);
      SumRaised(keys, none, g, key, |StoredRoles(current[n])|);
    }
  }

  /** A stored item whose key comes again later loses its roles. */
  ghost predicate RepeatsAreEmpty(current: seq<Stored>) {
    forall i, j | 0 <= i < j < |current| && current[i].processKey == current[j].processKey :: StoredRoles(current[i]) == []
  }

  lemma {:induction false} LastStoredIsLast(current: seq<Stored>, key: string)
    ensures LastStored(current, key).None? <==> forall i | 0 <= i < |current| :: current[i].processKey != key
    ensures LastStored(current, key).Some? ==>
              exists i :: 0 <= i < |current| && current[i].processKey == key && current[i] == LastStored(current, key).value
                          && forall j | i < j < |current| :: current[j].processKey != key
  {
    if current != [] {
      var n := |current| - 1;
      if current[n].processKey != key {
        LastStoredIsLast(current[..n], key);
        if LastStored(current[..n], key).Some? {
          var i :| 0 <= i < n && current[..n][i].processKey == key && current[..n][i] == LastStored(current, key).value
                   && forall j | i < j < n :: current[..n][j].processKey != key;
          assert current[i].processKey == key && forall j | i < j < |current| :: j == n || current[j] == current[..n][j];
        }
      } else {
        assert current[n].processKey == key && current[n] == LastStored(current, key).value;
      }
    }
  }

  lemma {:induction false} NothingOverwritten(current: seq<Stored>)
    ensures Overwritten(current) == 0 <==> RepeatsAreEmpty(current)
  {
    if current != [] {
      var n := |current| - 1;
      var front := current[..n];
      NothingOverwritten(front);
      LastStoredIsLast(front, current[n].processKey);
      assert forall i | 0 <= i < n :: current[i] == front[i];
      if RepeatsAreEmpty(current) {
        assert RepeatsAreEmpty(front);
      }
      if Overwritten(current) == 0 {
        forall i, j | 0 <= i < j < |current| && current[i].processKey == current[j].processKey ensures StoredRoles(current[i]) == [] {
          if j == n {
            var l :| 0 <= l < n && front[l].processKey == current[n].processKey
                     && front[l] == LastStored(front, current[n].processKey).value
                     && forall m | l < m < n :: front[m].processKey != current[n].processKey;
            if i < l { assert front[i].processKey == front[l].processKey; }
          } else {
            assert front[i].processKey == front[j].processKey;
          }
        }
      }
    }
  }

  /** Grouping keeps every dynamic role: as many out as in. */
  lemma GroupingKeepsCount(dynamicRoles: seq<DynamicRole>, groupId: string, items: seq<Item>)
    requires Grouped(dynamicRoles, groupId, items)
    ensures Total(items) == |dynamicRoles|
  {
    var keys := ItemKeys(items);
    FirstAppearancesInOrder(DynamicKeys(dynamicRoles));
    TotalIsSum(items, CountDynamic(dynamicRoles, groupId));
    forall i | 0 <= i < |dynamicRoles| ensures dynamicRoles[i].processKey in keys {
      assert DynamicKeys(dynamicRoles)[i] in DynamicKeys(dynamicRoles);
    }
    DynamicCounted(dynamicRoles, groupId, keys);
  }

  lemma {:induction false} DynamicCounted(dynamicRoles: seq<DynamicRole>, groupId: string, keys: seq<string>)
    requires Distinct(keys) && forall i | 0 <= i < |dynamicRoles| :: dynamicRoles[i].processKey in keys
    ensures Sum(keys, CountDynamic(dynamicRoles, groupId)) == |dynamicRoles|
  {
    if dynamicRoles == [] {
      SumOfNothing(keys, CountDynamic(dynamicRoles, groupId));
    } else {
      var n := |dynamicRoles| - 1;
      DynamicCounted(dynamicRoles[..n], groupId, keys);
      SumRaised(keys, CountDynamic(dynamicRoles[..n], groupId), CountDynamic(dynamicRoles, groupId), dynamicRoles[n].processKey, 1);
    }
  }

  /** Merging keeps all roles of both inputs but the overwritten ones. */
  lemma MergingCounts(current: seq<Stored>, incoming: seq<Item>, items: seq<Item>)
    requires Merged(current, incoming, items)
    ensures Total(items) + Overwritten(current) == TotalStored(current) + Total(incoming)
  {
    var keys := ItemKeys(items);
    MergedKeys(current, incoming, items);
    MergedTotal(current, incoming, items);
    CurrentCounted(current, keys);
    IncomingCounted(incoming, keys);
  }

  lemma MergedKeys(current: seq<Stored>, incoming: seq<Item>, items: seq<Item>)
    requires ItemKeys(items) == FirstAppearances(StoredKeys(current) + ItemKeys(incoming))
    ensures Distinct(ItemKeys(items))
    ensures forall i | 0 <= i < |current| :: current[i].processKey in ItemKeys(items)
    ensures forall i | 0 <= i < |incoming| :: incoming[i].processKey in ItemKeys(items)
  {
    var all := StoredKeys(current) + ItemKeys(incoming);
    FirstAppearancesInOrder(all);
    forall i | 0 <= i < |current| ensures current[i].processKey in ItemKeys(items) {
      assert all[i] in all;
    }
    forall i | 0 <= i < |incoming| ensures incoming[i].processKey in ItemKeys(items) {
      assert all[|current| + i] in all;
    }
  }

  lemma MergedTotal(current: seq<Stored>, incoming: seq<Item>, items: seq<Item>)
    requires Merged(current, incoming, items)
    ensures Total(items) == Sum(ItemKeys(items), CountCurrent(current)) + Sum(ItemKeys(items), CountIncoming(incoming))
  {
    var f, g := CountCurrent(current), CountIncoming(incoming);
    var both: string -> nat := (k: string) => f(k) + g(k);
    TotalIsSum(items, both);
    SumOfBoth(ItemKeys(items), f, g, both);
  }

  /** One role for each of these positions: the code and name found there, and the group. */
  ghost predicate RolesAt(roles: seq<Role>, dynamicRoles: seq<DynamicRole>, groupId: string, at: seq<nat>) {
    && |at| == |roles|
    && forall j | 0 <= j < |at| ::
         && at[j] < |dynamicRoles|
         && roles[j].roleCode == dynamicRoles[at[j]].roleCode && roles[j].name == dynamicRoles[at[j]].name
         && roles[j].groupId == Some(groupId)
  }

  /** The positions are exactly those at which the key stands. */
  ghost predicate AllOfKey(dynamicRoles: seq<DynamicRole>, key: string, at: seq<nat>) {
    forall k: nat :: k in at <==> k < |dynamicRoles| && dynamicRoles[k].processKey == key
  }

  /** Each item carries its key as its name, and a role for each dynamic role of that key, in order. */
  lemma GroupedInOrder(dynamicRoles: seq<DynamicRole>, groupId: string, items: seq<Item>, i: nat) returns (at: seq<nat>)
    requires Grouped(dynamicRoles, groupId, items) && i < |items|
    ensures items[i].name == items[i].processKey
    ensures Increasing(at) && AllOfKey(dynamicRoles, items[i].processKey, at)
    ensures RolesAt(items[i].roles, dynamicRoles, groupId, at)
  {
    at := RolesForInOrder(dynamicRoles, items[i].processKey, groupId);
  }

  lemma {:induction false} RolesForInOrder(dynamicRoles: seq<DynamicRole>, key: string, groupId: string) returns (at: seq<nat>)
    ensures Increasing(at) && AllOfKey(dynamicRoles, key, at)
    ensures RolesAt(RolesFor(dynamicRoles, key, groupId), dynamicRoles, groupId, at)
  {
    at := [];
    if dynamicRoles != [] {
      var n := |dynamicRoles| - 1;
      var front := RolesForInOrder(dynamicRoles[..n], key, groupId);
      at := if dynamicRoles[n].processKey == key then front + [n] else front;
      OneMoreOfKey(dynamicRoles, key, front);
      OneMoreRole(dynamicRoles, RolesFor(dynamicRoles[..n], key, groupId), groupId, front);
    }
  }

  lemma OneMoreOfKey(dynamicRoles: seq<DynamicRole>, key: string, front: seq<nat>)
    requires dynamicRoles != []
    requires Increasing(front) && AllOfKey(dynamicRoles[..|dynamicRoles| - 1], key, front)
    ensures var n := |dynamicRoles| - 1;
            var at := if dynamicRoles[n].processKey == key then front + [n] else front;
            Increasing(at) && AllOfKey(dynamicRoles, key, at)
  {
    var n := |dynamicRoles| - 1;
    forall k: nat ensures k in front <==> k < n && dynamicRoles[k].processKey == key {
      assert k < n ==> dynamicRoles[..n][k] == dynamicRoles[k];
    }
    OneMore(front, n);
  }

  lemma OneMoreRole(dynamicRoles: seq<DynamicRole>, roles: seq<Role>, groupId: string, front: seq<nat>)
    requires dynamicRoles != [] && RolesAt(roles, dynamicRoles[..|dynamicRoles| - 1], groupId, front)
    ensures var n := |dynamicRoles| - 1;
            && RolesAt(roles, dynamicRoles, groupId, front)
            && RolesAt(roles + [Role(dynamicRoles[n].roleCode, dynamicRoles[n].name, Some(groupId))], dynamicRoles, groupId, front + [n])
  {
    assert forall k | 0 <= k < |dynamicRoles| - 1 :: dynamicRoles[..|dynamicRoles| - 1][k] == dynamicRoles[k];
  }

  /**
   With distinct keys on either side: a stored item keeps its place, name (its key without one) and roles
   (none where they are no list), followed by the incoming item's; every other incoming item stays as it is.
   */
  lemma MergedFieldByField(current: seq<Stored>, incoming: seq<Item>, items: seq<Item>, i: nat)
    requires Merged(current, incoming, items) && i < |items|
    requires Distinct(StoredKeys(current)) && Distinct(ItemKeys(incoming))
    ensures |current| <= |items|
    ensures i < |current| ==>
              && items[i].processKey == current[i].processKey
              && items[i].name == (match current[i].name case Some(name) => name case None => current[i].processKey)
    ensures i < |current| ==>
              var kept := match current[i].roles case Some(roles) => roles case None => [];
              && (forall k | 0 <= k < |incoming| && incoming[k].processKey == current[i].processKey :: items[i].roles == kept + incoming[k].roles)
              && ((forall k | 0 <= k < |incoming| :: incoming[k].processKey != current[i].processKey) ==> items[i].roles == kept)
    ensures i >= |current| ==> items[i] in incoming && forall j | 0 <= j < |current| :: current[j].processKey != items[i].processKey
  {
    KeptItemsFirst(current, incoming, items);
    if i < |current| {
      MergedByKey(current, incoming, items, i);
      IncomingExactly(incoming, current[i].processKey);
      assert StoredRoles(current[i]) + [] == StoredRoles(current[i]);
    } else {
      IncomingStays(current, incoming, items, i);
    }
  }

  lemma KeptItemsFirst(current: seq<Stored>, incoming: seq<Item>, items: seq<Item>)
    requires Merged(current, incoming, items) && Distinct(StoredKeys(current))
    ensures |current| <= |items|
  {
    FirstAppearancesInOrder(StoredKeys(current) + ItemKeys(incoming));
    DistinctPrefixStays(StoredKeys(current), ItemKeys(incoming));
    assert |ItemKeys(items)| == |items|;
  }

  /** With distinct keys the incoming roles of a key are those of the one item that has it. */
  lemma IncomingExactly(incoming: seq<Item>, key: string)
    requires Distinct(ItemKeys(incoming))
    ensures forall k | 0 <= k < |incoming| && incoming[k].processKey == key :: IncomingRoles(incoming, key) == incoming[k].roles
    ensures (forall k | 0 <= k < |incoming| :: incoming[k].processKey != key) ==> IncomingRoles(incoming, key) == []
  {
    assert forall k | 0 <= k < |incoming| :: ItemKeys(incoming)[k] == incoming[k].processKey;
    forall k | 0 <= k < |incoming| && incoming[k].processKey == key ensures IncomingRoles(incoming, key) == incoming[k].roles {
      IncomingOfOne(incoming, key, k);
    }
    if forall k | 0 <= k < |incoming| :: incoming[k].processKey != key {
      IncomingOfNone(incoming, key);
    }
  }

  lemma {:induction false} IncomingOfNone(incoming: seq<Item>, key: string)
    requires forall k | 0 <= k < |incoming| :: incoming[k].processKey != key
    ensures IncomingRoles(incoming, key) == [] && FirstName(incoming, key) == None
  {
    if incoming != [] {
      IncomingOfNone(incoming[..|incoming| - 1], key);
    }
  }

  lemma {:induction false} IncomingOfOne(incoming: seq<Item>, key: string, k: nat)
    requires k < |incoming| && incoming[k].processKey == key
    requires forall l | 0 <= l < |incoming| && l != k :: incoming[l].processKey != key
    ensures IncomingRoles(incoming, key) == incoming[k].roles && FirstName(incoming, key) == Some(incoming[k].name)
  {
    var n := |incoming| - 1;
    if k < n {
      IncomingOfOne(incoming[..n], key, k);
    } else {
      IncomingOfNone(incoming[..n], key);
    }
  }

  lemma IncomingStays(current: seq<Stored>, incoming: seq<Item>, items: seq<Item>, i: nat)
    requires Merged(current, incoming, items) && |current| <= i < |items|
    requires Distinct(StoredKeys(current)) && Distinct(ItemKeys(incoming))
    ensures items[i] in incoming && forall j | 0 <= j < |current| :: current[j].processKey != items[i].processKey
  {
    var a, b, key := StoredKeys(current), ItemKeys(incoming), items[i].processKey;
    FirstAppearancesInOrder(a + b);
    DistinctPrefixStays(a, b);
    var keys := ItemKeys(items);
    assert keys[i] == key && key in a + b;
    forall j | 0 <= j < |current| ensures current[j].processKey != key {
      assert keys[j] == a[j] == current[j].processKey && keys[j] != keys[i];
    }
    assert key !in a;
    var k :| 0 <= k < |b| && b[k] == key;
    assert forall l | 0 <= l < |incoming| :: b[l] == incoming[l].processKey;
    IncomingOfOne(incoming, key, k);
    LastStoredIsLast(current, key);
    assert items[i] == incoming[k];
  }

  /**
   The merged total is the sum of both totals exactly when every stored item whose key is repeated
   later has no roles; so always when the stored keys are distinct.
   */
  lemma MergingKeepsCountExactlyWhen(current: seq<Stored>, incoming: seq<Item>, items: seq<Item>)
    requires Merged(current, incoming, items)
    ensures Total(items) == TotalStored(current) + Total(incoming) <==> RepeatsAreEmpty(current)
    ensures Distinct(StoredKeys(current)) ==> RepeatsAreEmpty(current)
  {
    MergingCounts(current, incoming, items);
    NothingOverwritten(current);
    assert forall i | 0 <= i < |current| :: StoredKeys(current)[i] == current[i].processKey;
  }

  /** Merged roles: one item a key, in first-appearance order, the stored roles before the incoming ones. */
  lemma MergedByKey(current: seq<Stored>, incoming: seq<Item>, items: seq<Item>, i: nat)
    requires Merged(current, incoming, items) && Distinct(StoredKeys(current)) && i < |current|
    ensures Distinct(ItemKeys(items))
    ensures i < |items| && items[i].processKey == current[i].processKey
    ensures items[i].roles == StoredRoles(current[i]) + IncomingRoles(incoming, current[i].processKey)
    ensures items[i].name == if current[i].name.Some? then current[i].name.value else current[i].processKey
  {
    var a, b := StoredKeys(current), ItemKeys(incoming);
    FirstAppearancesInOrder(a + b);
    DistinctPrefixStays(a, b);
    assert ItemKeys(items)[i] == a[i];
    LastStoredIsLast(current, current[i].processKey);
    var l :| 0 <= l < |current| && current[l].processKey == current[i].processKey
             && current[l] == LastStored(current, current[i].processKey).value;
    assert a[l] == a[i];
  }
}
