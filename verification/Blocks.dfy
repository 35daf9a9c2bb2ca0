/**
 Page blocks: an array with soft deletion that stands for a keyed, ordered map of visible blocks
 (backend_nest/src/block/block.service.ts).
 */
module Blocks {
  import opened Prelude
  import opened Positions
  import opened StableSort

  /** One block; an absent status counts as visible, and `data` holds the remaining fields. */
  datatype Block = Block(key: string, name: string, order: real, status: Option<int>, data: map<string, string>)

  /** The fields an update sends. */
  datatype Patch = Patch(key: Option<string>, name: Option<string>, order: Option<real>, status: Option<int>,
                         data: map<string, string>)

  datatype Position = Position(key: string, order: real)

  predicate Visible(block: Block) {
    block.status != Some(0)
  }

  function ByOrder(): Block -> real {
    (block: Block) => block.order
  }

  /** Index of the first block with this key, visible or not. */
  function IndexOf(blocks: seq<Block>, key: string): (i: Option<nat>)
    ensures i.Some? ==> i.value < |blocks| && blocks[i.value].key == key
    ensures i.None? ==> forall b | b in blocks :: b.key != key
  {
    if blocks == [] then None
    else if blocks[0].key == key then Some(0)
    else
      var rest := IndexOf(blocks[1..], key);
      if rest.Some? then Some(rest.value + 1) else None
  }

  /** Index of the first visible block with this key. */
  function IndexOfVisible(blocks: seq<Block>, key: string): (i: Option<nat>)
    ensures i.Some? ==> i.value < |blocks| && blocks[i.value].key == key && Visible(blocks[i.value])
    ensures i.None? ==> forall b | b in blocks :: b.key != key || !Visible(b)
  {
    if blocks == [] then None
    else if blocks[0].key == key && Visible(blocks[0]) then Some(0)
    else
      var rest := IndexOfVisible(blocks[1..], key);
      if rest.Some? then Some(rest.value + 1) else None
  }

  // ---------- operations on the stored array ----------

  /** None when a visible block already has the key. */
  function Add(blocks: seq<Block>, block: Block): Option<seq<Block>> {
    if IndexOfVisible(blocks, block.key).Some? then None
    else
      var added := block.(status := Some(1));
      var i := IndexOf(blocks, block.key);
      var stored := if i.Some? then blocks[i.value := added] else blocks + [added];
      Some(Sort(stored, ByOrder()))
  }

  function Delete(blocks: seq<Block>, key: string): Option<seq<Block>> {
    match IndexOfVisible(blocks, key)
    case None => None
    case Some(i) => Some(blocks[i := blocks[i].(status := Some(0))])
  }

  function Patched(block: Block, patch: Patch): Block {
    Block(if patch.key.Some? then patch.key.value else block.key,
          if patch.name.Some? then patch.name.value else block.name,
          if patch.order.Some? then patch.order.value else block.order,
          if patch.status.Some? then patch.status else block.status,
          block.data + patch.data)
  }

  function Update(blocks: seq<Block>, key: string, patch: Patch): Option<seq<Block>> {
    match IndexOfVisible(blocks, key)
    case None => None
    case Some(i) => Some(blocks[i := Patched(blocks[i], patch)])
  }

  /** Each position moves the first block with its key, deleted ones included. */
  function Reposition(blocks: seq<Block>, positions: seq<Position>): seq<Block> {
    if positions == [] then blocks
    else
      var n := |positions| - 1;
      var mid := Reposition(blocks, positions[..n]);
      match IndexOf(mid, positions[n].key)
      case None => mid
      case Some(i) => mid[i := mid[i].(order := positions[n].order)]
  }

  function Reorder(blocks: seq<Block>, positions: seq<Position>): seq<Block> {
    Sort(Reposition(blocks, positions), ByOrder())
  }

  /** Stored as sent, a missing status becoming 1; None when a block lacks its key or name. */
  function Save(blocks: seq<Block>): Option<seq<Block>> {
    if exists b :: b in blocks && (b.key == "" || b.name == "") then None
    else Some(seq(|blocks|, i requires 0 <= i < |blocks| =>
      if blocks[i].status.None? then blocks[i].(status := Some(1)) else blocks[i]))
  }

  // ---------- the map the array stands for ----------

  ghost predicate DistinctKeys(blocks: seq<Block>) {
    forall i, j | 0 <= i < j < |blocks| :: blocks[i].key != blocks[j].key
  }

  function Keys(blocks: seq<Block>): set<string> {
    set b | b in blocks :: b.key
  }

  /** Key to visible block. */
  ghost function VisibleMap(blocks: seq<Block>): map<string, Block> {
    map key | key in Keys(blocks) && IndexOfVisible(blocks, key).Some? :: blocks[IndexOfVisible(blocks, key).value]
  }

  /** With distinct keys, the map holds exactly the visible blocks. */
  lemma VisibleMapHolds(blocks: seq<Block>)
    requires DistinctKeys(blocks)
    ensures forall b | b in blocks && Visible(b) :: b.key in VisibleMap(blocks) && VisibleMap(blocks)[b.key] == b
    ensures forall key | key in VisibleMap(blocks) ::
              VisibleMap(blocks)[key] in blocks && VisibleMap(blocks)[key].key == key && Visible(VisibleMap(blocks)[key])
  {
  }

  /** A map that holds exactly the visible blocks is the visible map. */
  lemma VisibleMapIs(blocks: seq<Block>, m: map<string, Block>)
    requires DistinctKeys(blocks)
    requires forall b | b in blocks && Visible(b) :: b.key in m && m[b.key] == b
    requires forall key | key in m :: m[key] in blocks && m[key].key == key && Visible(m[key])
    ensures VisibleMap(blocks) == m
  {
  }

  // ---------- sorting ----------

  lemma {:induction false} InsertKeepsKeys(x: Block, s: seq<Block>)
    requires DistinctKeys([x] + s)
    ensures DistinctKeys(Insert(x, s, ByOrder()))
    ensures forall b :: b in Insert(x, s, ByOrder()) <==> b == x || b in s
  {
    var xs := [x] + s;
    assert forall i | 0 <= i < |s| :: xs[i + 1] == s[i];
    assert xs[0] == x;
    assert forall j | 0 < j < |xs| :: xs[0].key != xs[j].key;
    forall i | 0 <= i < |s| ensures s[i].key != x.key {
      assert xs[i + 1] == s[i];
    }
    if s != [] && x.order > s[0].order {
      var rest := Insert(x, s[1..], ByOrder());
      assert DistinctKeys([x] + s[1..]);
      InsertKeepsKeys(x, s[1..]);
      forall i | 0 <= i < |rest| ensures rest[i].key != s[0].key {
        assert rest[i] in rest;
        if rest[i] != x {
          var j :| 0 <= j < |s[1..]| && s[1..][j] == rest[i];
          assert s[j + 1] == rest[i];
        }
      }
    }
  }

  lemma {:induction false} SortKeepsKeys(s: seq<Block>)
    requires DistinctKeys(s)
    ensures DistinctKeys(Sort(s, ByOrder()))
    ensures forall b :: b in Sort(s, ByOrder()) <==> b in s
    ensures |Sort(s, ByOrder())| == |s|
  {
    SortProperties(s, ByOrder());
    assert |multiset(Sort(s, ByOrder()))| == |multiset(s)|;
    if s != [] {
      SortKeepsKeys(s[1..]);
      assert s == [s[0]] + s[1..];
      var rest := Sort(s[1..], ByOrder());
      forall i | 0 <= i < |rest| ensures rest[i].key != s[0].key {
        assert rest[i] in rest;
        var j :| 0 <= j < |s[1..]| && s[1..][j] == rest[i];
        assert s[j + 1] == rest[i];
      }
      assert DistinctKeys([s[0]] + rest);
      InsertKeepsKeys(s[0], rest);
    }
  }

  lemma SortKeepsMap(s: seq<Block>)
    requires DistinctKeys(s)
    ensures VisibleMap(Sort(s, ByOrder())) == VisibleMap(s)
  {
    SortKeepsKeys(s);
    VisibleMapHolds(s);
    VisibleMapIs(Sort(s, ByOrder()), VisibleMap(s));
  }

  // ---------- the operations, seen through the map ----------

  lemma ReplacedKeys(blocks: seq<Block>, i: nat, block: Block)
    requires DistinctKeys(blocks) && i < |blocks|
    ensures DistinctKeys(blocks[i := block]) <==> block.key == blocks[i].key || block.key !in Keys(blocks)
  {
    var after := blocks[i := block];
    if block.key != blocks[i].key && block.key in Keys(blocks) {
      var b :| b in blocks && b.key == block.key;
      var j :| 0 <= j < |blocks| && blocks[j] == b;
      assert j != i && after[j].key == after[i].key;
    }
    if block.key !in Keys(blocks) {
      assert forall j | 0 <= j < |blocks| :: blocks[j] in blocks;
    }
  }

  /** Replacing the block at an index changes the map at its old and new key only. */
  lemma ReplacedMap(blocks: seq<Block>, i: nat, block: Block)
    requires DistinctKeys(blocks) && i < |blocks| && DistinctKeys(blocks[i := block])
    ensures VisibleMap(blocks[i := block]) ==
            VisibleMap(blocks) - {blocks[i].key} + if Visible(block) then map[block.key := block] else map[]
  {
    var after := blocks[i := block];
    var m := VisibleMap(blocks) - {blocks[i].key} + if Visible(block) then map[block.key := block] else map[];
    VisibleMapHolds(blocks);
    forall b | b in after && Visible(b) ensures b.key in m && m[b.key] == b {
      var j :| 0 <= j < |after| && after[j] == b;
      if j != i { assert blocks[j] == b && after[i] == block; }
    }
    forall key | key in m ensures m[key] in after && m[key].key == key && Visible(m[key]) {
      if Visible(block) && key == block.key { assert after[i] == block; }
      else {
        var j :| 0 <= j < |blocks| && blocks[j] == VisibleMap(blocks)[key];
        assert after[j] == blocks[j];
      }
    }
    VisibleMapIs(after, m);
  }

  /**
   Adding fails exactly on a visible key; otherwise it inserts the block under its key, keeps stored
   keys distinct, reuses the slot of a deleted block of that key, and leaves a sorted array.
   */
  lemma AddInserts(blocks: seq<Block>, block: Block)
    requires DistinctKeys(blocks)
    ensures Add(blocks, block).None? <==> block.key in VisibleMap(blocks)
    ensures Add(blocks, block).Some? ==>
              var after := Add(blocks, block).value;
              && DistinctKeys(after) && Sorted(after, ByOrder())
              && VisibleMap(after) == VisibleMap(blocks)[block.key := block.(status := Some(1))]
              && |after| == |blocks| + if block.key in Keys(blocks) then 0 else 1
  {
    if IndexOfVisible(blocks, block.key).None? {
      var added := block.(status := Some(1));
      var i := IndexOf(blocks, block.key);
      if i.Some? {
        assert blocks[i.value] in blocks;
        OverwrittenMap(blocks, i.value, added);
        SortedAgain(blocks[i.value := added]);
      } else {
        AppendedMap(blocks, added);
        SortedAgain(blocks + [added]);
      }
    }
  }

  lemma OverwrittenMap(blocks: seq<Block>, i: nat, block: Block)
    requires DistinctKeys(blocks) && i < |blocks| && blocks[i].key == block.key && Visible(block)
    ensures DistinctKeys(blocks[i := block])
    ensures VisibleMap(blocks[i := block]) == VisibleMap(blocks)[block.key := block]
  {
    ReplacedKeys(blocks, i, block);
    ReplacedMap(blocks, i, block);
    RemoveThenPut(VisibleMap(blocks), block.key, block);
  }

  lemma RemoveThenPut(m: map<string, Block>, key: string, block: Block)
    ensures m - {key} + map[key := block] == m[key := block]
  {
  }

  lemma SortedAgain(stored: seq<Block>)
    requires DistinctKeys(stored)
    ensures DistinctKeys(Sort(stored, ByOrder())) && Sorted(Sort(stored, ByOrder()), ByOrder())
    ensures VisibleMap(Sort(stored, ByOrder())) == VisibleMap(stored) && |Sort(stored, ByOrder())| == |stored|
  {
    SortProperties(stored, ByOrder());
    SortKeepsKeys(stored);
    SortKeepsMap(stored);
  }

  lemma AppendedMap(blocks: seq<Block>, block: Block)
    requires DistinctKeys(blocks) && block.key !in Keys(blocks) && Visible(block)
    ensures DistinctKeys(blocks + [block])
    ensures VisibleMap(blocks + [block]) == VisibleMap(blocks)[block.key := block]
  {
    assert forall j | 0 <= j < |blocks| :: blocks[j] in blocks;
    VisibleMapHolds(blocks);
    VisibleMapIs(blocks + [block], VisibleMap(blocks)[block.key := block]);
  }

  /** Deleting removes exactly the key from the map; every stored block keeps its slot and key. */
  lemma DeleteRemoves(blocks: seq<Block>, key: string)
    requires DistinctKeys(blocks)
    ensures Delete(blocks, key).None? <==> key !in VisibleMap(blocks)
    ensures Delete(blocks, key).Some? ==>
              var after := Delete(blocks, key).value;
              && DistinctKeys(after) && VisibleMap(after) == VisibleMap(blocks) - {key}
              && |after| == |blocks| && (forall i | 0 <= i < |blocks| :: after[i].key == blocks[i].key)
  {
    var i := IndexOfVisible(blocks, key);
    if i.Some? {
      HiddenMap(blocks, i.value, blocks[i.value].(status := Some(0)));
    }
  }

  lemma HiddenMap(blocks: seq<Block>, i: nat, block: Block)
    requires DistinctKeys(blocks) && i < |blocks| && blocks[i].key == block.key && !Visible(block)
    ensures DistinctKeys(blocks[i := block])
    ensures VisibleMap(blocks[i := block]) == VisibleMap(blocks) - {block.key}
  {
    ReplacedKeys(blocks, i, block);
    ReplacedMap(blocks, i, block);
  }

  /**
   Updating modifies the block under its key. Keys stay distinct exactly when the update does not
   rename the block to another stored key, deleted blocks' keys included.
   */
  lemma UpdateModifies(blocks: seq<Block>, key: string, patch: Patch)
    requires DistinctKeys(blocks)
    ensures Update(blocks, key, patch).None? <==> key !in VisibleMap(blocks)
    ensures Update(blocks, key, patch).Some? ==>
              var after, block := Update(blocks, key, patch).value, Patched(VisibleMap(blocks)[key], patch);
              && (DistinctKeys(after) <==> block.key == key || block.key !in Keys(blocks))
              && (DistinctKeys(after) ==>
                    VisibleMap(after) == VisibleMap(blocks) - {key} + (if Visible(block) then map[block.key := block] else map[]))
  {
    var i := IndexOfVisible(blocks, key);
    if i.Some? {
      assert blocks[i.value] in blocks;
      ReplacedKeys(blocks, i.value, Patched(blocks[i.value], patch));
      if DistinctKeys(Update(blocks, key, patch).value) {
        ReplacedMap(blocks, i.value, Patched(blocks[i.value], patch));
      }
    }
  }

  /** The order the last position for a key asks for, or the given one. */
  function OrderFor(positions: seq<Position>, key: string, order: real): real {
    if positions == [] then order
    else
      var n := |positions| - 1;
      if positions[n].key == key then positions[n].order else OrderFor(positions[..n], key, order)
  }

  lemma {:induction false} RepositionMoves(blocks: seq<Block>, positions: seq<Position>)
    requires DistinctKeys(blocks)
    ensures |Reposition(blocks, positions)| == |blocks| && DistinctKeys(Reposition(blocks, positions))
    ensures forall i | 0 <= i < |blocks| ::
              Reposition(blocks, positions)[i] == blocks[i].(order := OrderFor(positions, blocks[i].key, blocks[i].order))
  {
    if positions != [] {
      var n := |positions| - 1;
      RepositionMoves(blocks, positions[..n]);
      var mid := Reposition(blocks, positions[..n]);
      var k := IndexOf(mid, positions[n].key);
      forall i | 0 <= i < |blocks|
        ensures Reposition(blocks, positions)[i] == blocks[i].(order := OrderFor(positions, blocks[i].key, blocks[i].order))
      {
        if blocks[i].key == positions[n].key {
          assert mid[i] in mid && mid[i].key == positions[n].key;
          assert k.value == i;
        }
      }
    }
  }

  /** Reordering changes nothing but orders, to those asked for last, and leaves a sorted array. */
  lemma ReorderReorders(blocks: seq<Block>, positions: seq<Position>)
    requires DistinctKeys(blocks)
    ensures var after := Reorder(blocks, positions);
            && DistinctKeys(after) && Sorted(after, ByOrder()) && |after| == |blocks|
            && VisibleMap(after) == map key | key in VisibleMap(blocks) ::
                 VisibleMap(blocks)[key].(order := OrderFor(positions, key, VisibleMap(blocks)[key].order))
  {
    RepositionMoves(blocks, positions);
    SortedAgain(Reposition(blocks, positions));
    MovedMap(blocks, Reposition(blocks, positions), positions);
  }

  lemma MovedMap(blocks: seq<Block>, moved: seq<Block>, positions: seq<Position>)
    requires DistinctKeys(blocks) && DistinctKeys(moved) && |moved| == |blocks|
    requires forall i | 0 <= i < |blocks| ::
               moved[i] == blocks[i].(order := OrderFor(positions, blocks[i].key, blocks[i].order))
    ensures VisibleMap(moved) == map key | key in VisibleMap(blocks) ::
              VisibleMap(blocks)[key].(order := OrderFor(positions, key, VisibleMap(blocks)[key].order))
  {
    VisibleMapHolds(blocks);
    MovedEntries(blocks, moved, positions, VisibleMap(blocks), map key | key in VisibleMap(blocks) ::
      VisibleMap(blocks)[key].(order := OrderFor(positions, key, VisibleMap(blocks)[key].order)));
  }

  lemma MovedEntries(blocks: seq<Block>, moved: seq<Block>, positions: seq<Position>, old_: map<string, Block>, m: map<string, Block>)
    requires DistinctKeys(moved) && |moved| == |blocks|
    requires forall i | 0 <= i < |blocks| ::
               moved[i] == blocks[i].(order := OrderFor(positions, blocks[i].key, blocks[i].order))
    requires forall b | b in blocks && Visible(b) :: b.key in old_ && old_[b.key] == b
    requires forall key | key in old_ :: old_[key] in blocks && old_[key].key == key && Visible(old_[key])
    requires m == map key | key in old_ :: old_[key].(order := OrderFor(positions, key, old_[key].order))
    ensures VisibleMap(moved) == m
  {
    forall b | b in moved && Visible(b) ensures b.key in m && m[b.key] == b {
      var i :| 0 <= i < |moved| && moved[i] == b;
      assert blocks[i] in blocks && Visible(blocks[i]);
    }
    forall key | key in m ensures m[key] in moved && m[key].key == key && Visible(m[key]) {
      var i :| 0 <= i < |blocks| && blocks[i] == old_[key];
      assert moved[i] == m[key];
    }
    VisibleMapIs(moved, m);
  }

  /** Deleting a block and adding one under the same key reuses the slot. */
  lemma DeleteThenAddReusesSlot(blocks: seq<Block>, block: Block)
    requires DistinctKeys(blocks) && block.key in VisibleMap(blocks)
    ensures Delete(blocks, block.key).Some?
    ensures var deleted := Delete(blocks, block.key).value;
            && Add(deleted, block).Some?
            && |Add(deleted, block).value| == |blocks|
            && VisibleMap(Add(deleted, block).value) == VisibleMap(blocks)[block.key := block.(status := Some(1))]
  {
    var added := block.(status := Some(1));
    DeleteRemoves(blocks, block.key);
    var deleted := Delete(blocks, block.key).value;
    var i := IndexOfVisible(blocks, block.key);
    assert deleted[i.value] in deleted;
    assert (VisibleMap(blocks) - {block.key})[block.key := added] == VisibleMap(blocks)[block.key := added];
    AddInserts(deleted, block);
  }

  /** What is saved has distinct keys exactly when what was sent has, and shows what was sent. */
  lemma SaveKeepsKeys(blocks: seq<Block>)
    requires Save(blocks).Some?
    ensures DistinctKeys(Save(blocks).value) <==> DistinctKeys(blocks)
    ensures DistinctKeys(blocks) ==> VisibleMap(Save(blocks).value).Keys == VisibleMap(blocks).Keys
  {
    var after := Save(blocks).value;
    assert forall i | 0 <= i < |blocks| :: after[i].key == blocks[i].key && Visible(after[i]) == Visible(blocks[i]);
    if DistinctKeys(after) {
      assert forall i, j | 0 <= i < j < |blocks| :: after[i].key != after[j].key;
    }
    if DistinctKeys(blocks) {
      VisibleMapHolds(blocks);
      VisibleMapHolds(after);
      forall key ensures key in VisibleMap(after) <==> key in VisibleMap(blocks) {
        if key in VisibleMap(after) {
          var i :| 0 <= i < |after| && after[i] == VisibleMap(after)[key];
          assert blocks[i] in blocks;
        }
        if key in VisibleMap(blocks) {
          var i :| 0 <= i < |blocks| && blocks[i] == VisibleMap(blocks)[key];
          assert after[i] in after;
        }
      }
    }
  }

  // ---------- what a call answers ----------

  /** What every call answers with: the visible blocks in stored order. */
  function Shown(blocks: seq<Block>): seq<Block> {
    if blocks == [] then []
    else if Visible(blocks[0]) then [blocks[0]] + Shown(blocks[1..])
    else Shown(blocks[1..])
  }

  /** The answer holds the blocks whose status is not 0, each at every place it is stored at, in stored order. */
  lemma {:induction false} AnswerHolds(blocks: seq<Block>) returns (at: seq<nat>)
    ensures Picks(Shown(blocks), blocks, at) && Increasing(at)
    ensures forall k: nat :: k in at <==> k < |blocks| && blocks[k].status != Some(0)
  {
    at := [];
    if blocks != [] {
      var rest := AnswerHolds(blocks[1..]);
      var shown := blocks[0].status != Some(0);
      at := (if shown then [0] else []) + Moved(rest);
      MovedReaches(blocks, rest);
      OneMoreShown(blocks, Shown(blocks[1..]), rest, shown);
      FirstOrMoved(blocks, rest, at);
    }
  }

  lemma FirstOrMoved(blocks: seq<Block>, rest: seq<nat>, at: seq<nat>)
    requires blocks != [] && at == (if blocks[0].status != Some(0) then [0] else []) + Moved(rest)
    requires forall k: nat :: k in Moved(rest) <==> 0 < k < |blocks| && blocks[k].status != Some(0)
    ensures forall k: nat :: k in at <==> k < |blocks| && blocks[k].status != Some(0)
  {
  }

  function Moved(at: seq<nat>): (moved: seq<nat>)
    ensures |moved| == |at| && forall i | 0 <= i < |at| :: moved[i] == at[i] + 1
  {
    seq(|at|, i requires 0 <= i < |at| => at[i] + 1)
  }

  lemma MovedReaches(blocks: seq<Block>, rest: seq<nat>)
    requires blocks != [] && forall k: nat :: k in rest <==> k < |blocks[1..]| && blocks[1..][k].status != Some(0)
    ensures forall k: nat :: k in Moved(rest) <==> 0 < k < |blocks| && blocks[k].status != Some(0)
  {
    forall k: nat ensures k in Moved(rest) <==> 0 < k < |blocks| && blocks[k].status != Some(0) {
      if k in Moved(rest) {
        var i :| 0 <= i < |rest| && Moved(rest)[i] == k;
        assert rest[i] in rest;
      }
      if 0 < k < |blocks| && blocks[k].status != Some(0) {
        assert blocks[1..][k - 1] == blocks[k];
        var i :| 0 <= i < |rest| && rest[i] == k - 1;
        assert Moved(rest)[i] == k;
      }
    }
  }

  lemma OneMoreShown(blocks: seq<Block>, part: seq<Block>, rest: seq<nat>, shown: bool)
    requires blocks != [] && Picks(part, blocks[1..], rest) && Increasing(rest)
    ensures var first: seq<nat>, head := if shown then [0] else [], if shown then [blocks[0]] else [];
            Picks(head + part, blocks, first + Moved(rest)) && Increasing(first + Moved(rest))
  {
  }

  /** With distinct keys the answer is the map: each visible block once, and nothing else. */
  lemma AnswerIsTheMap(blocks: seq<Block>)
    requires DistinctKeys(blocks)
    ensures DistinctKeys(Shown(blocks))
    ensures forall b :: b in Shown(blocks) <==> b in blocks && b.status != Some(0)
    ensures forall b :: b in Shown(blocks) <==> b.key in VisibleMap(blocks) && VisibleMap(blocks)[b.key] == b
  {
    var at := AnswerHolds(blocks);
    forall b ensures b in Shown(blocks) <==> b in blocks && b.status != Some(0) {
      if b in blocks && b.status != Some(0) {
        var k :| 0 <= k < |blocks| && blocks[k] == b;
        assert k in at;
      }
    }
    VisibleMapHolds(blocks);
  }

  // ---------- the calls, block by block ----------

  ghost predicate InOrder(blocks: seq<Block>) {
    forall i, j | 0 <= i < j < |blocks| :: blocks[i].order <= blocks[j].order
  }

  lemma SortedInOrder(blocks: seq<Block>)
    ensures Sorted(blocks, ByOrder()) <==> InOrder(blocks)
  {
    assert forall b: Block :: ByOrder()(b) == b.order;
  }

  /** Refused when a block of the key with a status other than 0 is there; else all others stay, and it comes with status 1. */
  lemma StoredAfterAdding(blocks: seq<Block>, block: Block)
    requires DistinctKeys(blocks)
    ensures Add(blocks, block).None? <==> exists b :: b in blocks && b.key == block.key && b.status != Some(0)
    ensures Add(blocks, block).Some? ==>
              var after := Add(blocks, block).value;
              && InOrder(after)
              && forall b :: b in after <==> (b in blocks && b.key != block.key) || b == block.(status := Some(1))
  {
    VisibleMapHolds(blocks);
    if Add(blocks, block).Some? {
      var added := block.(status := Some(1));
      var i := IndexOf(blocks, block.key);
      var stored := if i.Some? then blocks[i.value := added] else blocks + [added];
      AddInserts(blocks, block);
      SortedInOrder(Add(blocks, block).value);
      SortProperties(stored, ByOrder());
      forall b ensures b in stored <==> (b in blocks && b.key != block.key) || b == added {
        StoredAt(blocks, i, added, b);
      }
      assert forall b :: b in Add(blocks, block).value <==> b in multiset(stored);
    }
  }

  lemma StoredAt(blocks: seq<Block>, i: Option<nat>, added: Block, b: Block)
    requires DistinctKeys(blocks) && (i.Some? ==> i.value < |blocks| && blocks[i.value].key == added.key)
    requires i.None? ==> forall b | b in blocks :: b.key != added.key
    ensures b in (if i.Some? then blocks[i.value := added] else blocks + [added]) <==>
              (b in blocks && b.key != added.key) || b == added
  {
    var stored := if i.Some? then blocks[i.value := added] else blocks + [added];
    if b in blocks && b.key != added.key {
      var k :| 0 <= k < |blocks| && blocks[k] == b;
      assert stored[k] == b;
    }
    if b == added {
      assert stored[if i.Some? then i.value else |blocks|] == added;
    }
    if b in stored {
      var k :| 0 <= k < |stored| && stored[k] == b;
    }
  }

  /** Refused without such a block; else its status becomes 0, in place, and nothing else changes. */
  lemma StoredAfterDeleting(blocks: seq<Block>, key: string)
    requires DistinctKeys(blocks)
    ensures Delete(blocks, key).None? <==> !exists b :: b in blocks && b.key == key && b.status != Some(0)
    ensures Delete(blocks, key).Some? ==>
              var after := Delete(blocks, key).value;
              && |after| == |blocks|
              && forall i | 0 <= i < |blocks| ::
                   after[i] == if blocks[i].key == key then blocks[i].(status := Some(0)) else blocks[i]
  {
  }

  /** Refused likewise; else the fields sent are stored, in place, the others stay, and so does every other block. */
  lemma StoredAfterUpdating(blocks: seq<Block>, key: string, patch: Patch)
    requires DistinctKeys(blocks)
    ensures Update(blocks, key, patch).None? <==> !exists b :: b in blocks && b.key == key && b.status != Some(0)
    ensures Update(blocks, key, patch).Some? ==>
              var after := Update(blocks, key, patch).value;
              && |after| == |blocks|
              && forall i | 0 <= i < |blocks| ::
                   && (blocks[i].key != key ==> after[i] == blocks[i])
                   && (blocks[i].key == key ==> AsSent(blocks[i], patch, after[i]))
  {
  }

  /** Every field sent is the stored one, every other is the old one. */
  ghost predicate AsSent(before: Block, patch: Patch, after: Block) {
    && after.key == (match patch.key case Some(k) => k case None => before.key)
    && after.name == (match patch.name case Some(n) => n case None => before.name)
    && after.order == (match patch.order case Some(o) => o case None => before.order)
    && after.status == (match patch.status case Some(t) => Some(t) case None => before.status)
    && (forall f :: f in after.data <==> f in before.data || f in patch.data)
    && (forall f | f in after.data :: after.data[f] == if f in patch.data then patch.data[f] else before.data[f])
  }

  /** The last position sent for a key decides the order of its block; nothing else changes. */
  lemma StoredAfterReordering(blocks: seq<Block>, positions: seq<Position>, b: Block)
    requires DistinctKeys(blocks) && b in blocks
    ensures InOrder(Reorder(blocks, positions)) && |Reorder(blocks, positions)| == |blocks|
    ensures (forall p | p in positions :: p.key != b.key) ==> b in Reorder(blocks, positions)
    ensures forall k | 0 <= k < |positions| && positions[k].key == b.key && (forall l | k < l < |positions| :: positions[l].key != b.key) ::
              b.(order := positions[k].order) in Reorder(blocks, positions)
  {
    var moved := Reposition(blocks, positions);
    RepositionMoves(blocks, positions);
    SortProperties(moved, ByOrder());
    SortedAgain(moved);
    SortedInOrder(Reorder(blocks, positions));
    var i :| 0 <= i < |blocks| && blocks[i] == b;
    assert moved[i] == b.(order := OrderFor(positions, b.key, b.order)) && moved[i] in multiset(moved);
    if forall p | p in positions :: p.key != b.key {
      NoPosition(positions, b.key, b.order);
      assert b.(order := b.order) == b;
    }
    forall k | 0 <= k < |positions| && positions[k].key == b.key && (forall l | k < l < |positions| :: positions[l].key != b.key)
      ensures OrderFor(positions, b.key, b.order) == positions[k].order
    {
      LastPosition(positions, b.key, b.order, k);
    }
  }

  lemma {:induction false} NoPosition(positions: seq<Position>, key: string, order: real)
    requires forall p | p in positions :: p.key != key
    ensures OrderFor(positions, key, order) == order
  {
    if positions != [] {
      assert positions[|positions| - 1] in positions;
      NoPosition(positions[..|positions| - 1], key, order);
    }
  }

  lemma {:induction false} LastPosition(positions: seq<Position>, key: string, order: real, k: nat)
    requires k < |positions| && positions[k].key == key && forall l | k < l < |positions| :: positions[l].key != key
    ensures OrderFor(positions, key, order) == positions[k].order
  {
    if k < |positions| - 1 {
      LastPosition(positions[..|positions| - 1], key, order, k);
    }
  }

  /** Refused when a block lacks its key or its name; else stored as sent, with status 1 where none is sent. */
  lemma StoredAfterSaving(blocks: seq<Block>)
    ensures Save(blocks).None? <==> exists i :: 0 <= i < |blocks| && (blocks[i].key == "" || blocks[i].name == "")
    ensures Save(blocks).Some? ==>
              && |Save(blocks).value| == |blocks|
              && forall i | 0 <= i < |blocks| ::
                   Save(blocks).value[i] == blocks[i].(status := if blocks[i].status == None then Some(1) else blocks[i].status)
  {
    if i :| 0 <= i < |blocks| && (blocks[i].key == "" || blocks[i].name == "") {
      assert blocks[i] in blocks;
    }
  }

  // ---------- the service ----------

  class BlocksService {
    var pages: map<string, seq<Block>>

    constructor ()
      ensures pages == map[]
    {
      pages := map[];
    }

    /** In each call None stands for the thrown error; nothing is saved then. */
    method AddBlock(page: string, block: Block) returns (result: Option<seq<Block>>)
      modifies this
      ensures result.Some? <==> page in old(pages) && Add(old(pages)[page], block).Some?
      ensures result.Some? ==> pages == old(pages)[page := Add(old(pages)[page], block).value]
      ensures result.None? ==> pages == old(pages)
      ensures result.Some? ==> result.value == Shown(pages[page])
    {
      if page !in pages || IndexOfVisible(pages[page], block.key).Some? {
        return None;
      }
      var blocks := pages[page];
      var existing := IndexOf(blocks, block.key);
      var toAdd := block.(status := Some(1));
      if existing.Some? {
        blocks := blocks[existing.value := toAdd];
      } else {
        blocks := blocks + [toAdd];
      }
      blocks := Sort(blocks, ByOrder());
      pages := pages[page := blocks];
      result := Some(Shown(blocks));
    }

    method DeleteBlock(page: string, key: string) returns (result: Option<seq<Block>>)
      modifies this
      ensures result.Some? <==> page in old(pages) && Delete(old(pages)[page], key).Some?
      ensures result.Some? ==> pages == old(pages)[page := Delete(old(pages)[page], key).value]
      ensures result.None? ==> pages == old(pages)
      ensures result.Some? ==> result.value == Shown(pages[page])
    {
      if page !in pages {
        return None;
      }
      var blocks := pages[page];
      var i := IndexOfVisible(blocks, key);
      if i.None? {
        return None;
      }
      blocks := blocks[i.value := blocks[i.value].(status := Some(0))];
      pages := pages[page := blocks];
      result := Some(Shown(blocks));
    }

    method UpdateBlock(page: string, key: string, patch: Patch) returns (result: Option<seq<Block>>)
      modifies this
      ensures result.Some? <==> page in old(pages) && Update(old(pages)[page], key, patch).Some?
      ensures result.Some? ==> pages == old(pages)[page := Update(old(pages)[page], key, patch).value]
      ensures result.None? ==> pages == old(pages)
      ensures result.Some? ==> result.value == Shown(pages[page])
    {
      if page !in pages {
        return None;
      }
      var blocks := pages[page];
      var i := IndexOfVisible(blocks, key);
      if i.None? {
        return None;
      }
      blocks := blocks[i.value := Patched(blocks[i.value], patch)];
      pages := pages[page := blocks];
      result := Some(Shown(blocks));
    }

    method ReorderBlocks(page: string, positions: seq<Position>) returns (result: Option<seq<Block>>)
      modifies this
      ensures result.Some? <==> page in old(pages)
      ensures result.Some? ==> pages == old(pages)[page := Reorder(old(pages)[page], positions)]
      ensures result.None? ==> pages == old(pages)
      ensures result.Some? ==> result.value == Shown(pages[page])
    {
      if page !in pages {
        return None;
      }
      var blocks := pages[page];
      var k := 0;
      while k < |positions|
        invariant 0 <= k <= |positions|
        invariant blocks == Reposition(pages[page], positions[..k])
      {
        assert positions[..k + 1][..k] == positions[..k];
        var i := IndexOf(blocks, positions[k].key);
        if i.Some? {
          blocks := blocks[i.value := blocks[i.value].(order := positions[k].order)];
        }
        k := k + 1;
      }
      assert positions[..k] == positions;
      blocks := Sort(blocks, ByOrder());
      pages := pages[page := blocks];
      result := Some(Shown(blocks));
    }

    method SaveBlocks(page: string, blocks: seq<Block>) returns (result: Option<seq<Block>>)
      modifies this
      ensures result.Some? <==> !Blank(page) && Save(blocks).Some?
      ensures result.Some? ==> pages == old(pages)[page := Save(blocks).value]
      ensures result.None? ==> pages == old(pages)
      ensures result.Some? ==> result.value == Shown(pages[page])
    {
      var stored := Save(blocks);
      if Blank(page) || stored.None? {
        return None;
      }
      pages := pages[page := stored.value];
      result := Some(Shown(stored.value));
    }
  }
}
