/** The values that the five list edits of RenderList write back to the form
    store, as functions of the list on display. addItem, copyItem and deleteItem
    build a fresh array with spread, slice and filter; moveItemUp and
    moveItemDown swap two slots in place, and the functions here give the
    contents that swap leaves behind.

    The stored list may have holes (slots never assigned). JavaScript treats a
    hole differently from a slot holding `undefined`: reading it, or spreading
    the array, yields `undefined`, but `filter` skips it. */
module ListEdits {

  /** One slot of a list field. `Hole` is a slot never assigned; `Empty` is the
      empty object `{}`; `Undefined` is the value `undefined`; `Null` is `null`;
      `Other(tag)` stands
      for every other value the form data can hold, known only by its identity. */
  datatype Item = Hole | Undefined | Null | Empty | Other(tag: nat)

  /** A list without holes. */
  predicate Dense(list: seq<Item>) {
    Hole !in list
  }

  /** The value read from a slot: a hole reads as `undefined`. */
  function Read(slot: Item): (v: Item)
    ensures v != Hole
    ensures slot == Hole ==> v == Undefined
    ensures slot != Hole ==> v == slot
  {
    if slot == Hole then Undefined else slot
  }

  /** `list[idx]` in JavaScript. */
  function ItemAt(list: seq<Item>, idx: nat): (v: Item)
    ensures v != Hole
    ensures idx < |list| && list[idx] != Hole ==> v == list[idx]
    ensures idx < |list| && list[idx] == Hole ==> v == Undefined
    ensures idx >= |list| ==> v == Undefined
  {
    if idx < |list| then Read(list[idx]) else Undefined
  }

  /** `[...list]`: spreading reads every slot, so holes become `undefined`. */
  function Spread(list: seq<Item>): (r: seq<Item>)
    ensures |r| == |list| && Dense(r)
    ensures forall k :: 0 <= k < |list| ==> r[k] == Read(list[k])
    ensures Dense(list) ==> r == list
  {
    seq(|list|, k requires 0 <= k < |list| => Read(list[k]))
  }

  /** What `filter` keeps of a slot it is allowed to keep: nothing for a hole. */
  function Kept(slot: Item): seq<Item> {
    if slot == Hole then [] else [slot]
  }

  lemma SplitAt(list: seq<Item>, idx: nat)
    requires idx < |list|
    ensures list == list[..idx] + ([list[idx]] + list[idx + 1..])
  {
  }

  lemma DenseSlice(list: seq<Item>, lo: nat, hi: nat)
    requires Dense(list) && lo <= hi <= |list|
    ensures Dense(list[lo..hi])
  {
    forall x | x in list[lo..hi]
      ensures x in list
    {
      var k :| 0 <= k < hi - lo && list[lo..hi][k] == x;
      assert list[lo + k] == x;
    }
  }

  /** The slots `filter` visits, in order: the list with its holes dropped. */
  function Compact(list: seq<Item>): seq<Item> {
    if |list| == 0 then []
    else Compact(list[..|list| - 1]) + Kept(list[|list| - 1])
  }

  /** Compacting leaves no hole and changes nothing in a list without holes. */
  lemma {:induction false} CompactDense(list: seq<Item>)
    ensures Dense(Compact(list)) && |Compact(list)| <= |list|
    ensures Dense(list) ==> Compact(list) == list
    decreases |list|
  {
    if |list| > 0 {
      var init, last := list[..|list| - 1], list[|list| - 1];
      CompactDense(init);
      assert Compact(list) == Compact(init) + Kept(last);
      if Dense(list) {
        DenseSlice(list, 0, |list| - 1);
        assert list[0..|list| - 1] == init;
        assert list == init + [last];
      }
    }
  }

  lemma CompactSnoc(list: seq<Item>, slot: Item)
    ensures Compact(list + [slot]) == Compact(list) + Kept(slot)
  {
    assert (list + [slot])[..|list|] == list;
  }

  lemma {:induction false} CompactAppend(front: seq<Item>, back: seq<Item>)
    ensures Compact(front + back) == Compact(front) + Compact(back)
    decreases |back|
  {
    if |back| > 0 {
      var init, last := back[..|back| - 1], back[|back| - 1];
      assert front + back == (front + init) + [last];
      CompactAppend(front, init);
      CompactSnoc(front + init, last);
      CompactSnoc(init, last);
      assert back == init + [last];
    } else {
      assert front + back == front;
    }
  }

  /** `[...list, {}]`: what addItem writes back. */
  function AddItemList(list: seq<Item>): (r: seq<Item>)
    ensures |r| == |list| + 1 && Dense(r)
    ensures forall k :: 0 <= k < |list| ==> r[k] == Read(list[k])
    ensures r[|list|] == Empty
  {
    Spread(list) + [Empty]
  }

  /** `[...list.slice(0, idx), list[idx], ...list.slice(idx)]`: what copyItem
      writes back. `slice` clamps an index past the end to the length. */
  function CopyItemList(list: seq<Item>, idx: nat): (r: seq<Item>)
    ensures |r| == |list| + 1 && Dense(r)
    ensures idx < |list| ==> forall k :: 0 <= k < idx ==> r[k] == Read(list[k])
    ensures idx < |list| ==> r[idx] == Read(list[idx]) && r[idx + 1] == Read(list[idx])
    ensures idx < |list| ==> forall k :: idx < k < |list| ==> r[k + 1] == Read(list[k])
    ensures idx < |list| ==> multiset(r) == multiset(Spread(list)) + multiset{Read(list[idx])}
    ensures idx >= |list| ==> r == Spread(list) + [Undefined]
  {
    var cut := if idx <= |list| then idx else |list|;
    var front, back := Spread(list[..cut]), Spread(list[cut..]);
    assert front + back == Spread(list);
    MultisetSplice(front, ItemAt(list, idx), back);
    front + [ItemAt(list, idx)] + back
  }

  /** `list.filter((item, kdx) => kdx !== idx)`: what deleteItem writes back. The
      filter visits the slots in order and keeps every assigned one but `idx`. */
  function DeleteItemList(list: seq<Item>, idx: nat): seq<Item> {
    if |list| == 0 then []
    else
      var init, last := list[..|list| - 1], list[|list| - 1];
      DeleteItemList(init, idx) + (if idx == |list| - 1 then [] else Kept(last))
  }

  /** The filter keeps the assigned slots before `idx` and those after it. */
  lemma {:induction false} DeleteItemListCompact(list: seq<Item>, idx: nat)
    ensures idx < |list| ==> DeleteItemList(list, idx) == Compact(list[..idx]) + Compact(list[idx + 1..])
    ensures idx >= |list| ==> DeleteItemList(list, idx) == Compact(list)
    decreases |list|
  {
    if |list| > 0 {
      var init, last := list[..|list| - 1], list[|list| - 1];
      DeleteItemListCompact(init, idx);
      assert list == init + [last];
      if idx < |init| {
        DeleteBeforeLast(init, last, idx);
      } else if idx == |init| {
        DeleteAtLast(init, last);
      } else {
        DeletePastLast(init, last, idx);
      }
    }
  }

  /** The step of DeleteItemListCompact where the last slot lies after `idx`. */
  lemma DeleteBeforeLast(init: seq<Item>, last: Item, idx: nat)
    requires idx < |init|
    requires DeleteItemList(init, idx) == Compact(init[..idx]) + Compact(init[idx + 1..])
    ensures DeleteItemList(init + [last], idx) == Compact((init + [last])[..idx]) + Compact((init + [last])[idx + 1..])
  {
    var list := init + [last];
    assert list[..|list| - 1] == init;
    assert list[..idx] == init[..idx];
    assert list[idx + 1..] == init[idx + 1..] + [last];
    SnocAfterSplit(init[..idx], init[idx + 1..], last);
  }

  lemma SnocAfterSplit(front: seq<Item>, mid: seq<Item>, last: Item)
    ensures Compact(front) + Compact(mid) + Kept(last) == Compact(front) + Compact(mid + [last])
  {
    CompactSnoc(mid, last);
  }

  /** The step of DeleteItemListCompact where `idx` is the last slot. */
  lemma DeleteAtLast(init: seq<Item>, last: Item)
    requires DeleteItemList(init, |init|) == Compact(init)
    ensures DeleteItemList(init + [last], |init|) == Compact((init + [last])[..|init|]) + Compact((init + [last])[|init| + 1..])
  {
    var list := init + [last];
    assert list[..|list| - 1] == init && list[..|init|] == init;
    assert list[|init| + 1..] == [];
  }

  /** The step of DeleteItemListCompact where `idx` lies past the end. */
  lemma DeletePastLast(init: seq<Item>, last: Item, idx: nat)
    requires idx > |init|
    requires DeleteItemList(init, idx) == Compact(init)
    ensures DeleteItemList(init + [last], idx) == Compact(init + [last])
  {
    var list := init + [last];
    assert list[..|list| - 1] == init;
    CompactSnoc(init, last);
  }

  /** For a list without holes, deleteItem removes exactly position `idx`, and an
      index past the end changes nothing. */
  lemma DeleteItemListDense(list: seq<Item>, idx: nat)
    requires Dense(list)
    ensures idx < |list| ==> DeleteItemList(list, idx) == list[..idx] + list[idx + 1..]
    ensures idx >= |list| ==> DeleteItemList(list, idx) == list
  {
    DeleteItemListCompact(list, idx);
    if idx < |list| {
      CompactDenseParts(list, idx);
    } else {
      CompactDense(list);
    }
  }

  lemma CompactDenseParts(list: seq<Item>, idx: nat)
    requires Dense(list) && idx < |list|
    ensures Compact(list[..idx]) == list[..idx] && Compact(list[idx + 1..]) == list[idx + 1..]
  {
    DenseSlice(list, 0, idx);
    DenseSlice(list, idx + 1, |list|);
    assert list[0..idx] == list[..idx] && list[idx + 1..|list|] == list[idx + 1..];
    CompactDense(list[..idx]);
    CompactDense(list[idx + 1..]);
  }

  /** filter skips holes: deleting the first of `[a, <hole>, c]` leaves `[c]`. */
  lemma DeleteSkipsHoles()
    ensures DeleteItemList([Other(0), Hole, Other(2)], 0) == [Other(2)]
  {
    var list := [Other(0), Hole, Other(2)];
    DeleteItemListCompact(list, 0);
    assert list[..0] == [];
    assert list[1..] == [Hole] + [Other(2)];
    assert [Hole] == [] + [Hole];
    CompactSnoc([], Hole);
    CompactSnoc([Hole], Other(2));
  }

  /** The list with every hole filled with `null`, as the remark beside deleteItem
      asks for. */
  function Filled(list: seq<Item>): (r: seq<Item>)
    ensures |r| == |list| && Dense(r)
    ensures forall k :: 0 <= k < |list| && list[k] == Hole ==> r[k] == Null
    ensures forall k :: 0 <= k < |list| && list[k] != Hole ==> r[k] == list[k]
  {
    seq(|list|, k requires 0 <= k < |list| => if list[k] == Hole then Null else list[k])
  }

  /** deleteItem as its remark intends: holes are filled with `null` and exactly
      position `idx` is removed, so every later item moves up by one place. */
  function DeleteItemFilled(list: seq<Item>, idx: nat): (r: seq<Item>)
    ensures Dense(r)
    ensures idx < |list| ==> |r| == |list| - 1
    ensures idx < |list| ==> forall k :: 0 <= k < idx ==> r[k] == Filled(list)[k]
    ensures idx < |list| ==> forall k :: idx < k < |list| ==> r[k - 1] == Filled(list)[k]
    ensures idx >= |list| ==> r == Filled(list)
  {
    var filled := Filled(list);
    if idx < |list| then filled[..idx] + filled[idx + 1..] else filled
  }

  /** On a list without holes the filter already behaves as intended. */
  lemma DeleteItemFilledAgreesWhenDense(list: seq<Item>, idx: nat)
    requires Dense(list)
    ensures DeleteItemList(list, idx) == DeleteItemFilled(list, idx)
  {
    assert Filled(list) == list;
    DeleteItemListDense(list, idx);
  }

  /** With holes filled, deleting the first of `[a, <hole>, c]` leaves
      `[null, c]`: `c` moves up by one place only. */
  lemma DeleteFilledKeepsPlaces()
    ensures DeleteItemFilled([Other(0), Hole, Other(2)], 0) == [Null, Other(2)]
  {
    var list := [Other(0), Hole, Other(2)];
    assert Filled(list) == [Other(0), Null, Other(2)];
  }

  lemma MultisetSplice(front: seq<Item>, x: Item, back: seq<Item>)
    ensures multiset(front + [x] + back) == multiset(front + back) + multiset{x}
  {
  }

  lemma CompactCons(slot: Item, back: seq<Item>)
    ensures Compact([slot] + back) == Kept(slot) + Compact(back)
  {
    CompactAppend([slot], back);
    assert [slot] == [] + [slot];
    CompactSnoc([], slot);
  }

  lemma CompactSplice(front: seq<Item>, slot: Item, back: seq<Item>)
    ensures Compact(front + ([slot] + back)) == Compact(front) + (Kept(slot) + Compact(back))
  {
    CompactAppend(front, [slot] + back);
    CompactCons(slot, back);
  }

  lemma CompactAround(list: seq<Item>, idx: nat)
    requires idx < |list|
    ensures Compact(list) == Compact(list[..idx]) + (Kept(list[idx]) + Compact(list[idx + 1..]))
  {
    SplitAt(list, idx);
    CompactSplice(list[..idx], list[idx], list[idx + 1..]);
  }

  lemma DropKept(front: seq<Item>, slot: Item, back: seq<Item>)
    requires Dense(front + (Kept(slot) + back))
    ensures |front + back| == |front + (Kept(slot) + back)| - (if slot == Hole then 0 else 1)
    ensures multiset(front + back) == multiset(front + (Kept(slot) + back)) - multiset{slot}
  {
    if slot == Hole {
      assert Kept(slot) + back == back;
      assert Hole !in multiset(front + back);
    }
  }

  /** Deleting an assigned slot removes exactly one occurrence of its item from
      the assigned slots; deleting a hole removes nothing but the holes. */
  lemma DeleteItemListMultiset(list: seq<Item>, idx: nat)
    requires idx < |list|
    ensures |DeleteItemList(list, idx)| == |Compact(list)| - (if list[idx] == Hole then 0 else 1)
    ensures multiset(DeleteItemList(list, idx)) == multiset(Compact(list)) - multiset{list[idx]}
    ensures Dense(list) ==> |DeleteItemList(list, idx)| == |list| - 1
  {
    DeleteItemListCompact(list, idx);
    CompactAround(list, idx);
    CompactDense(list);
    DropKept(Compact(list[..idx]), list[idx], Compact(list[idx + 1..]));
  }

  /** The list after moveItemUp(idx): positions idx-1 and idx exchange the
      values read from them, or the same list when idx is 0. */
  function MovedUp(list: seq<Item>, idx: nat): (r: seq<Item>)
    requires idx == 0 || idx < |list|
    ensures |r| == |list|
    ensures idx == 0 ==> r == list
    ensures idx > 0 ==> r[idx - 1] == Read(list[idx]) && r[idx] == Read(list[idx - 1])
    ensures forall k :: 0 <= k < |list| && k != idx - 1 && k != idx ==> r[k] == list[k]
    ensures Dense(list) ==> multiset(r) == multiset(list)
  {
    if idx == 0 then list else list[idx := Read(list[idx - 1])][idx - 1 := Read(list[idx])]
  }

  /** The list after moveItemDown(idx): positions idx and idx+1 exchange the
      values read from them, or the same list when idx is at or past the last
      position. */
  function MovedDown(list: seq<Item>, idx: nat): (r: seq<Item>)
    ensures |r| == |list|
    ensures idx >= |list| - 1 ==> r == list
    ensures idx < |list| - 1 ==> r[idx] == Read(list[idx + 1]) && r[idx + 1] == Read(list[idx])
    ensures forall k :: 0 <= k < |list| && k != idx && k != idx + 1 ==> r[k] == list[k]
    ensures Dense(list) ==> multiset(r) == multiset(list)
  {
    if idx >= |list| - 1 then list else list[idx := Read(list[idx + 1])][idx + 1 := Read(list[idx])]
  }

  /** Deleting the item addItem appended gives back the list, with its holes
      read as `undefined`. */
  lemma DeleteUndoesAdd(list: seq<Item>)
    ensures DeleteItemList(AddItemList(list), |list|) == Spread(list)
    ensures Dense(list) ==> DeleteItemList(AddItemList(list), |list|) == list
  {
    var added := AddItemList(list);
    DeleteItemListCompact(added, |list|);
    assert added[..|list|] == Spread(list) && added[|list| + 1..] == [];
    CompactDense(Spread(list));
  }

  lemma SpreadAppend(front: seq<Item>, back: seq<Item>)
    ensures Spread(front + back) == Spread(front) + Spread(back)
  {
  }

  lemma DeleteAt(front: seq<Item>, slot: Item, back: seq<Item>)
    requires Dense(front + [slot] + back)
    ensures DeleteItemList(front + [slot] + back, |front|) == front + back
  {
    var list := front + [slot] + back;
    DeleteItemListDense(list, |front|);
    assert list[..|front|] == front && list[|front| + 1..] == back;
  }

  lemma RegroupTwins(front: seq<Item>, x: Item, back: seq<Item>)
    ensures front + [x] + ([x] + back) == (front + [x]) + [x] + back
    ensures front + ([x] + back) == (front + [x]) + back
  {
  }

  /** Removing either of two adjacent equal items leaves the same list. */
  lemma DeleteEitherTwin(front: seq<Item>, x: Item, back: seq<Item>)
    requires Dense(front) && x != Hole && Dense(back)
    ensures DeleteItemList(front + [x] + ([x] + back), |front|) == front + ([x] + back)
    ensures DeleteItemList(front + [x] + ([x] + back), |front| + 1) == front + ([x] + back)
  {
    DeleteAt(front, x, [x] + back);
    RegroupTwins(front, x, back);
    DeleteAt(front + [x], x, back);
  }

  lemma SpreadCons(list: seq<Item>)
    requires |list| > 0
    ensures Spread(list) == [Read(list[0])] + Spread(list[1..])
  {
  }

  lemma CopyItemListSplit(list: seq<Item>, idx: nat)
    requires idx < |list|
    ensures CopyItemList(list, idx) == Spread(list[..idx]) + [Read(list[idx])] + ([Read(list[idx])] + Spread(list[idx + 1..]))
    ensures Spread(list) == Spread(list[..idx]) + ([Read(list[idx])] + Spread(list[idx + 1..]))
  {
    var tail := list[idx..];
    assert tail[0] == list[idx] && tail[1..] == list[idx + 1..];
    SpreadCons(tail);
    assert list == list[..idx] + tail;
    SpreadAppend(list[..idx], tail);
  }

  /** Deleting either the original or the copy undoes copyItem, up to holes
      read as `undefined`. */
  lemma DeleteUndoesCopy(list: seq<Item>, idx: nat)
    requires idx < |list|
    ensures DeleteItemList(CopyItemList(list, idx), idx) == Spread(list)
    ensures DeleteItemList(CopyItemList(list, idx), idx + 1) == Spread(list)
    ensures Dense(list) ==> DeleteItemList(CopyItemList(list, idx), idx) == list
  {
    CopyItemListSplit(list, idx);
    DeleteEitherTwin(Spread(list[..idx]), Read(list[idx]), Spread(list[idx + 1..]));
  }

  /** moveItemDown(i) followed by moveItemUp(i+1) restores the list, except that
      a hole in either slot now reads as `undefined`. */
  lemma MoveUpUndoesMoveDown(list: seq<Item>, i: nat)
    requires i + 1 < |list|
    ensures MovedUp(MovedDown(list, i), i + 1) == list[i := Read(list[i])][i + 1 := Read(list[i + 1])]
    ensures Dense(list) ==> MovedUp(MovedDown(list, i), i + 1) == list
  {
    var down := MovedDown(list, i);
    assert down == list[i := Read(list[i + 1])][i + 1 := Read(list[i])];
    assert |down| == |list| && i + 1 < |down|;
    assert Read(down[i]) == Read(list[i + 1]) && Read(down[i + 1]) == Read(list[i]);
    assert MovedUp(down, i + 1) == down[i + 1 := Read(down[i])][i := Read(down[i + 1])];
  }

  /** moveItemUp(i) followed by moveItemDown(i-1) restores the list, except that
      a hole in either slot now reads as `undefined`. */
  lemma MoveDownUndoesMoveUp(list: seq<Item>, i: nat)
    requires 0 < i < |list|
    ensures MovedDown(MovedUp(list, i), i - 1) == list[i - 1 := Read(list[i - 1])][i := Read(list[i])]
    ensures Dense(list) ==> MovedDown(MovedUp(list, i), i - 1) == list
  {
    var up := MovedUp(list, i);
    assert up == list[i := Read(list[i - 1])][i - 1 := Read(list[i])];
    assert |up| == |list| && i - 1 < |up| - 1;
    assert Read(up[i]) == Read(list[i - 1]) && Read(up[i - 1]) == Read(list[i]);
    assert MovedDown(up, i - 1) == up[i - 1 := Read(up[i])][i := Read(up[i - 1])];
  }
}
