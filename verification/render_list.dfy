/** One render of the RenderList component: the list on display, read from the
    store at the list's data path, and the five edits bound to it. */
module RenderList {
  import opened JsText
  import opened ListEdits
  import opened FormStore

  /** `${dataPath}[${idx}]`: the name under which the validation error of row
      `idx` is kept. It is the path, '[', the decimal digits of `idx`, ']'. */
  function ErrorName(dataPath: string, idx: nat): (name: string)
    ensures |name| >= |dataPath| + 3
    ensures name[..|dataPath|] == dataPath && name[|dataPath|] == '[' && name[|name| - 1] == ']'
    ensures forall q :: |dataPath| < q < |name| - 1 ==> IsDigit(name[q])
    ensures name[|dataPath| + 1..|name| - 1] == NatToString(idx)
    ensures ParseDecimal(name[|dataPath| + 1..|name| - 1]) == idx
  {
    var name := dataPath + "[" + NatToString(idx) + "]";
    ParseNatToString(idx);
    assert name[|dataPath| + 1..|name| - 1] == NatToString(idx);
    name
  }

  /** Different rows of a list have different error names. */
  lemma ErrorNameInjective(dataPath: string, i: nat, j: nat)
    requires ErrorName(dataPath, i) == ErrorName(dataPath, j)
    ensures i == j
  {
    var si, sj := NatToString(i), NatToString(j);
    assert ErrorName(dataPath, i)[|dataPath| + 1..|dataPath| + 1 + |si|] == si;
    assert ErrorName(dataPath, j)[|dataPath| + 1..|dataPath| + 1 + |sj|] == sj;
    assert |si| == |sj|;
    NatToStringInjective(i, j);
  }

  /** `items` is, as a fresh array, the list stored at `path`, and no other path
      of `after` differs from `before`. */
  ghost predicate WroteFreshList(store: Store, before: map<string, FormValue>, path: string, items: seq<Item>)
    reads store, if store.HoldsList(path) then {store.formData[path].items} else {}
  {
    store.HoldsList(path) &&
    store.formData == before[path := store.formData[path]] &&
    store.formData[path].items[..] == items
  }

  class ListEditor {
    const store: Store
    const dataPath: string
    /** `displayList`: the array stored at `dataPath` itself when there is one,
        otherwise a fresh `[{}]`. */
    const displayList: array<Item>

    constructor (store: Store, dataPath: string)
      ensures this.store == store && this.dataPath == dataPath
      ensures store.HoldsList(dataPath) ==> displayList == store.formData[dataPath].items
      ensures !store.HoldsList(dataPath) ==> fresh(displayList) && displayList[..] == [Empty]
    {
      this.store := store;
      this.dataPath := dataPath;
      if store.HoldsList(dataPath) {
        displayList := store.formData[dataPath].items;
      } else {
        displayList := new Item[1](_ => Empty);
      }
    }

    method Write(items: seq<Item>)
      modifies store`formData
      ensures WroteFreshList(store, old(store.formData), dataPath, items)
      ensures fresh(store.formData[dataPath].items)
    {
      var newList := new Item[|items|](i requires 0 <= i < |items| => items[i]);
      assert newList[..] == items;
      store.OnItemChange(dataPath, newList);
    }

    /** addItem: stores the list with `{}` appended and returns the new item's
        index, which is the old length. */
    method AddItem() returns (newIndex: nat)
      modifies store`formData
      ensures newIndex == displayList.Length
      ensures WroteFreshList(store, old(store.formData), dataPath, AddItemList(displayList[..]))
      ensures fresh(store.formData[dataPath].items)
      ensures store.formData[dataPath].items[newIndex] == Empty
    {
      var newList := AddItemList(displayList[..]);
      newIndex := |newList| - 1;
      Write(newList);
    }

    /** copyItem(idx): stores the list with the item at `idx` duplicated next to
        itself. */
    method CopyItem(idx: nat)
      modifies store`formData
      ensures WroteFreshList(store, old(store.formData), dataPath, CopyItemList(displayList[..], idx))
      ensures fresh(store.formData[dataPath].items)
    {
      Write(CopyItemList(displayList[..], idx));
    }

    /** deleteItem(idx): stores the list without position `idx` and drops the
        error recorded for that row. */
    method DeleteItem(idx: nat)
      modifies store`formData, store`removedErrorNames
      ensures WroteFreshList(store, old(store.formData), dataPath, DeleteItemList(displayList[..], idx))
      ensures fresh(store.formData[dataPath].items)
      ensures store.removedErrorNames == old(store.removedErrorNames) + [ErrorName(dataPath, idx)]
    {
      Write(DeleteItemList(displayList[..], idx));
      store.RemoveErrorField(ErrorName(dataPath, idx));
    }

    /** moveItemUp(idx): swaps the item with the one above it inside the
        displayed array and stores that same array; nothing happens at idx 0. */
    method MoveItemUp(idx: nat)
      requires idx == 0 || idx < displayList.Length
      modifies displayList, store`formData
      ensures displayList[..] == MovedUp(old(displayList[..]), idx)
      ensures idx == 0 ==> store.formData == old(store.formData)
      ensures idx > 0 ==> store.formData == old(store.formData)[dataPath := ListValue(displayList)]
    {
      if idx == 0 {
        return;
      }
      var currentItem := Read(displayList[idx]);
      var itemAbove := Read(displayList[idx - 1]);
      var newList := displayList;
      newList[idx] := itemAbove;
      newList[idx - 1] := currentItem;
      store.OnItemChange(dataPath, newList);
    }

    /** moveItemDown(idx): swaps the item with the one below it inside the
        displayed array and stores that same array; nothing happens when idx is
        at or past the last position. */
    method MoveItemDown(idx: nat)
      modifies displayList, store`formData
      ensures displayList[..] == MovedDown(old(displayList[..]), idx)
      ensures idx >= displayList.Length - 1 ==> store.formData == old(store.formData)
      ensures idx < displayList.Length - 1 ==> store.formData == old(store.formData)[dataPath := ListValue(displayList)]
    {
      if idx >= displayList.Length - 1 {
        return;
      }
      var currentItem := Read(displayList[idx]);
      var itemBelow := Read(displayList[idx + 1]);
      var newList := displayList;
      newList[idx] := itemBelow;
      newList[idx + 1] := currentItem;
      store.OnItemChange(dataPath, newList);
    }
  }
}
