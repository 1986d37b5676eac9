/** The table layout with an edit drawer (`DefaultList`): the drawer's state and
    the predicate that marks a table row as having errors. */
module DefaultListView {
  import opened Options
  import opened JsText
  import opened ListEdits
  import opened RenderList

  /** The drawer state `{showDrawer, currentIndex}`; it starts closed at -1. */
  class Drawer {
    var showDrawer: bool
    var currentIndex: int

    constructor ()
      ensures !showDrawer && currentIndex == -1
    {
      showDrawer, currentIndex := false, -1;
    }

    /** openDrawer(index): open on row `index`. */
    method OpenDrawer(index: int)
      modifies this
      ensures showDrawer && currentIndex == index
    {
      showDrawer, currentIndex := true, index;
    }

    /** closeDrawer(): closed, on no row, whatever the state was. */
    method CloseDrawer()
      modifies this
      ensures !showDrawer && currentIndex == -1
    {
      showDrawer, currentIndex := false, -1;
    }

    /** handleAdd(): add an item, then open the drawer on it. */
    method HandleAdd(editor: ListEditor)
      modifies this, editor.store`formData
      ensures showDrawer && currentIndex == editor.displayList.Length
      ensures WroteFreshList(editor.store, old(editor.store.formData), editor.dataPath, AddItemList(editor.displayList[..]))
      ensures editor.store.formData[editor.dataPath].items[currentIndex] == Empty
    {
      var newIndex := editor.AddItem();
      OpenDrawer(newIndex);
    }
  }

  /** An entry of `errorFields`; only its field name matters here. */
  datatype ErrorField = ErrorField(name: string)

  const RowErrorClass := "fr-row-error"

  /** `errors.find(item => item.name.indexOf(needle) > -1)`: the first error whose
      name contains `needle`. */
  function FindError(errors: seq<ErrorField>, needle: string): (found: Option<ErrorField>)
    ensures found.None? <==> forall k :: 0 <= k < |errors| ==> !Contains(errors[k].name, needle)
    ensures found.Some? ==>
      exists k :: 0 <= k < |errors| && errors[k] == found.value && Contains(errors[k].name, needle) &&
        forall j :: 0 <= j < k ==> !Contains(errors[j].name, needle)
  {
    if |errors| == 0 then None
    else if IndexOf(errors[0].name, needle) > -1 then Some(errors[0])
    else
      var rest := FindError(errors[1..], needle);
      assert forall k :: 1 <= k < |errors| ==> errors[k] == errors[1..][k - 1];
      rest
  }

  /** `rowClassName` of the row for list index `index`: the error class when some
      error name contains the row's error name, and no class otherwise. */
  function RowClassName(errors: seq<ErrorField>, dataPath: string, index: nat): (cls: string)
    ensures cls == RowErrorClass <==> exists k :: 0 <= k < |errors| && Contains(errors[k].name, ErrorName(dataPath, index))
    ensures cls != RowErrorClass ==> cls == ""
  {
    if FindError(errors, ErrorName(dataPath, index)).Some? then RowErrorClass else ""
  }

  /** An error on the row itself, or on any field nested inside it, marks the row. */
  lemma NestedErrorMarksRow(errors: seq<ErrorField>, dataPath: string, index: nat, k: nat, prefix: string, suffix: string)
    requires k < |errors| && errors[k].name == prefix + ErrorName(dataPath, index) + suffix
    ensures RowClassName(errors, dataPath, index) == RowErrorClass
  {
    var needle := ErrorName(dataPath, index);
    assert OccursAt(errors[k].name, needle, |prefix|);
  }

  /** Where the error name of row `i` occurs inside the error name of row `j`
      of the same list: its closing ']' can only sit on the final ']' and its
      '[' only on the '[' after the path, since every character between those
      two is a digit; so the two names are the same name. */
  lemma ErrorNameOccurrence(dataPath: string, i: nat, j: nat, pos: nat)
    requires OccursAt(ErrorName(dataPath, j), ErrorName(dataPath, i), pos)
    ensures pos == 0 && i == j
  {
    var hay, needle := ErrorName(dataPath, j), ErrorName(dataPath, i);
    var p := |dataPath|;
    var close := pos + |needle| - 1;
    assert hay[close] == needle[|needle| - 1];
    assert close == |hay| - 1;
    assert hay[pos + p] == needle[p];
    assert pos == 0;
    assert hay == needle;
    ErrorNameInjective(dataPath, i, j);
  }

  /** Where the error name of row `i` occurs inside the error name of row `j`
      followed by text without ']': the closing ']' of the name of row `i` cannot
      fall inside that text, so the occurrence lies inside the name of row `j`. */
  lemma ErrorNameOccurrenceBeforeSuffix(dataPath: string, i: nat, j: nat, suffix: string, pos: nat)
    requires ']' !in suffix
    requires OccursAt(ErrorName(dataPath, j) + suffix, ErrorName(dataPath, i), pos)
    ensures i == j
  {
    var hay, needle, own := ErrorName(dataPath, j) + suffix, ErrorName(dataPath, i), ErrorName(dataPath, j);
    var close := pos + |needle| - 1;
    assert hay[close] == needle[|needle| - 1] == ']';
    assert close < |own|;
    assert hay[pos..pos + |needle|] == own[pos..pos + |needle|];
    ErrorNameOccurrence(dataPath, i, j, pos);
  }

  /** The error name of one row, or of a field of that row (a suffix without
      ']'), never contains the error name of another row of the same list. */
  lemma SiblingErrorNamesDisjoint(dataPath: string, i: nat, j: nat, suffix: string)
    requires i != j && ']' !in suffix
    ensures !Contains(ErrorName(dataPath, j) + suffix, ErrorName(dataPath, i))
  {
    var hay, needle := ErrorName(dataPath, j) + suffix, ErrorName(dataPath, i);
    if Contains(hay, needle) {
      var pos: nat :| pos <= |hay| && OccursAt(hay, needle, pos);
      ErrorNameOccurrenceBeforeSuffix(dataPath, i, j, suffix, pos);
      assert false;
    }
  }

  /** An error on row `j`, or on a plain field of row `j`, leaves every other
      row unmarked. */
  lemma SiblingErrorLeavesRowUnmarked(dataPath: string, i: nat, j: nat, suffix: string)
    requires i != j && ']' !in suffix
    ensures RowClassName([ErrorField(ErrorName(dataPath, j) + suffix)], dataPath, i) == ""
  {
    SiblingErrorNamesDisjoint(dataPath, i, j, suffix);
  }

  /** The error name of row `j` of a list nested in row `i`, at a path that ends
      with `dataPath` itself (`list[1].sublist` inside `list`). */
  function NestedRowErrorName(dataPath: string, i: nat, middle: string, j: nat): string {
    ErrorName(ErrorName(dataPath, i) + middle + dataPath, j)
  }

  /** The substring test also finds the error name of row `j` inside the error
      name of row `j` of a nested list whose path ends with `dataPath`: the error
      on field `name` of row 2 of `list[1].sublist` marks row 2 of `list` as well
      as row 1. */
  lemma NestedListErrorMarksOtherRow(dataPath: string, i: nat, middle: string, j: nat, suffix: string)
    ensures RowClassName([ErrorField(NestedRowErrorName(dataPath, i, middle, j) + suffix)], dataPath, i) == RowErrorClass
    ensures RowClassName([ErrorField(NestedRowErrorName(dataPath, i, middle, j) + suffix)], dataPath, j) == RowErrorClass
  {
    var errors := [ErrorField(NestedRowErrorName(dataPath, i, middle, j) + suffix)];
    var own, n := ErrorName(dataPath, i), NatToString(j);
    RegroupNestedName(own, middle, dataPath, n, suffix);
    NestedErrorMarksRow(errors, dataPath, i, 0, "", middle + dataPath + "[" + n + "]" + suffix);
    NestedErrorMarksRow(errors, dataPath, j, 0, own + middle, suffix);
  }

  lemma RegroupNestedName(own: string, middle: string, dataPath: string, n: string, suffix: string)
    ensures own + middle + dataPath + "[" + n + "]" + suffix == "" + own + (middle + dataPath + "[" + n + "]" + suffix)
    ensures own + middle + dataPath + "[" + n + "]" + suffix == (own + middle) + (dataPath + "[" + n + "]") + suffix
  {
  }

  /** The row test as intended: an error belongs to the row when its name starts
      with the row's error name, that is `indexOf` finds it at position 0. */
  function RowClassNameByPrefix(errors: seq<ErrorField>, dataPath: string, index: nat): (cls: string)
    ensures cls == RowErrorClass <==> exists k :: 0 <= k < |errors| && ErrorName(dataPath, index) <= errors[k].name
    ensures cls != RowErrorClass ==> cls == ""
  {
    var needle := ErrorName(dataPath, index);
    assert forall k :: 0 <= k < |errors| ==> (IndexOf(errors[k].name, needle) == 0 <==> needle <= errors[k].name) by {
      forall k | 0 <= k < |errors|
        ensures IndexOf(errors[k].name, needle) == 0 <==> needle <= errors[k].name
      {
        if needle <= errors[k].name {
          assert OccursAt(errors[k].name, needle, 0);
        }
      }
    }
    if exists k :: 0 <= k < |errors| && IndexOf(errors[k].name, needle) == 0 then RowErrorClass else ""
  }

  /** Under the prefix test, an error on row `index` or on anything nested in it
      marks the row. */
  lemma PrefixErrorMarksRow(errors: seq<ErrorField>, dataPath: string, index: nat, k: nat, suffix: string)
    requires k < |errors| && errors[k].name == ErrorName(dataPath, index) + suffix
    ensures RowClassNameByPrefix(errors, dataPath, index) == RowErrorClass
  {
    assert ErrorName(dataPath, index) <= errors[k].name;
  }

  /** Under the prefix test, an error on row `j` or on anything nested in it,
      nested lists included, leaves every other row unmarked. */
  lemma OtherRowErrorLeavesRowUnmarked(dataPath: string, i: nat, j: nat, suffix: string)
    requires i != j
    ensures RowClassNameByPrefix([ErrorField(ErrorName(dataPath, j) + suffix)], dataPath, i) == ""
  {
    var ni, nj := ErrorName(dataPath, i), ErrorName(dataPath, j);
    var hay := nj + suffix;
    if ni <= hay {
      var m := if |ni| <= |nj| then |ni| - 1 else |nj| - 1;
      assert ni[m] == hay[m] == nj[m];
      assert |ni| <= |nj|;
      assert OccursAt(nj, ni, 0);
      ErrorNameOccurrence(dataPath, i, j, 0);
      assert false;
    }
  }

  /** The prefix test marks only row `i` for the error of a list nested in row
      `i`. */
  lemma NestedListErrorMarksOwnRowOnly(dataPath: string, i: nat, middle: string, j: nat, suffix: string)
    requires i != j
    ensures RowClassNameByPrefix([ErrorField(NestedRowErrorName(dataPath, i, middle, j) + suffix)], dataPath, i) == RowErrorClass
    ensures RowClassNameByPrefix([ErrorField(NestedRowErrorName(dataPath, i, middle, j) + suffix)], dataPath, j) == ""
  {
    var errors := [ErrorField(NestedRowErrorName(dataPath, i, middle, j) + suffix)];
    var rest := middle + dataPath + "[" + NatToString(j) + "]" + suffix;
    assert errors[0].name == ErrorName(dataPath, i) + rest;
    PrefixErrorMarksRow(errors, dataPath, i, 0, rest);
    OtherRowErrorLeavesRowUnmarked(dataPath, j, i, rest);
  }
}
