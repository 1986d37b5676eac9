/** The shared form-state container as RenderList sees it. Its form data maps a
    data path to the value stored there; a list value is an array object, so a
    component that reads it holds the very array the store holds. The two
    effects RenderList has on the store are `onItemChange`, which stores a list
    at a path, and `removeErrorField`, which drops the validation error of a
    field; the second is recorded here as the list of names removed so far. */
module FormStore {
  import opened ListEdits

  /** The value `get(formData, path)` finds when there is one: an array or
      anything else. */
  datatype FormValue = ListValue(items: array<Item>) | NonList

  class Store {
    var formData: map<string, FormValue>
    var removedErrorNames: seq<string>

    constructor (formData: map<string, FormValue>)
      ensures this.formData == formData && removedErrorNames == []
    {
      this.formData := formData;
      removedErrorNames := [];
    }

    /** The array stored at `path`, when the value there is an array. */
    predicate HoldsList(path: string)
      reads this
    {
      path in formData && formData[path].ListValue?
    }

    /** `onItemChange(path, list)`: the list becomes the value at `path`. */
    method OnItemChange(path: string, list: array<Item>)
      modifies this`formData
      ensures formData == old(formData)[path := ListValue(list)]
      ensures HoldsList(path) && formData[path].items == list
    {
      formData := formData[path := ListValue(list)];
    }

    /** `removeErrorField(name)`: the error recorded for `name` is dropped. */
    method RemoveErrorField(name: string)
      modifies this`removedErrorNames
      ensures removedErrorNames == old(removedErrorNames) + [name]
    {
      removedErrorNames := removedErrorNames + [name];
    }
  }
}
