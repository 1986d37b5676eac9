/** Which of the four list layouts RenderList mounts, chosen by the `widget`
    string of the list's schema. */
module Layout {
  import opened Options

  datatype ListLayout = CardList | SimpleList | TableList | DefaultList

  /** The part of a schema the choice depends on; `None` is an absent widget. */
  datatype Schema = Schema(widget: Option<string>)

  /** An entry of the flattened schema; `None` is an absent schema. */
  datatype FlatEntry = FlatEntry(schema: Option<Schema>)

  /** The entry for `parentId` exists and has a schema, so reading its widget
      does not throw. */
  predicate SchemaReadable(flatten: map<string, FlatEntry>, parentId: string) {
    parentId in flatten && flatten[parentId].schema.Some?
  }

  /** `flatten[parentId].schema.widget`, or `'list'` when that lookup throws
      because the entry or its schema is missing. An absent widget stays absent:
      the fallback applies only to the throw. */
  function RenderWidget(flatten: map<string, FlatEntry>, parentId: string): (widget: Option<string>)
    ensures SchemaReadable(flatten, parentId) ==> widget == flatten[parentId].schema.value.widget
    ensures !SchemaReadable(flatten, parentId) ==> widget == Some("list")
    ensures widget != Some("list") ==> SchemaReadable(flatten, parentId) && widget == flatten[parentId].schema.value.widget
  {
    if SchemaReadable(flatten, parentId) then flatten[parentId].schema.value.widget
    else Some("list")
  }

  /** The `switch` over the widget name. */
  function SelectLayout(widget: Option<string>): (layout: ListLayout)
    ensures layout == SimpleList <==> widget == Some("list1")
    ensures layout == TableList <==> widget == Some("list2")
    ensures layout == DefaultList <==> widget == Some("list3")
    ensures layout == CardList <==> widget !in {Some("list1"), Some("list2"), Some("list3")}
  {
    match widget
    case Some("list0") => CardList
    case Some("list1") => SimpleList
    case Some("list2") => TableList
    case Some("list3") => DefaultList
    case _ => CardList
  }

  /** A list whose schema entry cannot be read, or whose schema names no widget,
      is shown as cards. */
  lemma UnreadableSchemaShowsCards(flatten: map<string, FlatEntry>, parentId: string)
    requires parentId !in flatten || flatten[parentId].schema.None? || flatten[parentId].schema.value.widget.None?
    ensures SelectLayout(RenderWidget(flatten, parentId)) == CardList
  {
  }
}
