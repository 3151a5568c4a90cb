/** The category record as the REST backend returns it, and its JavaScript
    object form (what the screens spread, overlay and send back). */
module Categories {
  import opened Wrappers
  import opened JsValue

  /** `{ id, name, description, parentId }`. A `parentId` is kept as a
      JavaScript value because the screens treat every falsy one as "no
      parent" and may hold it as a number or as a string. */
  datatype Category = Category(id: int, name: string, description: Option<string>, parentId: Value)

  function DescriptionValue(d: Option<string>): Value
  {
    match d
    case None => Null
    case Some(s) => Str(s)
  }

  /** The object `{ id, name, description, parentId }`. */
  function ToRecord(c: Category): (r: Record)
    ensures r.Keys == {"id", "name", "description", "parentId"}
    ensures r["id"] == Num(c.id) && r["name"] == Str(c.name) && r["parentId"] == c.parentId
    ensures r["description"] == DescriptionValue(c.description)
    ensures r["description"] == Null <==> c.description.None?
  {
    map["id" := Num(c.id), "name" := Str(c.name), "description" := DescriptionValue(c.description),
        "parentId" := c.parentId]
  }

  /** The ids occurring in a flat list. */
  function Ids(cs: seq<Category>): set<int>
  {
    set i | 0 <= i < |cs| :: cs[i].id
  }

  predicate UniqueIds(cs: seq<Category>)
  {
    forall i, j :: 0 <= i < j < |cs| ==> cs[i].id != cs[j].id
  }
}
