/** The add/edit form of the admin category screen. Its four pieces of
    component state (name, description, parent choice, error message) are
    the fields of a class; loading a selection and submitting are methods
    that update them. Building the submitted data and the list of parent
    choices are pure functions. */
module CategoryForm {
  import opened Wrappers
  import opened JsValue
  import opened JsString
  import opened Categories
  import opened CategoryManagement

  /** The message shown when the name is empty or only white space. */
  const NameRequired: string := "카테고리 이름은 필수입니다."

  /** The callback a valid submit invokes, with the object passed to it. */
  datatype FormCall = AddCategory(data: Record) | UpdateCategory(data: Record)

  /** `description || ''` for a loaded category. */
  function LoadedDescription(d: Option<string>): (r: string)
    ensures Str(r) == Or(DescriptionValue(d), Str(""))
  {
    match d
    case None => ""
    case Some(s) => s
  }

  /** `{ name: name.trim(), description: description.trim() || null,
      parentId: parentId || null }`. */
  function CategoryData(name: string, description: string, parentId: Value): (r: Record)
    ensures r.Keys == {"name", "description", "parentId"}
    ensures r["name"] == Str(Trim(name))
    ensures r["description"] == Null <==> IsBlank(description)
    ensures !IsBlank(description) ==> r["description"] == Str(Trim(description))
    ensures r["parentId"] == Null <==> !Truthy(parentId)
    ensures Truthy(parentId) ==> r["parentId"] == parentId
  {
    map["name" := Str(Trim(name)), "description" := Or(Str(Trim(description)), Null),
        "parentId" := Or(parentId, Null)]
  }

  /** Normalising already normalised data changes nothing: submitting the
      trimmed name and description again yields the same record. */
  lemma CategoryDataIdempotent(name: string, description: string, parentId: Value)
    ensures var r := CategoryData(name, description, parentId);
      CategoryData(Trim(name), if r["description"] == Null then "" else Trim(description), r["parentId"])
        == r
  {
    var r := CategoryData(name, description, parentId);
    var d := if r["description"] == Null then "" else Trim(description);
    var r' := CategoryData(Trim(name), d, r["parentId"]);
    TrimIdempotent(name);
    if IsBlank(description) {
      assert IsBlank(d);
    } else {
      TrimIdempotent(description);
      assert !IsBlank(d);
    }
    assert r'["name"] == r["name"];
    assert r'["description"] == r["description"];
    assert r'["parentId"] == r["parentId"];
    assert r'.Keys == r.Keys;
  }

  /** In edit mode the selection is overlaid by the form data: the id and the
      selection's other fields survive, the three form fields are replaced. */
  lemma EditOverlayKeepsId(c: Category, data: Record)
    requires data.Keys == {"name", "description", "parentId"}
    ensures (Spread(Some(c)) + data).Keys == {"id", "name", "description", "parentId"}
    ensures (Spread(Some(c)) + data)["id"] == Num(c.id)
    ensures forall k :: k in data ==> (Spread(Some(c)) + data)[k] == data[k]
  {
  }

  /** Editing a category whose name is already trimmed and non-blank, whose
      description is absent or already trimmed and non-blank, and whose
      parent is a truthy value or null, and submitting without changes,
      sends back exactly the record of that category. */
  lemma ResubmitUnchanged(c: Category)
    requires Trim(c.name) == c.name && !IsBlank(c.name)
    requires c.description.Some? ==>
      Trim(c.description.value) == c.description.value && !IsBlank(c.description.value)
    requires Truthy(c.parentId) || c.parentId == Null
    ensures Spread(Some(c)) + CategoryData(c.name, LoadedDescription(c.description), Or(c.parentId, Str("")))
         == ToRecord(c)
  {
    var data := CategoryData(c.name, LoadedDescription(c.description), Or(c.parentId, Str("")));
    if c.description.None? {
      assert IsBlank("");
    }
    assert data["description"] == DescriptionValue(c.description);
    assert data["name"] == Str(c.name);
    assert data["parentId"] == c.parentId;
    OverlaySameValues(ToRecord(c), data);
  }

  /** Overlaying a record with values it already holds changes nothing. */
  lemma OverlaySameValues(r: Record, d: Record)
    requires d.Keys <= r.Keys && forall k :: k in d ==> d[k] == r[k]
    ensures r + d == r
  {
    assert (r + d).Keys == r.Keys;
  }

  /** The parent choices: every category except the one being edited (all of
      them when nothing is selected), in list order. */
  function ParentOptions(cs: seq<Category>, selected: Option<Category>): (r: seq<Category>)
    ensures |r| <= |cs|
    ensures forall c :: c in r <==> c in cs && (selected.None? || c.id != selected.value.id)
  {
    if cs == [] then []
    else
      (if selected.None? || cs[0].id != selected.value.id then [cs[0]] else [])
      + ParentOptions(cs[1..], selected)
  }

  /** The choices keep the order of the list: filtering a concatenation is
      concatenating the filtered parts. */
  lemma {:induction false} ParentOptionsAppend(xs: seq<Category>, ys: seq<Category>, selected: Option<Category>)
    ensures ParentOptions(xs + ys, selected) == ParentOptions(xs, selected) + ParentOptions(ys, selected)
  {
    if xs == [] {
      assert xs + ys == ys;
    } else {
      assert (xs + ys)[0] == xs[0];
      assert (xs + ys)[1..] == xs[1..] + ys;
      ParentOptionsAppend(xs[1..], ys, selected);
    }
  }

  /** With nothing selected every category is offered. */
  lemma {:induction false} ParentOptionsWithoutSelection(cs: seq<Category>)
    ensures ParentOptions(cs, None) == cs
  {
    if cs != [] {
      ParentOptionsWithoutSelection(cs[1..]);
    }
  }

  /** Only the edited category is withheld, not the categories below it:
      editing the root A offers its child B as A's new parent. */
  lemma DescendantOffered()
    ensures var a := Category(1, "A", None, Null);
      var b := Category(2, "B", None, Num(1));
      ParentOptions([a, b], Some(a)) == [b]
  {
    var a := Category(1, "A", None, Null);
    var b := Category(2, "B", None, Num(1));
    assert [a, b][1..] == [b];
  }

  /** The component state of the form. */
  class CategoryFormState {
    var name: string
    var description: string
    var parentId: Value
    var error: string

    /** All fields start as ''. */
    constructor()
      ensures name == "" && description == "" && parentId == Str("") && error == ""
    {
      name, description, parentId, error := "", "", Str(""), "";
    }

    /** The effect run when the selected category changes: copy the selection
        into the fields (a missing description or a falsy parent becomes ''),
        or clear them when there is none; the error is cleared either way. */
    method LoadSelection(selected: Option<Category>)
      modifies this
      ensures selected.Some? ==>
        && name == selected.value.name
        && description == LoadedDescription(selected.value.description)
        && parentId == Or(selected.value.parentId, Str(""))
      ensures selected.None? ==> name == "" && description == "" && parentId == Str("")
      ensures error == ""
    {
      if selected.Some? {
        name := selected.value.name;
        description := LoadedDescription(selected.value.description);
        parentId := Or(selected.value.parentId, Str(""));
      } else {
        name, description, parentId := "", "", Str("");
      }
      error := "";
    }

    /** `handleSubmit`: a blank name sets the error and invokes nothing,
        leaving the fields as typed; otherwise the normalised data is passed
        to the update callback overlaid on the selection in edit mode, or
        alone to the add callback, and the three input fields are cleared. */
    method Submit(isEditing: bool, selected: Option<Category>) returns (call: Option<FormCall>)
      modifies this
      ensures IsBlank(old(name)) ==>
        && call == None && error == NameRequired
        && name == old(name) && description == old(description) && parentId == old(parentId)
      ensures !IsBlank(old(name)) ==>
        && var data := CategoryData(old(name), old(description), old(parentId));
        && call == Some(if isEditing then UpdateCategory(Spread(selected) + data) else AddCategory(data))
        && name == "" && description == "" && parentId == Str("") && error == ""
    {
      error := "";
      if Trim(name) == "" {
        error := NameRequired;
        return None;
      }
      var data := CategoryData(name, description, parentId);
      if isEditing {
        call := Some(UpdateCategory(Spread(selected) + data));
      } else {
        call := Some(AddCategory(data));
      }
      name, description, parentId := "", "", Str("");
    }
  }
}
