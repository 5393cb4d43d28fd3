/** The payload of the entry endpoint and the rules `create_entry` checks
    before it admits an entry to the cookbook.

    The payload is the raw JSON object, because several rules look at its raw
    shape: the number of keys of the entry and of each required item.  Only the
    JSON values the rules consult are modelled: strings, integers and the list
    of required-item objects. */
module Entries {

  import opened Options

  /** A JSON value of an entry payload. */
  datatype JVal =
    | JStr(str: string)
    | JInt(num: int)
    | JItems(items: seq<map<string, JVal>>)

  /** A JSON object: an entry payload, one required item, or a stored entry. */
  type JObject = map<string, JVal>

  /** Why `create_entry` refuses a payload, one reason per error return of the
      source, in the order the checks run. */
  datatype AddError =
    | WrongKeyCount       // the payload does not have exactly three keys
    | NoNameOrType        // `name` or `type` is missing
    | DuplicateName       // `name` is already a key of the cookbook
    | NoRequiredItems     // a recipe without `requiredItems`, or with an empty list
    | WrongItemKeyCount   // a required item without exactly two keys
    | InvalidItemKeys     // a required item without `name` or without `quantity`
    | InvalidQuantity     // a required item with a negative quantity
    | NoCookTime          // an ingredient without `cookTime`
    | InvalidCookTime     // an ingredient with a negative cook time
    | InvalidType         // a `type` that is neither 'recipe' nor 'ingredient'

  datatype AddResult = Added | Rejected(error: AddError)

  // ---------------------------------------------------------------------------
  // Well-typed payloads

  /** The values of a required item have the JSON types the service reads them
      as: `name` a string, `quantity` an integer. */
  predicate ItemWellTyped(item: JObject)
  {
    && ("name" in item ==> item["name"].JStr?)
    && ("quantity" in item ==> item["quantity"].JInt?)
  }

  /** The values of a payload have the JSON types the service reads them as:
      `name` a string, `cookTime` an integer, `requiredItems` a list of
      well-typed objects.  Other types make the source raise a `TypeError`. */
  predicate WellTyped(entry: JObject)
  {
    && ("name" in entry ==> entry["name"].JStr?)
    && ("cookTime" in entry ==> entry["cookTime"].JInt?)
    && ("requiredItems" in entry ==>
          && entry["requiredItems"].JItems?
          && forall item :: item in entry["requiredItems"].items ==> ItemWellTyped(item))
  }

  // ---------------------------------------------------------------------------
  // The checks of create_entry, in order

  /** The checks on one required item; `None` when it passes. */
  function ItemError(item: JObject): Option<AddError>
    requires ItemWellTyped(item)
  {
    if |item| != 2 then Some(WrongItemKeyCount)
    else if "name" !in item || "quantity" !in item then Some(InvalidItemKeys)
    else if item["quantity"].num < 0 then Some(InvalidQuantity)
    else None
  }

  /** The loop over the required items: the error of the first item that fails. */
  function FirstItemError(items: seq<JObject>): Option<AddError>
    requires forall item :: item in items ==> ItemWellTyped(item)
  {
    if items == [] then None
    else if ItemError(items[0]).Some? then ItemError(items[0])
    else FirstItemError(items[1..])
  }

  /** The outcome of `create_entry` for a payload and the current cookbook:
      the first failing check decides the error. */
  function Validate(book: map<string, JObject>, entry: JObject): AddResult
    requires WellTyped(entry)
  {
    if |entry| != 3 then Rejected(WrongKeyCount)
    else if "name" !in entry || "type" !in entry then Rejected(NoNameOrType)
    else if entry["name"].str in book then Rejected(DuplicateName)
    else if entry["type"] == JStr("recipe") then
      if "requiredItems" !in entry || |entry["requiredItems"].items| == 0 then Rejected(NoRequiredItems)
      else
        match FirstItemError(entry["requiredItems"].items)
        case Some(e) => Rejected(e)
        case None => Added
    else if entry["type"] == JStr("ingredient") then
      if "cookTime" !in entry then Rejected(NoCookTime)
      else if entry["cookTime"].num < 0 then Rejected(InvalidCookTime)
      else Added
    else Rejected(InvalidType)
  }

  /** `entry.pop('name')`: what the cookbook keeps under the entry's name. */
  function Stored(entry: JObject): (v: JObject)
    ensures "name" !in v
    ensures forall k :: k in entry && k != "name" ==> k in v && v[k] == entry[k]
    ensures forall k :: k in v ==> k in entry
  {
    entry - {"name"}
  }

  // ---------------------------------------------------------------------------
  // Which payloads are admitted, stated without the order of the checks

  /** A required item the cookbook admits: exactly the keys `name` and
      `quantity`, and a quantity that is not negative (zero is admitted). */
  predicate ValidItem(item: JObject)
  {
    && ItemWellTyped(item)
    && |item| == 2
    && "name" in item
    && "quantity" in item
    && item["quantity"].num >= 0
  }

  /** A recipe payload: type 'recipe' and a non-empty list of valid items. */
  predicate ValidRecipe(entry: JObject)
  {
    && "type" in entry && entry["type"] == JStr("recipe")
    && "requiredItems" in entry && entry["requiredItems"].JItems?
    && |entry["requiredItems"].items| > 0
    && forall item :: item in entry["requiredItems"].items ==> ValidItem(item)
  }

  /** An ingredient payload: type 'ingredient' and a cook time that is not
      negative (zero is admitted). */
  predicate ValidIngredient(entry: JObject)
  {
    && "type" in entry && entry["type"] == JStr("ingredient")
    && "cookTime" in entry && entry["cookTime"].JInt?
    && entry["cookTime"].num >= 0
  }

  /** The payloads `create_entry` admits into `book`: three keys, a new name,
      and a valid recipe or ingredient. */
  predicate Admissible(book: map<string, JObject>, entry: JObject)
    requires WellTyped(entry)
  {
    && |entry| == 3
    && "name" in entry
    && "type" in entry
    && entry["name"].str !in book
    && (ValidRecipe(entry) || ValidIngredient(entry))
  }

  /** The loop over the required items finds nothing exactly when every item is valid. */
  lemma {:induction false} FirstItemErrorNoneIff(items: seq<JObject>)
    requires forall item :: item in items ==> ItemWellTyped(item)
    ensures FirstItemError(items) == None <==> forall item :: item in items ==> ValidItem(item)
  {
    if items != [] {
      assert items[0] in items;
      FirstItemErrorNoneIff(items[1..]);
      assert forall item :: item in items <==> item == items[0] || item in items[1..] by {
        assert items == [items[0]] + items[1..];
      }
    }
  }

  /** `create_entry` admits a payload exactly when it is admissible, whatever
      the order in which its checks run. */
  lemma AddedIffAdmissible(book: map<string, JObject>, entry: JObject)
    requires WellTyped(entry)
    ensures Validate(book, entry) == Added <==> Admissible(book, entry)
  {
    if "requiredItems" in entry {
      FirstItemErrorNoneIff(entry["requiredItems"].items);
    }
  }

  /** Each malformed payload is refused with the error of the first check it fails. */
  lemma RejectionReasons(book: map<string, JObject>, entry: JObject)
    requires WellTyped(entry)
    ensures |entry| != 3 ==> Validate(book, entry) == Rejected(WrongKeyCount)
    ensures |entry| == 3 && ("name" !in entry || "type" !in entry) ==>
      Validate(book, entry) == Rejected(NoNameOrType)
    ensures |entry| == 3 && "name" in entry && "type" in entry && entry["name"].str in book ==>
      Validate(book, entry) == Rejected(DuplicateName)
    ensures && |entry| == 3 && "name" in entry && "type" in entry && entry["name"].str !in book
            && entry["type"] != JStr("recipe") && entry["type"] != JStr("ingredient") ==>
      Validate(book, entry) == Rejected(InvalidType)
  {
  }

  // ---------------------------------------------------------------------------
  // Well-formed payloads of each kind

  /** The payload of an ingredient: name, type and cook time. */
  function IngredientPayload(name: string, cookTime: int): (e: JObject)
    ensures |e| == 3 && WellTyped(e)
  {
    map["name" := JStr(name), "type" := JStr("ingredient"), "cookTime" := JInt(cookTime)]
  }

  /** A required item: name and quantity. */
  function ItemPayload(name: string, quantity: int): (item: JObject)
    ensures |item| == 2 && ItemWellTyped(item)
  {
    map["name" := JStr(name), "quantity" := JInt(quantity)]
  }

  /** The payload of a recipe: name, type and required items. */
  function RecipePayload(name: string, items: seq<JObject>): (e: JObject)
    requires forall item :: item in items ==> ItemWellTyped(item)
    ensures |e| == 3 && WellTyped(e)
  {
    map["name" := JStr(name), "type" := JStr("recipe"), "requiredItems" := JItems(items)]
  }

  /** An ingredient with a new name is admitted exactly when its cook time is
      not negative, so a cook time of 0 is admitted and one of -1 is not. */
  lemma IngredientOutcome(book: map<string, JObject>, name: string, cookTime: int)
    ensures Validate(book, IngredientPayload(name, cookTime)) ==
      if name in book then Rejected(DuplicateName)
      else if cookTime < 0 then Rejected(InvalidCookTime)
      else Added
  {
    var e := IngredientPayload(name, cookTime);
    assert e["name"] == JStr(name) && e["type"] == JStr("ingredient") && e["cookTime"] == JInt(cookTime);
  }

  /** A two-key item is refused only for a negative quantity: a quantity of 0
      passes. */
  lemma ItemOutcome(name: string, quantity: int)
    ensures ItemError(ItemPayload(name, quantity)) ==
      if quantity < 0 then Some(InvalidQuantity) else None
  {
    var item := ItemPayload(name, quantity);
    assert "name" in item && item["quantity"] == JInt(quantity);
  }

  /** A recipe with a new name is refused for an empty item list, refused with
      the first item's error when some item fails, and admitted otherwise. */
  lemma RecipeOutcome(book: map<string, JObject>, name: string, items: seq<JObject>)
    requires forall item :: item in items ==> ItemWellTyped(item)
    ensures Validate(book, RecipePayload(name, items)) ==
      if name in book then Rejected(DuplicateName)
      else if items == [] then Rejected(NoRequiredItems)
      else if FirstItemError(items).Some? then Rejected(FirstItemError(items).value)
      else Added
  {
    var e := RecipePayload(name, items);
    assert e["name"] == JStr(name) && e["type"] == JStr("recipe") && e["requiredItems"] == JItems(items);
  }

  /** A stored entry, as `entry.pop('name')` leaves an admitted payload: the
      type and the one field its type needs, and nothing else. */
  predicate IsStoredEntry(v: JObject)
  {
    && |v| == 2
    && "type" in v
    && (IsStoredRecipe(v) || IsStoredIngredient(v))
  }

  predicate IsStoredRecipe(v: JObject)
  {
    && "type" in v && v["type"] == JStr("recipe")
    && "requiredItems" in v && v["requiredItems"].JItems?
    && |v["requiredItems"].items| > 0
    && forall item :: item in v["requiredItems"].items ==> ValidItem(item)
  }

  predicate IsStoredIngredient(v: JObject)
  {
    && "type" in v && v["type"] == JStr("ingredient")
    && "cookTime" in v && v["cookTime"].JInt?
    && v["cookTime"].num >= 0
  }

  /** What an admitted payload leaves in the cookbook is a stored entry. */
  lemma AddedEntryIsStored(book: map<string, JObject>, entry: JObject)
    requires WellTyped(entry) && Validate(book, entry) == Added
    ensures IsStoredEntry(Stored(entry))
  {
    AddedIffAdmissible(book, entry);
    var v := Stored(entry);
    assert v.Keys == entry.Keys - {"name"};
  }

  /** An admitted payload names an entry the cookbook does not hold yet, so
      storing it adds exactly one key and leaves every other entry as it was. */
  lemma AddedNameIsNew(book: map<string, JObject>, entry: JObject)
    requires WellTyped(entry) && Validate(book, entry) == Added
    ensures "name" in entry && entry["name"].str !in book
    ensures var after := book[entry["name"].str := Stored(entry)];
      && after.Keys == book.Keys + {entry["name"].str}
      && |after| == |book| + 1
      && forall k :: k in book ==> after[k] == book[k]
  {
  }

  /** A stored recipe carries no cook time. */
  lemma StoredRecipeHasNoCookTime(v: JObject)
    requires IsStoredEntry(v) && IsStoredRecipe(v)
    ensures "cookTime" !in v
  {
    if "cookTime" in v {
      assert {"type", "requiredItems", "cookTime"} <= v.Keys;
      assert |{"type", "requiredItems", "cookTime"}| == 3;
      SubsetCardinality({"type", "requiredItems", "cookTime"}, v.Keys);
    }
  }

  lemma SubsetCardinality(a: set<string>, b: set<string>)
    requires a <= b
    ensures |a| <= |b|
  {
    assert b == a + (b - a);
  }

  // ---------------------------------------------------------------------------
  // Reading a stored recipe

  /** The first required item of a stored recipe, the only one `handle_recipe` reads. */
  function FirstItem(v: JObject): (item: JObject)
    requires IsStoredRecipe(v)
    ensures ValidItem(item)
  {
    assert v["requiredItems"].items[0] in v["requiredItems"].items;
    v["requiredItems"].items[0]
  }

  function ItemName(item: JObject): string
    requires ValidItem(item)
  {
    item["name"].str
  }

  function ItemQuantity(item: JObject): (q: int)
    requires ValidItem(item)
    ensures q >= 0
  {
    item["quantity"].num
  }

  function CookTime(v: JObject): (t: int)
    requires IsStoredIngredient(v)
    ensures t >= 0
  {
    v["cookTime"].num
  }
}
