/** The cookbook service's state and its two state-touching operations:
    `create_entry`, which validates a payload and inserts it into the global
    `cookbook` dictionary, and `summary`, which fills a fresh accumulator
    through `handle_recipe` and flattens it into a list. */
module Cookbook {

  import opened Options
  import opened Entries

  /** The accumulator `{'cookTime': 0, 'ingredients': {}}` that `summary`
      creates and `handle_recipe` updates in place. */
  class Accumulator {
    var cookTime: int
    var ingredients: map<string, int>

    constructor ()
      ensures cookTime == 0 && ingredients == map[]
    {
      cookTime := 0;
      ingredients := map[];
    }
  }

  /** How `handle_recipe` leaves: `return True`, `return False`, or the
      `KeyError` that reading a missing `cookTime` raises. */
  datatype HandleOutcome = Handled | MissingItem | MissingCookTime

  /** One element of the `ingredients` list of a summary. */
  datatype IngredientLine = IngredientLine(name: string, quantity: int)

  /** What the summary endpoint answers: the summary, the 'invalid name' and
      'couldnt handle recipe' errors, or the crash of an uncaught `KeyError`. */
  datatype SummaryResult =
    | Report(name: string, cookTime: int, ingredients: seq<IngredientLine>)
    | InvalidName
    | CouldNotHandle
    | Crashed

  /** The loop that turns the accumulated ingredient map into the list of the
      response: one line per key, carrying its quantity, each name once.  The
      source follows the dictionary's order; here the order is left open. */
  method IngredientLines(ingredients: map<string, int>) returns (lines: seq<IngredientLine>)
    ensures |lines| == |ingredients|
    ensures forall i :: 0 <= i < |lines| ==>
      lines[i].name in ingredients && lines[i].quantity == ingredients[lines[i].name]
    ensures forall i, j :: 0 <= i < j < |lines| ==> lines[i].name != lines[j].name
    ensures forall n :: n in ingredients ==> IngredientLine(n, ingredients[n]) in lines
  {
    var pending := ingredients.Keys;
    lines := [];
    while pending != {}
      invariant pending <= ingredients.Keys
      invariant |lines| + |pending| == |ingredients|
      invariant forall i :: 0 <= i < |lines| ==>
        lines[i].name in ingredients && lines[i].name !in pending
        && lines[i].quantity == ingredients[lines[i].name]
      invariant forall i, j :: 0 <= i < j < |lines| ==> lines[i].name != lines[j].name
      invariant forall n :: n in ingredients && n !in pending ==> IngredientLine(n, ingredients[n]) in lines
      decreases |pending|
    {
      var n :| n in pending;
      lines := lines + [IngredientLine(n, ingredients[n])];
      pending := pending - {n};
    }
  }

  /** The global `cookbook`: entry names mapped to stored entries. */
  class Cookbook {
    var entries: map<string, JObject>

    /** Every stored entry is what an admitted payload leaves behind. */
    ghost predicate Valid()
      reads this
    {
      forall name :: name in entries ==> IsStoredEntry(entries[name])
    }

    constructor ()
      ensures Valid() && entries == map[]
    {
      entries := map[];
    }

    /** `create_entry`: the checks run in order and the first failing one
        decides the error; an admitted payload is stored, without its name,
        under its name, and nothing else changes. */
    method CreateEntry(entry: JObject) returns (result: AddResult)
      requires Valid() && WellTyped(entry)
      modifies this
      ensures Valid()
      ensures result == Validate(old(entries), entry)
      ensures result == Added ==>
        "name" in entry && entries == old(entries)[entry["name"].str := Stored(entry)]
      ensures result != Added ==> entries == old(entries)
    {
      if |entry| != 3 {
        return Rejected(WrongKeyCount);
      }
      if "name" !in entry || "type" !in entry {
        return Rejected(NoNameOrType);
      }
      if entry["name"].str in entries {
        return Rejected(DuplicateName);
      }
      if entry["type"] == JStr("recipe") {
        if "requiredItems" !in entry || |entry["requiredItems"].items| == 0 {
          return Rejected(NoRequiredItems);
        }
        var items := entry["requiredItems"].items;
        for k := 0 to |items|
          invariant FirstItemError(items) == FirstItemError(items[k..])
        {
          var item := items[k];
          assert item in items;
          assert items[k..][0] == item && items[k..][1..] == items[k + 1..];
          if |item| != 2 {
            return Rejected(WrongItemKeyCount);
          }
          if "name" !in item || "quantity" !in item {
            return Rejected(InvalidItemKeys);
          }
          if item["quantity"].num < 0 {
            return Rejected(InvalidQuantity);
          }
        }
        assert items[|items|..] == [];
      } else if entry["type"] == JStr("ingredient") {
        if "cookTime" !in entry {
          return Rejected(NoCookTime);
        }
        if entry["cookTime"].num < 0 {
          return Rejected(InvalidCookTime);
        }
      } else {
        return Rejected(InvalidType);
      }
      AddedEntryIsStored(entries, entry);
      entries := entries[entry["name"].str := Stored(entry)];
      result := Added;
    }

    /** `handle_recipe`: only the first required item of the recipe is read,
        because the loop over the items returns during its first iteration.
        An unknown item leaves the accumulator alone; a known item adds its
        quantity to the ingredient map and then, when it has a cook time, that
        time times the quantity to the total; a recipe has none, and reading it
        raises. */
    method HandleRecipe(name: string, acc: Accumulator) returns (outcome: HandleOutcome)
      requires Valid() && name in entries && IsStoredRecipe(entries[name])
      modifies acc
      ensures var item := FirstItem(entries[name]);
        var n, q := ItemName(item), ItemQuantity(item);
        if n !in entries then
          && outcome == MissingItem
          && acc.ingredients == old(acc.ingredients)
          && acc.cookTime == old(acc.cookTime)
        else
          && acc.ingredients == old(acc.ingredients)[n := GetOrZero(old(acc.ingredients), n) + q]
          && (IsStoredRecipe(entries[n]) ==>
                outcome == MissingCookTime && acc.cookTime == old(acc.cookTime))
          && (IsStoredIngredient(entries[n]) ==>
                outcome == Handled && acc.cookTime == old(acc.cookTime) + CookTime(entries[n]) * q)
    {
      var item := FirstItem(entries[name]);
      var itemName := item["name"].str;
      if itemName !in entries {
        return MissingItem;
      }
      // The test whether the stored entry equals the string 'recipe' compares a
      // dictionary with a string and never holds, so the recursive call that
      // would follow is never made.
      acc.ingredients := acc.ingredients[itemName := GetOrZero(acc.ingredients, itemName) + item["quantity"].num];
      var stored := entries[itemName];
      if "cookTime" !in stored {
        return MissingCookTime;
      }
      if IsStoredRecipe(stored) {
        StoredRecipeHasNoCookTime(stored);
      }
      acc.cookTime := acc.cookTime + stored["cookTime"].num * item["quantity"].num;
      outcome := Handled;
    }

    /** `summary`: a name that is not a registered recipe is refused; otherwise
        the answer depends only on the recipe's first required item.  An
        unknown item makes it fail, a recipe makes it crash, and an ingredient
        gives that ingredient's cook time times the quantity as the total time
        and that single ingredient with its quantity as the list. */
    method Summary(name: string) returns (result: SummaryResult)
      requires Valid()
      ensures !(name in entries && IsStoredRecipe(entries[name])) <==> result == InvalidName
      ensures name in entries && IsStoredRecipe(entries[name]) ==>
        var item := FirstItem(entries[name]);
        var n, q := ItemName(item), ItemQuantity(item);
        if n !in entries then result == CouldNotHandle
        else if IsStoredRecipe(entries[n]) then result == Crashed
        else result == Report(name, CookTime(entries[n]) * q, [IngredientLine(n, q)])
    {
      if name !in entries || entries[name]["type"] != JStr("recipe") {
        return InvalidName;
      }
      var acc := new Accumulator();
      var handled := HandleRecipe(name, acc);
      if handled == MissingItem {
        return CouldNotHandle;
      }
      if handled == MissingCookTime {
        return Crashed;
      }
      var lines := IngredientLines(acc.ingredients);
      ghost var item := FirstItem(entries[name]);
      ghost var n, q := ItemName(item), ItemQuantity(item);
      assert acc.ingredients == map[n := q];
      assert |lines| == 1 && lines[0].name == n;
      assert lines == [IngredientLine(n, q)];
      result := Report(name, acc.cookTime, lines);
    }
  }

  /** `dict.get(key, 0)`. */
  function GetOrZero(m: map<string, int>, key: string): int
  {
    if key in m then m[key] else 0
  }

  // ---------------------------------------------------------------------------
  // Worked requests

  /** Registering the ingredient Egg with cook time 5 and the recipe Omelette
      that requires two eggs: its summary is 10 time units and two eggs. */
  method OmeletteScenario() returns (result: SummaryResult)
    ensures result == Report("Omelette", 10, [IngredientLine("Egg", 2)])
  {
    var book := new Cookbook();
    IngredientOutcome(book.entries, "Egg", 5);
    var added := book.CreateEntry(IngredientPayload("Egg", 5));
    var twoEggs := [ItemPayload("Egg", 2)];
    OneValidItem("Egg", 2);
    RecipeOutcome(book.entries, "Omelette", twoEggs);
    added := book.CreateEntry(RecipePayload("Omelette", twoEggs));
    result := book.Summary("Omelette");
  }

  /** Registering Flour with cook time 1 and Dough requiring two Flour: both
      are admitted. */
  method DoughCookbook() returns (book: Cookbook)
    ensures fresh(book) && book.Valid()
    ensures book.entries.Keys == {"Flour", "Dough"}
    ensures IsStoredRecipe(book.entries["Dough"])
  {
    book := new Cookbook();
    IngredientOutcome(book.entries, "Flour", 1);
    var added := book.CreateEntry(IngredientPayload("Flour", 1));
    var twoFlour := [ItemPayload("Flour", 2)];
    OneValidItem("Flour", 2);
    RecipeOutcome(book.entries, "Dough", twoFlour);
    added := book.CreateEntry(RecipePayload("Dough", twoFlour));
  }

  /** Adding Pizza, requiring one Dough and one Flour: it is admitted. */
  method PizzaCookbook() returns (book: Cookbook)
    ensures fresh(book) && book.Valid()
    ensures "Pizza" in book.entries && IsStoredRecipe(book.entries["Pizza"])
    ensures FirstItem(book.entries["Pizza"]) == ItemPayload("Dough", 1)
    ensures "Dough" in book.entries && IsStoredRecipe(book.entries["Dough"])
  {
    book := DoughCookbook();
    var doughAndFlour := [ItemPayload("Dough", 1), ItemPayload("Flour", 1)];
    TwoValidItems("Dough", 1, "Flour", 1);
    RecipeOutcome(book.entries, "Pizza", doughAndFlour);
    var added := book.CreateEntry(RecipePayload("Pizza", doughAndFlour));
    assert book.entries["Pizza"]["requiredItems"] == JItems(doughAndFlour);
  }

  /** The summary of Pizza reads only its first item, Dough, which is a recipe
      and has no cook time: the request crashes instead of reporting three
      Flour. */
  method PizzaScenario() returns (result: SummaryResult)
    ensures result == Crashed
  {
    var book := PizzaCookbook();
    result := book.Summary("Pizza");
  }

  /** Two recipes that require each other: the summary of either reads the
      other as its first item and crashes on its missing cook time; it does
      not recurse. */
  method CycleScenario() returns (result: SummaryResult)
    ensures result == Crashed
  {
    var book := new Cookbook();
    OneValidItem("B", 1);
    OneValidItem("A", 1);
    RecipeOutcome(book.entries, "A", [ItemPayload("B", 1)]);
    var added := book.CreateEntry(RecipePayload("A", [ItemPayload("B", 1)]));
    RecipeOutcome(book.entries, "B", [ItemPayload("A", 1)]);
    added := book.CreateEntry(RecipePayload("B", [ItemPayload("A", 1)]));
    result := book.Summary("A");
  }

  lemma OneValidItem(name: string, quantity: int)
    requires quantity >= 0
    ensures FirstItemError([ItemPayload(name, quantity)]) == None
  {
    ItemOutcome(name, quantity);
    assert [ItemPayload(name, quantity)][1..] == [];
  }

  lemma TwoValidItems(first: string, q1: int, second: string, q2: int)
    requires q1 >= 0 && q2 >= 0
    ensures FirstItemError([ItemPayload(first, q1), ItemPayload(second, q2)]) == None
  {
    OneValidItem(second, q2);
    ItemOutcome(first, q1);
    assert [ItemPayload(first, q1), ItemPayload(second, q2)][1..] == [ItemPayload(second, q2)];
  }
}
