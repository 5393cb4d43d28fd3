# Recipe cookbook service, modelled in Dafny

The service (`backend/py_template/devdonalds.py`) is a small Flask application
with three pieces of logic behind its endpoints:

- **Name normaliser** (`parse_handwriting`): turns a hand-written recipe name
  into a canonical one. It turns `-` and `_` into spaces, deletes every
  character outside `[a-zA-Z ]`, lower-cases and strips the rest, and returns
  `None` if nothing is left. Otherwise it capitalises each word and joins the
  words with single spaces.
- **Cookbook registry** (`create_entry` and the global `cookbook` dictionary):
  runs a fixed sequence of checks on a JSON payload. The first check that fails
  decides the error. An admitted payload is stored, with its `name` key
  removed, under that name.
- **Summary** (`summary` and `handle_recipe`): looks up a recipe, fills a fresh
  accumulator `{cookTime, ingredients}` in place, and flattens the ingredient
  map into a list.

The model follows the code as written. The function names `summary` and
`handle_recipe` and the recursive branch at devdonalds.py:139-140 show that a
full expansion of a recipe into its base ingredients was intended. The code
does much less:

- The loop of `handle_recipe` returns during its first iteration on every path,
  so only the first required item of a recipe is ever read.
- The test that would send a sub-recipe into recursion compares a stored
  dictionary with the string `'recipe'`. That test never holds, so there is no
  recursion and no quantity multiplier.
- When the first item is itself a recipe, reading its `cookTime` raises
  `KeyError`. The model reports this as the outcome `Crashed`.

There is therefore no expansion over every item, no multiplier for nested
recipes and no cycle detection. `PizzaScenario` and `CycleScenario` show the
behaviour as written: a recipe that needs another recipe first, and two recipes
that require each other, both end in the `KeyError` crash.

Files:

- `options.dfy`: module `Options`, the `Option` datatype (Python's `None` or a value).
- `handwriting.dfy`: module `Handwriting`. `ParseHandwriting`
  (devdonalds.py:45-64) is built from one function per step of the source, over
  `seq<char>`. Lemmas state what its results are.
- `entries.dfy`: module `Entries`. It holds the JSON payload (`JVal`,
  `JObject`), the checks of `create_entry` as the function `Validate`, a
  reference predicate `Admissible` that ignores the order of the checks, the
  shape of stored entries, and lemmas connecting them.
- `cookbook.dfy`: module `Cookbook`. The class `Cookbook` keeps the `cookbook`
  dictionary as a `map` field, with the methods `CreateEntry`, `HandleRecipe`
  and `Summary`. The class `Accumulator` is the summary's mutable accumulator.
  `IngredientLines` is the loop that builds the response list. The scenario
  methods run a few worked sequences of requests against a fresh cookbook.

## Model

| member | source | states |
|---|---|---|
| `Handwriting.SpaceFor` | backend/py_template/devdonalds.py:48-49 | each occurrence of the separator becomes a space; every other character stays where it is |
| `Handwriting.KeepNameChars` | backend/py_template/devdonalds.py:50 | only ASCII letters and spaces survive |
| `Handwriting.KeepNameCharsCounts` | backend/py_template/devdonalds.py:50 | every letter and every space of the input survives, as often as it occurs, and every other character is deleted |
| `Handwriting.KeepNameCharsConcat` | backend/py_template/devdonalds.py:50 | the deletion works piece by piece: what survives of `a + b` is what survives of `a` followed by what survives of `b`, so the survivors keep their order |
| `Handwriting.LowerCase` | backend/py_template/devdonalds.py:53 | same length, each character lower-cased |
| `Handwriting.TrimLeft` | backend/py_template/devdonalds.py:53 | the result is a suffix that does not start with a space; everything dropped is a space |
| `Handwriting.TrimRight` | backend/py_template/devdonalds.py:53 | the result is a prefix that does not end with a space; everything dropped is a space |
| `Handwriting.TakeWord` | backend/py_template/devdonalds.py:58 | the longest prefix without a space, which `split` cuts off as the next word |
| `Handwriting.CapitalizeAll` | backend/py_template/devdonalds.py:61 | one capitalised word for each word, in order |
| `Handwriting.ParseNoneIffNoLetter` | backend/py_template/devdonalds.py:48-55 | the result is `None` exactly when the input holds no ASCII letter; separators, spaces and deleted characters cannot make a name |
| `Handwriting.BlankNameRejected` | backend/py_template/devdonalds.py:53-55 | a name of blanks only gives `None` |
| `Handwriting.MinceMeatNormalised` | backend/py_template/devdonalds.py:45-64 | `"mince-meat!!"` gives `"Mince Meat"`: the hyphen separates two words, the `!!` is deleted and each word is capitalised |
| `Handwriting.ParseYieldsCanonical` | backend/py_template/devdonalds.py:48-64 | a result is canonical: non-empty ASCII-letter words, each upper case in its first letter only, joined by single spaces, no space at either end |
| `Handwriting.WordsStrip` | backend/py_template/devdonalds.py:53-58 | `strip` does not change the words that `split` finds |
| `Handwriting.WordsJoinWords` | backend/py_template/devdonalds.py:58-64 | splitting lower-case words joined by single spaces gives the same words back |
| `Handwriting.ParseKeepsWords` | backend/py_template/devdonalds.py:48-64 | lower-cased, the words of a result are exactly the words of the cleaned input, so `-`, `_` and the space each separate words and a deleted character separates none |
| `Handwriting.ParseKeepsLetters` | backend/py_template/devdonalds.py:48-64 | a result holds the input's letters in order, ignoring case |
| `Handwriting.CanonicalIsFixedPoint` | backend/py_template/devdonalds.py:45-64 | a canonical name is returned unchanged |
| `Handwriting.ParseIdempotent` | backend/py_template/devdonalds.py:45-64 | normalising a result again returns it unchanged |
| `Handwriting.CanonicalIffFixedPoint` | backend/py_template/devdonalds.py:45-64 | a string is its own normal form exactly when it is canonical, so the canonical names are exactly the possible results |
| `Entries.Stored` | backend/py_template/devdonalds.py:108 | what is stored is the payload without its `name` key, with every other key unchanged |
| `Entries.FirstItemErrorNoneIff` | backend/py_template/devdonalds.py:87-95 | the item loop finds no error exactly when every item has exactly the keys `name` and `quantity` and a quantity of at least 0 |
| `Entries.AddedIffAdmissible` | backend/py_template/devdonalds.py:74-105 | a payload is admitted exactly when it has three keys, including `name` and `type`, a name not yet in the cookbook, and is either a recipe with a non-empty list of valid items or an ingredient with a cook time of at least 0 |
| `Entries.RejectionReasons` | backend/py_template/devdonalds.py:74-105 | the wrong number of keys, a missing name or type, a duplicate name and an unknown type are each refused with their own error, in the order the checks run |
| `Entries.IngredientOutcome` | backend/py_template/devdonalds.py:97-102 | an ingredient with a new name is admitted exactly when its cook time is at least 0 (0 is admitted, -1 is refused with `InvalidCookTime`); a known name is refused as a duplicate |
| `Entries.ItemOutcome` | backend/py_template/devdonalds.py:88-95 | a two-key item is refused only for a negative quantity; a quantity of 0 passes |
| `Entries.RecipeOutcome` | backend/py_template/devdonalds.py:83-95 | a recipe with a new name is refused for an empty item list, refused with the first failing item's error, and admitted otherwise |
| `Entries.AddedNameIsNew` | backend/py_template/devdonalds.py:80-108 | an admitted name is new, so storing it adds exactly one key and keeps every other entry |
| `Entries.AddedEntryIsStored` | backend/py_template/devdonalds.py:74-108 | what an admitted payload leaves in the cookbook is a stored entry: its type plus the one field that type needs |
| `Entries.StoredRecipeHasNoCookTime` | backend/py_template/devdonalds.py:144 | a stored recipe has no `cookTime` key, so reading one raises |
| `Entries.FirstItem` | backend/py_template/devdonalds.py:133 | the first required item of a stored recipe is valid |
| `Cookbook.Cookbook.constructor` | backend/py_template/devdonalds.py:31 | the cookbook starts empty |
| `Cookbook.Cookbook.CreateEntry` | backend/py_template/devdonalds.py:70-110 | the outcome is that of the ordered checks; when admitted, the new state is the old map plus the one entry; when refused, the state is unchanged; the stored-entry invariant is kept |
| `Cookbook.Accumulator.constructor` | backend/py_template/devdonalds.py:122 | the accumulator starts at cook time 0 with no ingredients |
| `Cookbook.Cookbook.HandleRecipe` | backend/py_template/devdonalds.py:132-145 | only the first item is read. If it is unknown, `False` is returned and the accumulator is unchanged. If it is known, its quantity is added to its ingredient count. An ingredient then adds cook time times quantity to the total and returns `True`; a recipe raises `KeyError` |
| `Cookbook.IngredientLines` | backend/py_template/devdonalds.py:126-128 | one line per accumulated ingredient, with its quantity, and no name twice |
| `Cookbook.Cookbook.Summary` | backend/py_template/devdonalds.py:116-130 | refused exactly when the name is not a registered recipe. Otherwise: an unknown first item fails, a recipe first item crashes, and an ingredient first item gives its cook time times the quantity and a single-line ingredient list |
| `Cookbook.OmeletteScenario` | backend/py_template/devdonalds.py:116-145 | Egg (cook time 5) and Omelette needing two Egg give a summary of 10 and `[Egg: 2]` |
| `Cookbook.DoughCookbook` | backend/py_template/devdonalds.py:70-110 | Flour and Dough are both admitted in turn |
| `Cookbook.PizzaCookbook` | backend/py_template/devdonalds.py:70-110 | Pizza, needing Dough and Flour, is admitted after them |
| `Cookbook.PizzaScenario` | backend/py_template/devdonalds.py:132-145 | the summary of Pizza crashes, because its first item Dough is a recipe; it does not report three Flour |
| `Cookbook.CycleScenario` | backend/py_template/devdonalds.py:132-145 | two recipes that require each other end in the crash, not in recursion |

## Left out

- HTTP transport: Flask routing, `request.get_json`, `request.args`, `jsonify`, status codes and `app.run` (devdonalds.py:28, 34-41, 69, 115, 151-152). Results are typed outcomes. The `name` field of the summary response is kept in `Report`.
- A `summary` request without a `name` query argument raises `KeyError` at :117. This belongs to the transport and is not modelled.
- The `re` engine: each substitution is an explicit function over characters.
- Non-ASCII text and non-space whitespace: `lower`, `strip`, `split` and `capitalize` are modelled on ASCII letters and the space only. The deletion step at :50 has already removed everything else by the time they run.
- Cookbook.Cookbook.CreateEntry: requires a well-typed payload (`WellTyped`). This is stricter than the source, which accepts any JSON. The source raises a `TypeError` for a quantity or cook time that is not a number (a string, a list, an object or `null`), and for a list used as a name. A float or a boolean there compares with 0 without error, so such an entry is admitted when the number is not negative (`True` counts as 1, `False` as 0) and refused as an invalid quantity or cook time when it is negative. It handles some other types without an error, for example an integer name, or a string `requiredItems` on an ingredient. JSON floats, booleans, `null`, and required items that are not objects are not modelled either.
- Cookbook.IngredientLines: the list's order is left open. The source follows the dictionary's insertion order. The contract states the content (one line per key, the right quantity, no name twice), not the order.
- Cookbook.Cookbook.HandleRecipe: a recipe with an empty item list makes the source's loop fall through and return `None`. This cannot happen with a validated cookbook, so the model's invariant excludes it and the branch is not modelled.
- The dataclasses at :7-22 are never used by the service and are not modelled.
- Concurrency: the cookbook is a global dict with no lock (devdonalds.py:31). The server is started with `app.run` (devdonalds.py:152), which serves requests on threads by default, so concurrent requests can interleave. For example, two `create_entry` calls with the same new name can both pass the duplicate test at :80, and the later insert at :108 overwrites the earlier one. The model treats each request as running alone.
- Handwriting.KeepNameChars: its own contract states only the alphabet of the result. That every letter and space survives, and in order, is stated by the lemmas `KeepNameCharsCounts` and `KeepNameCharsConcat`. Those facts are not on the function's own contract, so that the proofs that use the function stay small.
