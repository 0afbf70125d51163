# Food store model

A Dafny model of the food store of the "eat today" menu planner
(`src/stores/food.js`). The store keeps four pieces of state:

- `menu`: meal type (breakfast, lunch, dinner, or any other key) to an
  ordered group of dishes. A dish has a name, materials, a nutrition map and
  tags.
- `history`: every name picked since the history was last cleared (or as
  loaded at start-up), each once, in first-pick order.
- `recentHistory`: the recency window, the last five picked names, oldest
  first.
- `todayPlan`: meal type to the dishes planned for it today.

Its actions draw dishes (`pickFood`), set or clear the plan
(`addFoodToPlan`, `clearHistory`) and edit the catalogue (`addFoodItem`,
`removeFoodItem`, `resetMenu`). When the store starts, a persisted catalogue
is used only if it passes a shape check (`_loadMenuFromStorage`).

Files, one module each:

- `dishes.dfy` (`Dishes`): the `Dish` value, and the list operations the
  actions use. These are the name filter, a one-element splice, and the first
  position holding a given name. It also holds duplicate-freedom facts.
- `recency.dfy` (`Recency`): the five-name FIFO window and the
  "append if new" history update.
- `draw.dfy` (`Draw`): the sampling loop of `pickFood`, as a method that
  changes no state.
- `catalog.dfy` (`Catalog`): the seed catalogue, the empty plan, and the
  pure meaning of adding and removing a dish.
- `storage.dfy` (`Storage`): decoded JSON values and the load check.
- `food_store.dfy` (`FoodStore`): the `Store` class. Its four fields are
  updated in place by its methods.

`Math.random` becomes a nondeterministic index choice (`:|`). Every
postcondition of the draw holds for every choice. The JSON parser is a
parameter of the load check. Storage reads at start-up become constructor
arguments.

The model follows `food.js` as written. Three places are worth knowing:

- The draw uses only fresh dishes (names not in the window) when there are
  some AND they alone can complete the draw (`picked + fresh >= actualCount`).
  Otherwise it draws from all remaining dishes. A non-fresh dish is therefore
  drawn only while the remaining fresh dishes cannot finish the draw, so the
  draw returns exactly min(draw size, fresh dishes in the group) fresh
  dishes. For a group `[A, B, C]` with `A` and `B` in the window, a request
  for 2 always returns `C` and one of `A` and `B`. If the group holds at least
  as many fresh dishes as the draw needs, no recent name is returned.
- In the fresh branch the dish removed from the working list is the first
  one with the chosen name. When two dishes in a group share a name, the
  chosen dish can stay in the list and be drawn twice
  (`Draw.RepeatedNameKeepsChosenDish`). `addFoodItem` never creates such a
  group and the seed has none. Without unique names the model proves only a
  weaker bound: no name is returned more often than it occurs in the group.
  With unique names it also proves that no group position is returned twice.
- `clearHistory` resets the history, the window and the plan, and does
  nothing else. There is no per-date plan ledger in this code. Saving a day's
  plan, reusing a past day's plan and reconciling on clear are not part of
  the model.

## Model

| member | source | states |
|---|---|---|
| `Dishes.FilterByNameMembers` | src/stores/food.js:149 | a dish survives the filter if and only if it is in the group and its name passes the test (both directions) |
| `Dishes.FilterByName` | src/stores/food.js:149 | the filter never yields more dishes than the group holds |
| `Dishes.FilterByNameAllKept` | src/stores/food.js:149 | a filter that keeps as many dishes as the group holds has kept every dish, so every name passed the test |
| `Dishes.GroupOf` | src/stores/food.js:135 | a present meal type reads as its stored group; a non-empty result means the meal type is present |
| `Dishes.FreshEntries` | src/stores/food.js:149 | the fresh dishes are never more than the group; with an empty window every dish is fresh |
| `Dishes.FilterByNameConcat` | src/stores/food.js:218 | filtering distributes over concatenation, so the surviving dishes keep their relative order |
| `Dishes.FilterByNameIdempotent` | src/stores/food.js:218 | filtering twice with the same test equals filtering once |
| `Dishes.FilterByNameKeepsAll` | src/stores/food.js:218 | a group whose names all pass the test is returned unchanged |
| `Dishes.FilterByNameNames` | src/stores/food.js:218 | every name occurs in the filtered group at most as often as in the group |
| `Dishes.FilterAfterRemoveAt` | src/stores/food.js:149-160 | cutting one position lowers the count of fresh dishes by one exactly when the cut dish is fresh |
| `Dishes.RemoveAt` | src/stores/food.js:168 | a one-element splice shortens the list by one and removes exactly that element from its multiset |
| `Dishes.FirstIndexOfName` | src/stores/food.js:160 | `findIndex` by name gives a position holding the name, and no earlier position holds it |
| `Draw.Target` | src/stores/food.js:142 | the draw size is at most the group size and at most the (non-negative) count, and for a positive count it is one of the two |
| `Draw.DrawDishes` | src/stores/food.js:138-174 | returns exactly max(0, min(count, group size)) dishes, all from the group; exactly min(that size, number of fresh dishes in the group) of them are fresh, so a draw avoids recent names as far as the group allows; if the group has at least that many fresh dishes, none returned is recent; no name more often than in the group; with unique names, no position twice and pairwise distinct names; terminates because the working list shrinks each step |
| `Draw.DrawStep` | src/stores/food.js:147-174 | one step of the loop keeps every loop fact: remaining dishes come from the group, names (and, with unique names, dishes) are conserved between picked and remaining, and the fresh-count facts of `Draw.FreshCountStep` hold for both branches |
| `Draw.FreshCountStep` | src/stores/food.js:153-169 | in one step the fresh dishes stay shared between picked and remaining (their total is the group's fresh count), and the non-fresh dishes picked stay within max(0, draw size - fresh count), because the all-dishes branch runs only while the remaining fresh dishes cannot finish the draw |
| `Draw.SecondDrawTakesFreshDish` | src/stores/food.js:147-169 | for a group `[a, b, c]` with `a` and `b` in the window, the group has one fresh dish, and every draw of 2 meeting the fresh count of `Draw.DrawDishes` contains `c` |
| `Draw.RepeatedNameKeepsChosenDish` | src/stores/food.js:160 | with two different dishes under one name, choosing the second in the fresh branch cuts the first, so the chosen dish stays drawable |
| `Recency.PushAllIsLastN` | src/stores/food.js:177-181 | pushing names onto a window of at most 5 leaves the last 5 of old window followed by the pushed names, oldest evicted first, with length min(total, 5) |
| `Recency.PushCapped` | src/stores/food.js:178-181 | the pushed name is last; a window within capacity grows by one until it holds 5 and then stays at 5 |
| `Recency.PushAll` | src/stores/food.js:177-181 | pushing names in order keeps a window within capacity, ends with the last pushed name, and pushing nothing changes nothing |
| `Recency.AppendNew` | src/stores/food.js:182-185 | the old history is a prefix of the new one, a name is in the new history if and only if it was in the old one or was picked, and no duplicate is introduced |
| `Recency.AppendNewOne` | src/stores/food.js:182-184 | recording one name appends it exactly when it is not yet in the history, and otherwise leaves the history as it is |
| `Recency.AppendNewLast` | src/stores/food.js:177-185 | recording a list of names is recording all but the last, then the last one on its own |
| `Recency.AppendNewConcat` | src/stores/food.js:177-185 | recording `a` then `b` equals recording `a + b`, so the new names are appended one at a time in pick order |
| `Catalog.SeedBreakfast` | src/stores/food.js:64-75 | the seed breakfast group is non-empty with unique names |
| `Catalog.SeedLunch` | src/stores/food.js:76-85 | the seed lunch group is non-empty with unique names |
| `Catalog.SeedDinner` | src/stores/food.js:86-108 | the seed dinner group is non-empty with unique names |
| `Catalog.DefaultMenu` | src/stores/food.js:63-109 | the seed has exactly the keys breakfast, lunch and dinner, each a non-empty group with unique names |
| `Catalog.EmptyPlan` | src/stores/food.js:198 | the cleared plan has exactly the three meal keys, each empty |
| `Catalog.MenuWithItem` | src/stores/food.js:203-213 | adding creates the group if missing and touches no other group; when the name is absent the group becomes the old group followed by the given dish itself (name, materials, nutrition, tags); when present the group is unchanged; the name is present afterwards |
| `Catalog.MenuWithoutItem` | src/stores/food.js:216-221 | removal keeps the set of meal types and every other group, and no dish of that name is left in the group |
| `Catalog.MenuWithItemIdempotent` | src/stores/food.js:207-210 | adding a second dish under a name already added changes nothing, so adding a name twice equals adding it once |
| `Catalog.MenuWithItemKeepsUniqueNames` | src/stores/food.js:207-211 | adding keeps the names of the group unique |
| `Catalog.MenuWithoutItemGroup` | src/stores/food.js:218 | the new group holds exactly the old group's dishes not of that name (both directions), in their original order |
| `Catalog.MenuWithoutAbsentItem` | src/stores/food.js:216-221 | removing a name that the group does not hold, or removing from a missing group, changes nothing |
| `Catalog.MenuWithoutItemIdempotent` | src/stores/food.js:216-221 | removing a name twice equals removing it once |
| `Catalog.MenuWithoutItemKeepsUniqueNames` | src/stores/food.js:218 | removal keeps the names of the group unique |
| `Storage.LoadMenuFromStorage` | src/stores/food.js:47-60 | a stored catalogue is accepted only when the text is present and non-empty and decodes to an object with a truthy `breakfast` entry; absent or empty text yields none |
| `Storage.Truthy` | src/stores/food.js:52 | a decoded value is falsy if and only if it is `null`, `false`, `0` or the empty string |
| `Storage.LooksLikeMenu` | src/stores/food.js:52 | the shape test holds if and only if the value is an object with a truthy `breakfast` entry; arrays pass `typeof` but fail on `breakfast` |
| `Storage.LoadMenuAcceptsMenuObjects` | src/stores/food.js:49-53 | conversely, every such object decoded from non-empty text is accepted unchanged |
| `Storage.LoadMenuRejectsArrays` | src/stores/food.js:52 | a decoded array is rejected although its type is `object` |
| `FoodStore.Store.constructor` | src/stores/food.js:112-122 | the store starts with the accepted catalogue or the seed, the stored history or none, the stored plan or the empty plan, and an empty window |
| `FoodStore.Store.AddFoodToPlan` | src/stores/food.js:126-131 | only the plan of that meal type is replaced, and only for a list argument and a meal type the catalogue has; otherwise nothing changes |
| `FoodStore.Store.PickFood` | src/stores/food.js:134-189 | an empty or missing group yields no dishes and no change; otherwise the draw guarantees of `Draw.DrawDishes` hold, the fresh count measured against the window as it was before the call; the window becomes the last 5 of old window followed by the picked names; the history gains the new picked names in pick order; catalogue and plan are unchanged |
| `FoodStore.Store.RecordPicked` | src/stores/food.js:177-186 | after the bookkeeping loop the window is every picked name pushed in order with oldest-first eviction, the history is the old history plus the new names in pick order, the window stays within 5, and catalogue and plan are unchanged |
| `FoodStore.Store.ClearHistory` | src/stores/food.js:192-200 | history and window become empty, the plan becomes three empty meals, the catalogue is unchanged |
| `FoodStore.Store.AddFoodItem` | src/stores/food.js:203-213 | the catalogue becomes `MenuWithItem` of the old one; history, window and plan are unchanged |
| `FoodStore.Store.RemoveFoodItem` | src/stores/food.js:216-221 | the catalogue becomes `MenuWithoutItem` of the old one; history, window and plan are unchanged |
| `FoodStore.Store.ResetMenu` | src/stores/food.js:224-227 | the catalogue becomes the seed; history, window and plan are unchanged |

## Left out

- Persistence: the writes and removals that follow each action
  (src/stores/food.js:129, 184, 195, 199, 212, 219, 226) and the storage shim
  (src/stores/food.js:4-39) call into the platform's key-value storage. Only
  the in-memory state is modelled. The stored values read at start-up are
  constructor arguments.
- Decoding: the JSON parser is a parameter of the load check. Decoded
  numbers are integers. Turning an accepted JSON object into dishes is not
  modelled: the source uses the parsed object untyped, and the constructor
  takes the accepted catalogue already as dishes. A parse failure of the
  stored history or plan (src/stores/food.js:118, 121) throws in the source
  and is not modelled.
- `Math.random` is modelled only as "some valid index"; its distribution is
  not.
- `pickFood`'s `count` is an integer. Non-numeric or fractional counts are
  not modelled. The `if (choice)` guard (src/stores/food.js:171) always holds
  because every index drawn is in range, so it has no counterpart.
- Aliasing: `resetMenu` and start-up assign the shared seed object itself
  (src/stores/food.js:112, 225). Later catalogue edits then write into the
  seed: the new empty group of line 205, the `push` of line 211 and the
  filtered group of line 218. So after start-up without a stored catalogue
  (or after `resetMenu`), removing a dish removes it from the seed too, and a
  later `resetMenu` does not bring it back. The model treats the seed as an
  immutable constant: `ResetMenu` always restores the full seed.
- Inherited object properties: the catalogue and the plan are plain
  JavaScript objects, and `this.menu[type]` (src/stores/food.js:127, 135,
  204, 207, 217) also finds inherited properties such as `toString` or
  `constructor`. In the source, `addFoodToPlan('toString', …)` sets a plan
  entry, `addFoodItem` and `removeFoodItem` on such a key throw, and
  `pickFood('constructor', 2)` throws. The model's meal types are the
  catalogue's own keys only: such a key counts as absent, and the actions do
  nothing, create the group, or return no dishes.
- The seed catalogue is represented by three sample dishes per meal type
  with English names, not its full contents.
- Per-date plan history (saving, reusing and reconciling a day's plan) has no
  code in `food.js` and is not modelled. `clearHistory` triggers nothing
  beyond resetting fields.
- Pinia/Vue machinery (`defineStore`, reactivity), `daima.py` (a project
  generator that writes files) and `vite.config.js` (build settings) are not
  part of this model.
