/** The catalogue (meal type to ordered group of dishes), the day's plan, and
    the pure meaning of the catalogue edits: adding a dish under a name not
    yet used in its group, and removing every dish of a name. */
module Catalog {
  import opened Dishes

  /** Meal type to its ordered group of dishes. */
  type Menu = map<string, seq<Dish>>

  /** Meal type to the dishes chosen for it today. */
  type Plan = map<string, seq<Dish>>

  function Sample(name: string, materials: seq<string>, calorie: string, tags: seq<string>): Dish
  {
    Dish(name, materials, map["calorie" := calorie, "protein" := "medium", "fat" := "medium"], tags)
  }

  /** The seed's breakfast group (a few of its dishes). */
  function SeedBreakfast(): (g: seq<Dish>)
    ensures g != [] && UniqueNames(g)
  {
    var g := [
      Sample("Pian'erchuan noodles", ["noodles", "bamboo shoot", "pickled greens", "pork", "stock"], "medium", ["Hangzhou", "noodles"]),
      Sample("Pork and greens wontons", ["wonton wrappers", "pork filling", "greens", "egg strips"], "medium", ["soup", "filling"]),
      Sample("Sesame flatbread with fried dough stick", ["flatbread", "fried dough stick", "pickled mustard"], "high", ["traditional", "fried"])
    ];
    assert g[0].name != g[1].name && g[0].name != g[2].name && g[1].name != g[2].name;
    g
  }

  /** The seed's lunch group (a few of its dishes). */
  function SeedLunch(): (g: seq<Dish>)
    ensures g != [] && UniqueNames(g)
  {
    var g := [
      Sample("Pickled greens and pork noodles", ["noodles", "pickled greens", "bamboo shoot", "pork"], "medium", ["spring", "noodles"]),
      Sample("Rice cake with pork and greens", ["rice cake", "pork", "greens"], "high", ["winter", "filling"]),
      Sample("Chicken breast salad", ["chicken breast", "lettuce", "cherry tomato", "vinaigrette"], "low", ["fitness", "low calorie"])
    ];
    assert g[0].name != g[1].name && g[0].name != g[2].name && g[1].name != g[2].name;
    g
  }

  /** The seed's dinner group (a few of its dishes). */
  function SeedDinner(): (g: seq<Dish>)
    ensures g != [] && UniqueNames(g)
  {
    var g := [
      Sample("Yanduxian soup", ["cured pork", "pork belly", "spring bamboo shoot", "tofu knots"], "high", ["spring", "soup"]),
      Sample("Braised spring bamboo shoots", ["spring bamboo shoot", "soy sauce", "sugar"], "low", ["spring", "vegetarian"]),
      Sample("Steamed hairy crab", ["hairy crab", "ginger", "rice wine"], "high", ["autumn", "feast"])
    ];
    assert g[0].name != g[1].name && g[0].name != g[2].name && g[1].name != g[2].name;
    g
  }

  /** The built-in seed catalogue: three meal types, each a non-empty group
      with unique names. */
  function DefaultMenu(): (m: Menu)
    ensures m.Keys == {"breakfast", "lunch", "dinner"}
    ensures forall t :: t in m ==> m[t] != [] && UniqueNames(m[t])
  {
    map["breakfast" := SeedBreakfast(), "lunch" := SeedLunch(), "dinner" := SeedDinner()]
  }

  /** The plan with every meal empty. */
  function EmptyPlan(): (p: Plan)
    ensures p.Keys == {"breakfast", "lunch", "dinner"}
    ensures forall t :: t in p ==> p[t] == []
  {
    map["breakfast" := [], "lunch" := [], "dinner" := []]
  }

  /** The catalogue after offering dish `d` to group `t`: a missing group is
      created empty, and `d` is appended unless its name is already taken in
      that group. */
  function MenuWithItem(m: Menu, t: string, d: Dish): (r: Menu)
    ensures t in r && r - {t} == m - {t}
    ensures GroupOf(m, t) <= r[t]
    ensures d.name in Names(r[t])
    ensures |r[t]| == |GroupOf(m, t)| + (if d.name in Names(GroupOf(m, t)) then 0 else 1)
    ensures d.name in Names(GroupOf(m, t)) ==> r[t] == GroupOf(m, t)
    ensures d.name !in Names(GroupOf(m, t)) ==> r[t] == GroupOf(m, t) + [d]
  {
    var group := GroupOf(m, t);
    if d.name in Names(group) then m[t := group]
    else
      assert Names(group + [d])[|group|] == d.name;
      m[t := group + [d]]
  }

  /** The catalogue after dropping every dish called `name` from group `t`;
      a missing group leaves the catalogue as it is. */
  function MenuWithoutItem(m: Menu, t: string, name: string): (r: Menu)
    ensures r.Keys == m.Keys && r - {t} == m - {t}
    ensures t in m ==> name !in Names(r[t])
  {
    if t in m then
      FilterByNameMembers(m[t], NotNamed(name));
      m[t := WithoutName(m[t], name)]
    else m
  }

  /** Offering a dish whose name the group already holds changes nothing, so
      adding the same name twice is adding it once. */
  lemma MenuWithItemIdempotent(m: Menu, t: string, d: Dish, again: Dish)
    requires again.name == d.name
    ensures MenuWithItem(MenuWithItem(m, t, d), t, again) == MenuWithItem(m, t, d)
  {
  }

  /** Offering a dish keeps the names of its group unique. */
  lemma MenuWithItemKeepsUniqueNames(m: Menu, t: string, d: Dish)
    requires UniqueNames(GroupOf(m, t))
    ensures UniqueNames(MenuWithItem(m, t, d)[t])
  {
    var group := GroupOf(m, t);
    if d.name !in Names(group) {
      NamesConcat(group, [d]);
      assert Names(group + [d]) == Names(group) + [d.name];
    }
  }

  /** The group after a removal holds exactly the dishes of the old group not
      called `name`, and keeps their order: removing from a concatenation is
      removing from each part. */
  lemma MenuWithoutItemGroup(m: Menu, t: string, name: string, front: seq<Dish>, back: seq<Dish>)
    requires t in m && m[t] == front + back
    ensures forall d :: d in MenuWithoutItem(m, t, name)[t] <==> d in m[t] && d.name != name
    ensures MenuWithoutItem(m, t, name)[t] == WithoutName(front, name) + WithoutName(back, name)
  {
    FilterByNameMembers(m[t], NotNamed(name));
    FilterByNameConcat(front, back, NotNamed(name));
  }

  /** A group without any dish of that name is left as it is. */
  lemma MenuWithoutAbsentItem(m: Menu, t: string, name: string)
    requires name !in Names(GroupOf(m, t))
    ensures MenuWithoutItem(m, t, name) == m
  {
    if t in m {
      forall d | d in m[t]
        ensures d.name != name
      {
        var i :| 0 <= i < |m[t]| && m[t][i] == d;
        assert Names(m[t])[i] == d.name;
      }
      FilterByNameKeepsAll(m[t], NotNamed(name));
    }
  }

  /** Removing the same name twice is removing it once. */
  lemma MenuWithoutItemIdempotent(m: Menu, t: string, name: string)
    ensures MenuWithoutItem(MenuWithoutItem(m, t, name), t, name) == MenuWithoutItem(m, t, name)
  {
    if t in m {
      FilterByNameIdempotent(m[t], NotNamed(name));
    }
  }

  /** Removing dishes keeps the names of the group unique. */
  lemma MenuWithoutItemKeepsUniqueNames(m: Menu, t: string, name: string)
    requires UniqueNames(GroupOf(m, t))
    ensures UniqueNames(GroupOf(MenuWithoutItem(m, t, name), t))
  {
    if t in m {
      FilterByNameNames(m[t], NotNamed(name));
      SubMultisetNoDup(Names(WithoutName(m[t], name)), Names(m[t]));
    }
  }
}
