/** The food store: the catalogue, the selection history, the recency window
    and today's plan, with the actions that draw dishes, edit the catalogue
    and set or clear the plan. Writes to the key-value storage that follow
    each action are not modelled; only the in-memory state is. */
module FoodStore {
  import opened Dishes
  import opened Recency
  import opened Catalog
  import opened Storage
  import Draw

  /** The argument of `AddFoodToPlan`: a list of dishes, or any value that is
      not a list (which the action ignores). */
  datatype PlanItems = DishList(dishes: seq<Dish>) | NotAList

  class Store {
    /** Meal type to its group of dishes. */
    var menu: Menu
    /** Every name picked since the last clear (or as loaded), each once, in
        first-pick order. */
    var history: seq<string>
    /** The last names picked, oldest first, at most `Capacity` of them. */
    var recentHistory: seq<string>
    /** Meal type to the dishes planned for it today. */
    var todayPlan: Plan

    /** The store's invariant: the recency window never exceeds its capacity. */
    ghost predicate Valid()
      reads this
    {
      |recentHistory| <= Capacity
    }

    /** The store as it starts: the persisted catalogue when one was accepted
        on loading, else the seed; the persisted history and plan when
        present, else an empty history and an empty plan; an empty window. */
    constructor (loadedMenu: Option<Menu>, storedHistory: Option<seq<string>>, storedPlan: Option<Plan>)
      ensures Valid()
      ensures menu == if loadedMenu.Some? then loadedMenu.value else DefaultMenu()
      ensures history == if storedHistory.Some? then storedHistory.value else []
      ensures recentHistory == []
      ensures todayPlan == if storedPlan.Some? then storedPlan.value else EmptyPlan()
    {
      menu := if loadedMenu.Some? then loadedMenu.value else DefaultMenu();
      history := if storedHistory.Some? then storedHistory.value else [];
      recentHistory := [];
      todayPlan := if storedPlan.Some? then storedPlan.value else EmptyPlan();
    }

    /** Replaces the plan of one meal type wholesale, provided the argument is
        a list and the catalogue has that meal type; otherwise does nothing. */
    method AddFoodToPlan(mealType: string, items: PlanItems)
      requires Valid()
      modifies this
      ensures Valid()
      ensures menu == old(menu) && history == old(history) && recentHistory == old(recentHistory)
      ensures items.DishList? && mealType in menu ==> todayPlan == old(todayPlan)[mealType := items.dishes]
      ensures !(items.DishList? && mealType in menu) ==> todayPlan == old(todayPlan)
    {
      if items.DishList? && mealType in menu {
        todayPlan := todayPlan[mealType := items.dishes];
      }
    }

    /** Draws `count` dishes of one meal type (see `Draw.DrawDishes`), then
        pushes each picked name, in pick order, onto the recency window and
        appends it to the history unless already there. */
    method PickFood(mealType: string, count: int := 1) returns (picked: seq<Dish>)
      requires Valid()
      modifies this
      ensures Valid()
      ensures menu == old(menu) && todayPlan == old(todayPlan)
      ensures GroupOf(menu, mealType) == [] ==>
                picked == [] && history == old(history) && recentHistory == old(recentHistory)
      ensures |picked| == Draw.Target(count, |GroupOf(menu, mealType)|)
      ensures forall d :: d in picked ==> d in GroupOf(menu, mealType)
      ensures multiset(Names(picked)) <= multiset(Names(GroupOf(menu, mealType)))
      ensures UniqueNames(GroupOf(menu, mealType)) ==>
                UniqueNames(picked) && multiset(picked) <= multiset(GroupOf(menu, mealType))
      ensures |FreshEntries(picked, old(recentHistory))| ==
                Draw.Least(Draw.Target(count, |GroupOf(menu, mealType)|),
                           |FreshEntries(GroupOf(menu, mealType), old(recentHistory))|)
      ensures |FreshEntries(GroupOf(menu, mealType), old(recentHistory))|
                >= Draw.Target(count, |GroupOf(menu, mealType)|) ==>
                forall d :: d in picked ==> d.name !in old(recentHistory)
      ensures recentHistory == LastN(old(recentHistory) + Names(picked), Capacity)
      ensures history == AppendNew(old(history), Names(picked))
    {
      var group := GroupOf(menu, mealType);
      if |group| == 0 {
        assert old(recentHistory) + Names([]) == old(recentHistory);
        return [];
      }
      picked := Draw.DrawDishes(group, recentHistory, count);
      RecordPicked(Names(picked));
      PushAllIsLastN(old(recentHistory), Names(picked));
    }

    /** The bookkeeping at the end of a draw: each picked name, in pick order,
        is pushed onto the recency window (evicting the oldest entry beyond
        `Capacity`) and appended to the history unless already there. */
    method RecordPicked(names: seq<string>)
      requires Valid()
      modifies this
      ensures Valid()
      ensures recentHistory == PushAll(old(recentHistory), names)
      ensures history == AppendNew(old(history), names)
      ensures menu == old(menu) && todayPlan == old(todayPlan)
    {
      var i := 0;
      while i < |names|
        invariant 0 <= i <= |names|
        invariant recentHistory == PushAll(old(recentHistory), names[..i])
        invariant history == AppendNew(old(history), names[..i])
        invariant menu == old(menu) && todayPlan == old(todayPlan)
      {
        var name := names[i];
        assert names[..i + 1][..i] == names[..i] && names[..i + 1][i] == name;
        recentHistory := recentHistory + [name];
        if |recentHistory| > Capacity {
          recentHistory := recentHistory[1..];
        }
        if name !in history {
          history := history + [name];
        }
        i := i + 1;
      }
      assert names[..|names|] == names;
      PushAllIsLastN(old(recentHistory), names);
    }

    /** Empties the history and the recency window and resets the plan to
        three empty meals; the catalogue is untouched. */
    method ClearHistory()
      requires Valid()
      modifies this
      ensures Valid()
      ensures history == [] && recentHistory == [] && todayPlan == EmptyPlan()
      ensures menu == old(menu)
    {
      history := [];
      recentHistory := [];
      todayPlan := EmptyPlan();
    }

    /** Adds a dish to a meal type's group, creating the group if missing,
        unless a dish of that name is already there. */
    method AddFoodItem(mealType: string, name: string, materials: seq<string>,
                       nutrition: map<string, string>, tags: seq<string>)
      requires Valid()
      modifies this
      ensures Valid()
      ensures menu == MenuWithItem(old(menu), mealType, Dish(name, materials, nutrition, tags))
      ensures history == old(history) && recentHistory == old(recentHistory) && todayPlan == old(todayPlan)
    {
      if mealType !in menu {
        menu := menu[mealType := []];
      }
      if name in Names(menu[mealType]) {
        return;
      }
      menu := menu[mealType := menu[mealType] + [Dish(name, materials, nutrition, tags)]];
    }

    /** Drops every dish called `name` from a meal type's group, if the group
        exists. */
    method RemoveFoodItem(mealType: string, name: string)
      requires Valid()
      modifies this
      ensures Valid()
      ensures menu == MenuWithoutItem(old(menu), mealType, name)
      ensures history == old(history) && recentHistory == old(recentHistory) && todayPlan == old(todayPlan)
    {
      if mealType in menu {
        menu := menu[mealType := WithoutName(menu[mealType], name)];
      }
    }

    /** Restores the seed catalogue. */
    method ResetMenu()
      requires Valid()
      modifies this
      ensures Valid()
      ensures menu == DefaultMenu()
      ensures history == old(history) && recentHistory == old(recentHistory) && todayPlan == old(todayPlan)
    {
      menu := DefaultMenu();
    }
  }
}
