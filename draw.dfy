/** The sampling loop at the heart of `pickFood`: dishes are drawn without
    replacement from a working copy of one meal-type group, preferring dishes
    whose name is not in the recency window as long as those alone can
    complete the draw. The random index of each step is a nondeterministic
    choice; every postcondition holds whichever index is chosen. */
module Draw {
  import opened Dishes

  /** How many dishes a request for `count` from a group of `size` yields:
      the smaller of the two, and none for a count that is not positive. */
  function Target(count: int, size: nat): (n: nat)
    ensures n <= size && n <= if count < 0 then 0 else count
    ensures count > 0 ==> n == size || n == count
  {
    if count <= 0 then 0 else if count < size then count else size
  }

  /** The smaller of two counts. */
  function Least(a: nat, b: nat): (n: nat)
    ensures n <= a && n <= b && (n == a || n == b)
  {
    if a <= b then a else b
  }

  /** Draws `Target(count, |group|)` dishes from `group` without replacement.
      `recent` is the recency window as it stood when the draw began. Fresh
      dishes (names not in `recent`) are preferred: exactly as many are drawn
      as the draw size and the group's fresh supply both allow. */
  method DrawDishes(group: seq<Dish>, recent: seq<string>, count: int) returns (picked: seq<Dish>)
    ensures |picked| == Target(count, |group|)
    ensures forall d :: d in picked ==> d in group
    ensures multiset(Names(picked)) <= multiset(Names(group))
    ensures UniqueNames(group) ==> UniqueNames(picked) && multiset(picked) <= multiset(group)
    ensures |FreshEntries(picked, recent)| ==
              Least(Target(count, |group|), |FreshEntries(group, recent)|)
    ensures |FreshEntries(group, recent)| >= Target(count, |group|) ==>
              forall d :: d in picked ==> d.name !in recent
  {
    var target := Target(count, |group|);
    ghost var f0 := |FreshEntries(group, recent)|;
    picked := [];
    var master := group;
    while |picked| < target && |master| > 0
      invariant |picked| + |master| == |group|
      invariant |picked| <= target
      invariant forall d :: d in master ==> d in group
      invariant forall d :: d in picked ==> d in group
      invariant multiset(Names(picked)) + multiset(Names(master)) == multiset(Names(group))
      invariant UniqueNames(group) ==> multiset(picked) + multiset(master) == multiset(group)
      invariant |FreshEntries(picked, recent)| + |FreshEntries(master, recent)| == f0
      invariant |picked| - |FreshEntries(picked, recent)| <= if target >= f0 then target - f0 else 0
      decreases |master|
    {
      var available := FreshEntries(master, recent);
      var choice: Dish;
      var k: nat;
      ghost var fromFresh := |available| > 0 && |picked| + |available| >= target;
      if |available| > 0 && |picked| + |available| >= target {
        // Draw among the fresh dishes, then cut the first dish of that name.
        var r :| 0 <= r < |available|;
        choice := available[r];
        FilterByNameMembers(master, NotRecent(recent));
        ghost var j :| 0 <= j < |master| && master[j] == choice;
        k := FirstIndexOfName(master, choice.name);
      } else {
        // Too few fresh dishes to finish: draw among all that remain.
        var t :| 0 <= t < |master|;
        choice := master[t];
        k := t;
      }
      DrawStep(group, recent, target, f0, picked, master, fromFresh, k, choice);
      master := RemoveAt(master, k);
      picked := picked + [choice];
    }
    if UniqueNames(group) {
      SubMultisetNoDup(Names(picked), Names(group));
    }
    if f0 >= target {
      FilterByNameAllKept(picked, NotRecent(recent));
    }
  }

  /** One step of the draw keeps the loop's bookkeeping. In the fresh branch
      the dish cut from the remaining ones is the first of the chosen name,
      which is the chosen dish itself when names in the group are unique. */
  lemma DrawStep(group: seq<Dish>, recent: seq<string>, target: nat, f0: nat,
                 picked: seq<Dish>, master: seq<Dish>, fromFresh: bool, k: nat, choice: Dish)
    requires k < |master| && |picked| < target
    requires fromFresh == (|FreshEntries(master, recent)| > 0 &&
                           |picked| + |FreshEntries(master, recent)| >= target)
    requires fromFresh ==> choice in FreshEntries(master, recent) && master[k].name == choice.name
    requires !fromFresh ==> choice == master[k]
    requires forall d :: d in master ==> d in group
    requires multiset(Names(picked)) + multiset(Names(master)) == multiset(Names(group))
    requires UniqueNames(group) ==> multiset(picked) + multiset(master) == multiset(group)
    requires |FreshEntries(picked, recent)| + |FreshEntries(master, recent)| == f0
    requires |picked| - |FreshEntries(picked, recent)| <= if target >= f0 then target - f0 else 0
    ensures forall d :: d in RemoveAt(master, k) ==> d in group
    ensures choice in group
    ensures multiset(Names(picked + [choice])) + multiset(Names(RemoveAt(master, k))) == multiset(Names(group))
    ensures UniqueNames(group) ==>
              multiset(picked + [choice]) + multiset(RemoveAt(master, k)) == multiset(group)
    ensures |FreshEntries(picked + [choice], recent)| + |FreshEntries(RemoveAt(master, k), recent)| == f0
    ensures |picked + [choice]| - |FreshEntries(picked + [choice], recent)|
              <= if target >= f0 then target - f0 else 0
  {
    FilterByNameMembers(master, NotRecent(recent));
    assert choice in master && master[k].name == choice.name;
    RemainingStayInGroup(group, master, k);
    NamesMoveOne(group, picked, master, k, choice);
    if UniqueNames(group) {
      var j :| 0 <= j < |master| && master[j] == choice;
      SubMultisetNoDup(Names(master), Names(group));
      assert Names(master)[k] == Names(master)[j];
      DishesMoveOne(group, picked, master, k);
    }
    FreshCountStep(recent, target, f0, picked, master, fromFresh, k, choice);
  }

  /** The fresh-count bookkeeping of one step: the fresh dishes are shared
      between the picked and the remaining ones, and a non-fresh dish is drawn
      only while the remaining fresh ones cannot finish the draw, so at most
      `target - f0` non-fresh dishes are ever drawn. */
  lemma FreshCountStep(recent: seq<string>, target: nat, f0: nat,
                       picked: seq<Dish>, master: seq<Dish>, fromFresh: bool, k: nat, choice: Dish)
    requires k < |master| && |picked| < target && master[k].name == choice.name
    requires fromFresh == (|FreshEntries(master, recent)| > 0 &&
                           |picked| + |FreshEntries(master, recent)| >= target)
    requires fromFresh ==> choice.name !in recent
    requires |FreshEntries(picked, recent)| + |FreshEntries(master, recent)| == f0
    requires |picked| - |FreshEntries(picked, recent)| <= if target >= f0 then target - f0 else 0
    ensures |FreshEntries(picked + [choice], recent)| + |FreshEntries(RemoveAt(master, k), recent)| == f0
    ensures |picked + [choice]| - |FreshEntries(picked + [choice], recent)|
              <= if target >= f0 then target - f0 else 0
  {
    FilterAfterRemoveAt(master, k, NotRecent(recent));
    FilterByNameConcat(picked, [choice], NotRecent(recent));
    assert [choice][1..] == [];
  }

  lemma RemainingStayInGroup(group: seq<Dish>, master: seq<Dish>, k: nat)
    requires k < |master|
    requires forall d :: d in master ==> d in group
    ensures forall d :: d in RemoveAt(master, k) ==> d in group
  {
  }

  lemma NamesMoveOne(group: seq<Dish>, picked: seq<Dish>, master: seq<Dish>, k: nat, choice: Dish)
    requires k < |master| && master[k].name == choice.name
    requires multiset(Names(picked)) + multiset(Names(master)) == multiset(Names(group))
    ensures multiset(Names(picked + [choice])) + multiset(Names(RemoveAt(master, k))) == multiset(Names(group))
  {
    NamesRemoveAt(master, k);
    NamesConcat(picked, [choice]);
    assert multiset(Names(picked + [choice])) == multiset(Names(picked)) + multiset{choice.name};
  }

  lemma DishesMoveOne(group: seq<Dish>, picked: seq<Dish>, master: seq<Dish>, k: nat)
    requires k < |master|
    requires multiset(picked) + multiset(master) == multiset(group)
    ensures multiset(picked + [master[k]]) + multiset(RemoveAt(master, k)) == multiset(group)
  {
  }

  /** A second draw of two from a group `[a, b, c]` after `a` and `b` were
      drawn: `c` is the group's only fresh dish, so every outcome the contract
      of `DrawDishes` allows contains `c`. */
  lemma SecondDrawTakesFreshDish(a: Dish, b: Dish, c: Dish, picked: seq<Dish>)
    requires c.name != a.name && c.name != b.name
    requires forall d :: d in picked ==> d in [a, b, c]
    requires |FreshEntries(picked, [a.name, b.name])| ==
               Least(Target(2, 3), |FreshEntries([a, b, c], [a.name, b.name])|)
    ensures |FreshEntries([a, b, c], [a.name, b.name])| == 1
    ensures c in picked
  {
    var recent := [a.name, b.name];
    FilterByNameConcat([a, b], [c], NotRecent(recent));
    FilterByNameConcat([a], [b], NotRecent(recent));
    assert [a] + [b] == [a, b] && [a, b] + [c] == [a, b, c];
    assert [a][1..] == [] && [b][1..] == [] && [c][1..] == [];
    FilterByNameMembers(picked, NotRecent(recent));
    var d := FreshEntries(picked, recent)[0];
    assert d in picked && d.name !in recent;
  }

  /** Under a repeated name the fresh branch cuts the first dish of the chosen
      name, which need not be the chosen dish: here the chosen second dish
      stays among the remaining ones and can be drawn again. */
  lemma RepeatedNameKeepsChosenDish(first: Dish, second: Dish)
    requires first.name == second.name && first != second
    ensures var s := [first, second];
            s[0].name == second.name && RemoveAt(s, FirstIndexOfName(s, second.name)) == [second]
  {
  }
}
