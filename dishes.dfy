/** Dishes of the catalogue, and the sequence operations the store's actions
    perform on groups of dishes: filtering by name, removing one position
    (a one-element splice) and finding the first position with a name. */
module Dishes {

  /** One catalogue entry. Its name identifies it within its meal-type group. */
  datatype Dish = Dish(
    name: string,
    materials: seq<string>,
    nutrition: map<string, string>,
    tags: seq<string>)

  /** The names of the dishes of `s`, in order. */
  function Names(s: seq<Dish>): seq<string>
  {
    seq(|s|, i requires 0 <= i < |s| => s[i].name)
  }

  /** No value occurs twice in `s`. */
  predicate NoDup<T(==)>(s: seq<T>)
  {
    forall i, j :: 0 <= i < j < |s| ==> s[i] != s[j]
  }

  /** No two dishes of the group share a name. */
  predicate UniqueNames(s: seq<Dish>)
  {
    NoDup(Names(s))
  }

  /** The group stored under a meal type, or the empty group when the key is missing. */
  function GroupOf(m: map<string, seq<Dish>>, mealType: string): (g: seq<Dish>)
    ensures mealType in m ==> g == m[mealType]
    ensures g != [] ==> mealType in m
  {
    if mealType in m then m[mealType] else []
  }

  /** The dishes of `s` whose name `keep` accepts, in their order in `s`. */
  function FilterByName(s: seq<Dish>, keep: string -> bool): (r: seq<Dish>)
    ensures |r| <= |s|
  {
    if s == [] then []
    else (if keep(s[0].name) then [s[0]] else []) + FilterByName(s[1..], keep)
  }

  /** A dish survives the filter exactly when it is in the group and its name
      passes the test. */
  lemma {:induction false} FilterByNameMembers(s: seq<Dish>, keep: string -> bool)
    ensures forall d :: d in FilterByName(s, keep) <==> d in s && keep(d.name)
  {
    if s != [] {
      FilterByNameMembers(s[1..], keep);
      assert s == [s[0]] + s[1..];
    }
  }

  /** Accepts a name that is not in the recency window `recent`. */
  function NotRecent(recent: seq<string>): string -> bool
  {
    n => n !in recent
  }

  /** Accepts a name other than `name`. */
  function NotNamed(name: string): string -> bool
  {
    n => n != name
  }

  /** The dishes of `s` whose name is not in `recent`, in order. With an
      empty window every dish is fresh. */
  function FreshEntries(s: seq<Dish>, recent: seq<string>): (r: seq<Dish>)
    ensures |r| <= |s|
    ensures recent == [] ==> r == s
  {
    var r := FilterByName(s, NotRecent(recent));
    if recent == [] then FilterByNameKeepsAll(s, NotRecent(recent)); r else r
  }

  /** The dishes of `s` not called `name`, in order. */
  function WithoutName(s: seq<Dish>, name: string): seq<Dish>
  {
    FilterByName(s, NotNamed(name))
  }

  /** `s` with position `k` cut out (a one-element splice). */
  function RemoveAt<T>(s: seq<T>, k: nat): (r: seq<T>)
    requires k < |s|
    ensures |r| == |s| - 1
    ensures multiset(r) + multiset{s[k]} == multiset(s)
  {
    assert s == s[..k] + [s[k]] + s[k + 1..];
    s[..k] + s[k + 1..]
  }

  /** The first position of `s` holding a dish called `name`. */
  function FirstIndexOfName(s: seq<Dish>, name: string): (k: nat)
    requires exists i :: 0 <= i < |s| && s[i].name == name
    ensures k < |s| && s[k].name == name
    ensures forall j :: 0 <= j < k ==> s[j].name != name
  {
    if s[0].name == name then 0
    else
      assert exists i :: 0 <= i < |s[1..]| && s[1..][i].name == name by {
        var i :| 0 <= i < |s| && s[i].name == name;
        assert s[1..][i - 1] == s[i];
      }
      1 + FirstIndexOfName(s[1..], name)
  }

  lemma NamesConcat(a: seq<Dish>, b: seq<Dish>)
    ensures Names(a + b) == Names(a) + Names(b)
  {
  }

  /** Cutting out one position removes exactly that dish's name from the names. */
  lemma NamesRemoveAt(s: seq<Dish>, k: nat)
    requires k < |s|
    ensures multiset(Names(RemoveAt(s, k))) + multiset{s[k].name} == multiset(Names(s))
  {
    var ns := Names(s);
    assert Names(RemoveAt(s, k)) == ns[..k] + ns[k + 1..];
    assert ns == ns[..k] + [ns[k]] + ns[k + 1..];
  }

  /** Filtering distributes over concatenation: the dishes that survive keep
      their relative order. */
  lemma {:induction false} FilterByNameConcat(a: seq<Dish>, b: seq<Dish>, keep: string -> bool)
    ensures FilterByName(a + b, keep) == FilterByName(a, keep) + FilterByName(b, keep)
  {
    if a != [] {
      var head := if keep(a[0].name) then [a[0]] else [];
      assert (a + b)[0] == a[0] && (a + b)[1..] == a[1..] + b;
      FilterByNameConcat(a[1..], b, keep);
      calc {
        FilterByName(a + b, keep);
        head + FilterByName(a[1..] + b, keep);
        head + (FilterByName(a[1..], keep) + FilterByName(b, keep));
        (head + FilterByName(a[1..], keep)) + FilterByName(b, keep);
      }
    } else {
      assert a + b == b;
    }
  }

  /** Filtering twice with the same test is filtering once. */
  lemma {:induction false} FilterByNameIdempotent(s: seq<Dish>, keep: string -> bool)
    ensures FilterByName(FilterByName(s, keep), keep) == FilterByName(s, keep)
  {
    if s != [] {
      var head := if keep(s[0].name) then [s[0]] else [];
      FilterByNameIdempotent(s[1..], keep);
      FilterByNameConcat(head, FilterByName(s[1..], keep), keep);
      if keep(s[0].name) {
        assert FilterByName(head, keep) == head by {
          assert head[1..] == [];
        }
      }
    }
  }

  /** A group in which every name passes the test is left as it is. */
  lemma {:induction false} FilterByNameKeepsAll(s: seq<Dish>, keep: string -> bool)
    requires forall d :: d in s ==> keep(d.name)
    ensures FilterByName(s, keep) == s
  {
    if s != [] {
      FilterByNameKeepsAll(s[1..], keep);
      assert s == [s[0]] + s[1..];
    }
  }

  /** A filter that keeps as many dishes as the group has kept every one of
      them. */
  lemma {:induction false} FilterByNameAllKept(s: seq<Dish>, keep: string -> bool)
    requires |FilterByName(s, keep)| == |s|
    ensures forall d :: d in s ==> keep(d.name)
  {
    if s != [] {
      FilterByNameAllKept(s[1..], keep);
      assert s == [s[0]] + s[1..];
    }
  }

  /** Filtering never duplicates a name: each name occurs in the result at
      most as often as in the group. */
  lemma {:induction false} FilterByNameNames(s: seq<Dish>, keep: string -> bool)
    ensures multiset(Names(FilterByName(s, keep))) <= multiset(Names(s))
  {
    if s != [] {
      var head := if keep(s[0].name) then [s[0]] else [];
      FilterByNameNames(s[1..], keep);
      NamesConcat(head, FilterByName(s[1..], keep));
      NamesConcat([s[0]], s[1..]);
      assert s == [s[0]] + s[1..];
    }
  }

  /** Cutting out position `k` lowers the number of dishes passing the test by
      one exactly when the dish at `k` passes it. */
  lemma FilterAfterRemoveAt(s: seq<Dish>, k: nat, keep: string -> bool)
    requires k < |s|
    ensures |FilterByName(RemoveAt(s, k), keep)| + (if keep(s[k].name) then 1 else 0)
            == |FilterByName(s, keep)|
  {
    assert s == s[..k] + ([s[k]] + s[k + 1..]);
    FilterByNameConcat(s[..k], s[k + 1..], keep);
    FilterByNameConcat(s[..k], [s[k]] + s[k + 1..], keep);
    FilterByNameConcat([s[k]], s[k + 1..], keep);
    assert [s[k]][1..] == [];
  }

  /** A sequence has no duplicates exactly when every value occurs at most once
      in its multiset. */
  lemma {:induction false} NoDupIffCountsAtMostOne<T>(s: seq<T>)
    ensures NoDup(s) <==> forall x :: multiset(s)[x] <= 1
  {
    if s != [] {
      var a, t := s[0], s[1..];
      assert s == [a] + t;
      NoDupIffCountsAtMostOne(t);
      assert forall x :: multiset(s)[x] == multiset(t)[x] + (if x == a then 1 else 0);
      if NoDup(s) {
        forall i, j | 0 <= i < j < |t|
          ensures t[i] != t[j]
        {
          assert s[i + 1] != s[j + 1];
        }
      }
      if forall x :: multiset(s)[x] <= 1 {
        assert forall x :: multiset(t)[x] <= 1;
        assert a !in multiset(t);
        forall i, j | 0 <= i < j < |s|
          ensures s[i] != s[j]
        {
          assert s[j] == t[j - 1];
          if i > 0 {
            assert s[i] == t[i - 1];
          } else {
            assert t[j - 1] in multiset(t);
          }
        }
      }
    }
  }

  /** A sequence whose multiset lies inside that of a duplicate-free sequence
      is duplicate-free. */
  lemma SubMultisetNoDup<T>(a: seq<T>, b: seq<T>)
    requires multiset(a) <= multiset(b) && NoDup(b)
    ensures NoDup(a)
  {
    NoDupIffCountsAtMostOne(b);
    NoDupIffCountsAtMostOne(a);
    assert forall x :: multiset(a)[x] <= multiset(b)[x];
  }
}
