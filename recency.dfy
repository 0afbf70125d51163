/** The two name lists `pickFood` maintains after a draw: the recency window,
    a FIFO of the last `Capacity` picked names shared by all meal types, and
    the selection history, every name ever picked, each once, in first-pick
    order. */
module Recency {
  import opened Dishes

  /** How many recent names the window keeps. */
  const Capacity: nat := 5

  /** Pushes `name` onto the window, evicting the oldest entry once the window
      would grow past `Capacity`. */
  function PushCapped(window: seq<string>, name: string): (r: seq<string>)
    ensures 0 < |r| && r[|r| - 1] == name
    ensures |window| <= Capacity ==> |r| == if |window| < Capacity then |window| + 1 else Capacity
  {
    var grown := window + [name];
    if |grown| > Capacity then grown[1..] else grown
  }

  /** Pushes `names` onto the window one at a time, in order. */
  function PushAll(window: seq<string>, names: seq<string>): (r: seq<string>)
    decreases |names|
    ensures |window| <= Capacity ==> |r| <= Capacity
    ensures names != [] ==> |r| > 0 && r[|r| - 1] == names[|names| - 1]
    ensures names == [] ==> r == window
  {
    if names == [] then window
    else PushCapped(PushAll(window, names[..|names| - 1]), names[|names| - 1])
  }

  /** The last `n` elements of `s` (all of `s` when it is shorter). */
  function LastN(s: seq<string>, n: nat): (r: seq<string>)
  {
    if |s| <= n then s else s[|s| - n..]
  }

  /** A window that starts within capacity ends as the last `Capacity` names
      of the old window followed by the pushed names: oldest evicted first,
      and never longer than `Capacity`. */
  lemma {:induction false} PushAllIsLastN(window: seq<string>, names: seq<string>)
    requires |window| <= Capacity
    ensures PushAll(window, names) == LastN(window + names, Capacity)
    ensures |PushAll(window, names)| == if |window| + |names| <= Capacity then |window| + |names| else Capacity
    decreases |names|
  {
    if names == [] {
      assert window + names == window;
    } else {
      var init, last := names[..|names| - 1], names[|names| - 1];
      PushAllIsLastN(window, init);
      var u := window + init;
      assert window + names == u + [last];
      if |u| >= Capacity {
        assert LastN(u, Capacity) + [last] == u[|u| - Capacity..] + [last];
        assert (u[|u| - Capacity..] + [last])[1..] == (u + [last])[|u| + 1 - Capacity..];
      }
    }
  }

  /** The history after recording `names` in order: each name not yet present
      is appended, in the order it is first met. */
  function AppendNew(history: seq<string>, names: seq<string>): (r: seq<string>)
    decreases |names|
    ensures history <= r
    ensures forall x :: x in r <==> x in history || x in names
    ensures NoDup(history) ==> NoDup(r)
  {
    if names == [] then history
    else
      var prev := AppendNew(history, names[..|names| - 1]);
      var last := names[|names| - 1];
      assert names == names[..|names| - 1] + [last];
      if last in prev then prev else prev + [last]
  }

  /** Recording one name appends it exactly when it is new. */
  lemma AppendNewOne(history: seq<string>, x: string)
    ensures AppendNew(history, [x]) == if x in history then history else history + [x]
  {
    assert [x][..0] == [];
  }

  /** Recording a non-empty list of names is recording all but the last
      one, then the last one. */
  lemma AppendNewLast(history: seq<string>, names: seq<string>)
    requires names != []
    ensures AppendNew(history, names) ==
              AppendNew(AppendNew(history, names[..|names| - 1]), [names[|names| - 1]])
  {
    AppendNewOne(AppendNew(history, names[..|names| - 1]), names[|names| - 1]);
  }

  /** Recording `a` and then `b` is recording `a + b`: names are taken in
      pick order, so with `AppendNewOne` the history gains the new names
      one by one in the order they were picked. */
  lemma {:induction false} AppendNewConcat(history: seq<string>, a: seq<string>, b: seq<string>)
    ensures AppendNew(history, a + b) == AppendNew(AppendNew(history, a), b)
    decreases |b|
  {
    if b == [] {
      assert a + b == a;
    } else {
      var init, last := b[..|b| - 1], b[|b| - 1];
      AppendNewConcat(history, a, init);
      var ab := a + b;
      assert ab[..|ab| - 1] == a + init && ab[|ab| - 1] == last;
      AppendNewLast(history, ab);
      AppendNewLast(AppendNew(history, a), b);
    }
  }
}
