/** The multi-channel panel's tab list (`TetraMultiPanel.cs`) and the plugin-wide instance
    counter that numbers new channels (`TetraPlugin.cs`). A tab is known by its channel id;
    its title is "Kanaal <id>". The channels file is the `file` field: every change of the
    tab list writes it again. */
module ChannelPanel {
  import opened Text
  import opened ChannelIds

  /** The static `_instanceCounter` with its two operations. */
  class InstanceCounter {
    var value: int

    predicate Valid()
      reads this
    {
      IsInt32(value)
    }

    constructor()
      ensures Valid() && value == 0
    {
      value := 0;
    }

    /** `NextInstanceNumber`: the 32-bit increment, which wraps from the largest value to
        the smallest. */
    method Next() returns (id: int)
      requires Valid()
      modifies this
      ensures Valid()
      ensures value == (if old(value) == Int32Max then Int32Min else old(value) + 1)
      ensures id == value
    {
      value := if value == Int32Max then Int32Min else value + 1;
      id := value;
    }

    /** `EnsureInstanceCounterAtLeast`: raises the counter to `v` unless it is already at
        least `v`. */
    method EnsureAtLeast(v: int)
      requires Valid() && IsInt32(v)
      modifies this
      ensures Valid()
      ensures value == (if old(value) >= v then old(value) else v)
    {
      if value >= v {
        return;
      }
      value := v;
    }
  }

  /** The largest id of a non-empty list (`ids.Max()`). */
  function Max(s: seq<int>): (m: int)
    requires s != []
    ensures m in s && forall x :: x in s ==> x <= m
  {
    if |s| == 1 then s[0]
    else
      var r := Max(s[1..]);
      assert forall x :: x in s[1..] ==> x in s;
      assert forall x :: x in s ==> x == s[0] || x in s[1..];
      if s[0] >= r then s[0] else r
  }

  /** Every id is at most `bound`: the counter has not handed them out yet. */
  predicate AtMost(s: seq<int>, bound: int)
  {
    forall x :: x in s ==> x <= bound
  }

  /** The list without its `i`-th element keeps 32-bit ids and every bound of the list. */
  lemma RemovedKeeps(s: seq<int>, i: nat, bound: int)
    requires i < |s|
    ensures AllInt32(s) ==> AllInt32(s[..i] + s[i + 1..])
    ensures AtMost(s, bound) ==> AtMost(s[..i] + s[i + 1..], bound)
  {
    var r := s[..i] + s[i + 1..];
    forall k | 0 <= k < |r|
      ensures r[k] == s[if k < i then k else k + 1]
    {
    }
    forall x | x in r
      ensures x in s
    {
      var k :| 0 <= k < |r| && r[k] == x;
      assert s[if k < i then k else k + 1] == x;
    }
  }

  /** Appending a 32-bit id keeps the list 32-bit; an id above the bound is new, and the
      longer list stays within a bound that covers it. */
  lemma AppendedKeeps(s: seq<int>, x: int, lower: int, bound: int)
    ensures AllInt32(s) && IsInt32(x) ==> AllInt32(s + [x])
    ensures AtMost(s, lower) && lower < x ==> x !in s
    ensures AtMost(s, lower) && lower <= bound && x <= bound ==> AtMost(s + [x], bound)
  {
    var r := s + [x];
    assert forall k :: 0 <= k < |s| ==> r[k] == s[k];
    assert forall y :: y in r ==> y in s || y == x;
  }

  /** Loaded ids are 32-bit, and so is their maximum. */
  lemma LoadedInt32(stored: Option<string>)
    ensures AllInt32(Loaded(stored))
    ensures Loaded(stored) != [] ==> IsInt32(Max(Loaded(stored)))
  {
    LoadedShape(stored);
    var ids := Loaded(stored);
    forall k | 0 <= k < |ids|
      ensures IsInt32(ids[k])
    {
      assert ids[k] in ids;
    }
  }

  /** The file a tab list is saved to reads back as its distinct positive ids, ascending. */
  lemma TabsFileLoads(tabs: seq<int>)
    requires AllInt32(tabs)
    ensures Loaded(Some(SavedText(Titles(tabs)))) == SortDistinct(Positives(tabs))
  {
    SaveLoadRoundTrip(Titles(tabs));
    TitleIdsOfTitles(tabs);
  }

  /** A panel started from the file of a panel whose tabs carry distinct positive ids in
      ascending order gets those very tabs back. */
  lemma RestartKeepsTabs(tabs: seq<int>)
    requires PositiveIds(tabs) && StrictlyIncreasing(tabs)
    ensures Loaded(Some(SavedText(Titles(tabs)))) == tabs
  {
    TabsFileLoads(tabs);
    PositivesOfPositive(tabs);
    SortDistinctSorted(tabs);
  }

  class MultiPanel {
    var tabs: seq<int>
    var file: Option<string>
    const counter: InstanceCounter

    /** At least one tab, 32-bit ids, and the file holds what the tabs save to. */
    predicate Valid()
      reads this, counter
    {
      counter.Valid() && |tabs| >= 1 && AllInt32(tabs) && file == Some(SavedText(Titles(tabs)))
    }

    /** The constructor: the loaded ids become the tabs, and the counter is raised to the
        largest of them; with nothing loaded, one new channel is added. */
    constructor(stored: Option<string>, counter: InstanceCounter)
      requires counter.Valid()
      modifies counter
      ensures Valid() && this.counter == counter
      ensures Loaded(stored) != [] ==>
                tabs == Loaded(stored) && counter.value == (if old(counter.value) >= Max(tabs) then old(counter.value) else Max(tabs))
      ensures Loaded(stored) == [] ==>
                counter.value == (if old(counter.value) == Int32Max then Int32Min else old(counter.value) + 1)
                && tabs == [counter.value]
      ensures AtMost(tabs, counter.value)
    {
      var ids := LoadChannelIds(stored);
      LoadedInt32(stored);
      var t: seq<int>;
      if |ids| > 0 {
        counter.EnsureAtLeast(Max(ids));
        t := ids;
      } else {
        var id := counter.Next();
        t := [id];
      }
      var text := SaveChannelIds(Titles(t));
      tabs := t;
      file := Some(text);
      this.counter := counter;
    }

    /** `AddChannel()`: a tab for the counter's next number, then the file is saved. Below
        the largest 32-bit value, the new id is one no tab has. */
    method AddChannel() returns (id: int)
      requires Valid()
      modifies this, counter
      ensures Valid()
      ensures counter.value == (if old(counter.value) == Int32Max then Int32Min else old(counter.value) + 1)
      ensures id == counter.value && tabs == old(tabs) + [id]
      ensures old(counter.value) < Int32Max && AtMost(old(tabs), old(counter.value))
              ==> id !in old(tabs) && AtMost(tabs, counter.value)
    {
      ghost var before := counter.value;
      id := counter.Next();
      AppendedKeeps(tabs, id, before, counter.value);
      tabs := tabs + [id];
      var text := SaveChannelIds(Titles(tabs));
      file := Some(text);
    }

    /** `RemoveCurrentChannel`: refused while one tab or none is left, and a no-op without a
        selected tab; otherwise the selected tab goes and the file is saved. */
    method RemoveCurrentChannel(selected: Option<nat>)
      requires Valid() && (selected.Some? ==> selected.value < |tabs|)
      modifies this
      ensures Valid()
      ensures |old(tabs)| <= 1 || selected.None? ==> tabs == old(tabs) && file == old(file)
      ensures |old(tabs)| > 1 && selected.Some? ==>
                tabs == old(tabs)[..selected.value] + old(tabs)[selected.value + 1..]
      ensures AtMost(old(tabs), counter.value) ==> AtMost(tabs, counter.value)
    {
      if |tabs| <= 1 {
        return;
      }
      if selected.None? {
        return;
      }
      var i := selected.value;
      RemovedKeeps(tabs, i, counter.value);
      tabs := tabs[..i] + tabs[i + 1..];
      var text := SaveChannelIds(Titles(tabs));
      file := Some(text);
    }
  }
}
