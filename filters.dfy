/** The filter form: the fixed table of event categories, the selected-category
    toggle, and the filter record the form hands to the page. */
module Filters {
  import opened Sequences

  /** One selectable category: the key sent to the server and the button's
      label (`label` itself is a reserved word, hence `caption`). */
  datatype EventType = EventType(key: string, caption: string)

  /** The eight categories offered as toggle buttons, in display order. */
  const EventTypes: seq<EventType> := [
    EventType("worship", "Worship"),
    EventType("conference", "Conference"),
    EventType("retreat", "Retreat"),
    EventType("concert", "Concert"),
    EventType("service", "Service"),
    EventType("youth", "Youth"),
    EventType("prayer", "Prayer"),
    EventType("other", "Other")
  ]

  /** The keys of the category table, in table order. */
  function Keys(types: seq<EventType>): (keys: seq<string>)
    ensures |keys| == |types|
    ensures forall i :: 0 <= i < |types| ==> keys[i] == types[i].key
  {
    if types == [] then [] else [types[0].key] + Keys(types[1..])
  }

  /** The keys a category button can pass to the toggle. */
  const EventTypeKeys: seq<string> := Keys(EventTypes)

  /** The button list is keyed by category key, so the keys must be distinct. */
  lemma EventTypeKeysDistinct()
    ensures |EventTypeKeys| == 8
    ensures NoDuplicates(EventTypeKeys)
  {
    forall i, j | 0 <= i < j < |EventTypes| ensures EventTypes[i].key != EventTypes[j].key {
      assert EventTypes[i].key[0] != EventTypes[j].key[0] || |EventTypes[i].key| != |EventTypes[j].key|;
    }
  }

  /** What the form reports upward on every change: start and end date as
      typed ("" when unset), the selected category keys, and the search text. */
  datatype FilterRecord = FilterRecord(start: string, end: string, types: seq<string>, q: string)

  /** The form starts with nothing selected. */
  const InitialTypes: seq<string> := []

  /** The list with every copy of `key` dropped, the rest in their original order. */
  function RemoveAll(s: seq<string>, key: string): (r: seq<string>)
    ensures key !in r
    ensures forall x :: x != key ==> (x in r <==> x in s)
    ensures IsSubsequence(r, s)
    ensures multiset(r) == multiset(s)[key := 0]
    decreases |s|
  {
    if s == [] then []
    else
      var rest := RemoveAll(s[1..], key);
      assert s == [s[0]] + s[1..];
      if s[0] == key then
        SkipHeadKeepsSubsequence(rest, s);
        rest
      else
        [s[0]] + rest
  }

  /** The selected-category toggle: a selected key is removed (every copy),
      an unselected one is appended at the end. */
  function Toggle(prev: seq<string>, key: string): (next: seq<string>)
    ensures key in next <==> key !in prev
    ensures forall x :: x != key ==> (x in next <==> x in prev)
    ensures key !in prev ==> |next| == |prev| + 1 && next[..|prev|] == prev && next[|prev|] == key
    ensures key in prev ==> IsSubsequence(next, prev) && multiset(next) == multiset(prev)[key := 0]
  {
    if key in prev then RemoveAll(prev, key) else prev + [key]
  }

  /** Removal is pinned down by what it promises: the only subsequence of `s`
      holding every other key exactly as often as `s` and no `key` is
      `RemoveAll(s, key)`. */
  lemma {:induction false} RemoveAllUnique(s: seq<string>, key: string, r: seq<string>)
    requires IsSubsequence(r, s)
    requires multiset(r) == multiset(s)[key := 0]
    ensures r == RemoveAll(s, key)
    decreases |s|
  {
    if s == [] {
    } else {
      assert s == [s[0]] + s[1..];
      if s[0] == key {
        if r != [] && r[0] == s[0] {
          assert false;
        }
        RemoveAllUnique(s[1..], key, r);
      } else {
        assert multiset(r)[s[0]] == multiset(s)[s[0]];
        assert r != [] by {
          assert s[0] in multiset(s);
        }
        if r[0] != s[0] {
          SubsequenceMultiset(r, s[1..]);
          assert false;
        }
        assert r == [r[0]] + r[1..];
        assert multiset(r) == multiset{s[0]} + multiset(r[1..]);
        assert multiset(s) == multiset{s[0]} + multiset(s[1..]);
        forall y ensures multiset(r[1..])[y] == multiset(s[1..])[key := 0][y] {
          assert multiset(r)[y] == multiset(s)[key := 0][y];
        }
        assert multiset(r[1..]) == multiset(s[1..])[key := 0];
        RemoveAllUnique(s[1..], key, r[1..]);
      }
    }
  }

  /** Removing a key that is not there changes nothing. */
  lemma {:induction false} RemoveAllAbsent(s: seq<string>, key: string)
    requires key !in s
    ensures RemoveAll(s, key) == s
    decreases |s|
  {
    if s != [] {
      RemoveAllAbsent(s[1..], key);
      assert s == [s[0]] + s[1..];
    }
  }

  /** Removal distributes over concatenation. */
  lemma {:induction false} RemoveAllAppend(s: seq<string>, t: seq<string>, key: string)
    ensures RemoveAll(s + t, key) == RemoveAll(s, key) + RemoveAll(t, key)
    decreases |s|
  {
    if s != [] {
      assert (s + t)[0] == s[0] && (s + t)[1..] == s[1..] + t;
      RemoveAllAppend(s[1..], t, key);
      if s[0] == key {
        assert RemoveAll(s + t, key) == RemoveAll(s[1..] + t, key);
        assert RemoveAll(s, key) == RemoveAll(s[1..], key);
      } else {
        assert RemoveAll(s + t, key) == [s[0]] + RemoveAll(s[1..] + t, key);
        assert RemoveAll(s, key) == [s[0]] + RemoveAll(s[1..], key);
      }
    } else {
      assert s + t == t;
    }
  }

  /** A duplicate-free selection stays duplicate-free after a toggle. */
  lemma ToggleKeepsNoDuplicates(prev: seq<string>, key: string)
    requires NoDuplicates(prev)
    ensures NoDuplicates(Toggle(prev, key))
  {
    var next := Toggle(prev, key);
    if key in prev {
      SubsequenceMultiset(next, prev);
      forall i, j | 0 <= i < j < |next| ensures next[i] != next[j] {
        if next[i] == next[j] {
          var x := next[i];
          assert next == next[..j] + [x] + next[j + 1..];
          assert next[..j] == next[..i] + [x] + next[i + 1..j];
          assert multiset(next)[x] >= 2;
          NoDuplicatesCountOne(prev, x);
          assert false;
        }
      }
    }
  }

  /** Toggling an unselected key twice gives back exactly the original list. */
  lemma ToggleTwiceAbsent(prev: seq<string>, key: string)
    requires key !in prev
    ensures Toggle(Toggle(prev, key), key) == prev
  {
    RemoveAllAppend(prev, [key], key);
    RemoveAllAbsent(prev, key);
    assert RemoveAll([key], key) == [];
  }

  /** Toggling a selected key twice restores the same membership, but the key
      has moved to the end of the list. */
  lemma ToggleTwicePresent(prev: seq<string>, key: string)
    requires key in prev
    ensures Toggle(Toggle(prev, key), key) == RemoveAll(prev, key) + [key]
    ensures forall x :: x in Toggle(Toggle(prev, key), key) <==> x in prev
    ensures NoDuplicates(prev) ==>
              multiset(Toggle(Toggle(prev, key), key)) == multiset(prev)
  {
    var twice := Toggle(Toggle(prev, key), key);
    if NoDuplicates(prev) {
      NoDuplicatesCountOne(prev, key);
      assert multiset(prev)[key] == 1;
      assert multiset(twice) == multiset(prev)[key := 0] + multiset{key};
    }
  }

  /** The selection after the user clicked the category buttons `clicks`, in
      order, starting from the initial empty selection. */
  function ApplyClicks(clicks: seq<string>): (sel: seq<string>)
    ensures forall x :: x in sel ==> x in clicks
  {
    if clicks == [] then InitialTypes
    else Toggle(ApplyClicks(clicks[..|clicks| - 1]), clicks[|clicks| - 1])
  }

  /** Clicking only the category buttons keeps the selection a duplicate-free
      subset of the category keys, hence never longer than the table. */
  lemma {:induction false} ClicksStayWithinEventTypes(clicks: seq<string>)
    requires forall c :: c in clicks ==> c in EventTypeKeys
    ensures NoDuplicates(ApplyClicks(clicks))
    ensures forall x :: x in ApplyClicks(clicks) ==> x in EventTypeKeys
    ensures |ApplyClicks(clicks)| <= |EventTypes|
    decreases |clicks|
  {
    var sel := ApplyClicks(clicks);
    if clicks != [] {
      var before := clicks[..|clicks| - 1];
      assert forall c :: c in before ==> c in clicks;
      ClicksStayWithinEventTypes(before);
      ToggleKeepsNoDuplicates(ApplyClicks(before), clicks[|clicks| - 1]);
    }
    SubsetLengthBound(sel, EventTypeKeys);
  }
}
