/** The check cycle (`check`): extract the candidate links of a fetched page,
    keep those absent from the in-memory list, announce them oldest first
    while appending each to the in-memory list, then overwrite the persisted
    list with the full candidate list. */
module Checking {

  import opened Wrappers
  import opened Extraction

  /** `list.indexOf(item)`: the first position of `item`, or -1 when absent. */
  function IndexOf(list: seq<string>, item: string): (r: int)
    ensures r < 0 <==> item !in list
    ensures r < 0 ==> r == -1
    ensures 0 <= r ==> r < |list| && list[r] == item && item !in list[..r]
  {
    if list == [] then -1
    else if list[0] == item then 0
    else
      var k := IndexOf(list[1..], item);
      if k < 0 then -1 else k + 1
  }

  /** `candidates.filter(item => oldList.indexOf(item) < 0)`. */
  function NewAnimes(candidates: seq<string>, oldList: seq<string>): (newOnes: seq<string>)
    ensures |newOnes| <= |candidates|
    ensures forall x :: x in newOnes ==> x in candidates && x !in oldList
  {
    if candidates == [] then []
    else
      (if IndexOf(oldList, candidates[0]) < 0 then [candidates[0]] else [])
      + NewAnimes(candidates[1..], oldList)
  }

  /** `array.reverse()` on a list of links. */
  function Reversed(s: seq<string>): (r: seq<string>)
    ensures |r| == |s|
  {
    if s == [] then [] else Reversed(s[1..]) + [s[0]]
  }

  /** What one cycle leaves behind: the in-memory list, the persisted list,
      and the links handed to the callback during the cycle, in call order. */
  datatype Outcome = Outcome(oldList: seq<string>, persisted: seq<string>, notified: seq<string>)

  /** One cycle, as a function of the state before it and of the fetch
      result (no document when the fetch failed). */
  function Cycle(oldList: seq<string>, persisted: seq<string>, page: Option<seq<Anchor>>): Outcome
  {
    match page
    case None => Outcome(oldList, persisted, [])
    case Some(anchors) =>
      var candidates := Extracted(anchors);
      var arrivals := Reversed(NewAnimes(candidates, oldList));
      Outcome(oldList + arrivals, candidates, arrivals)
  }

  /** Position `k` of the reversed list holds position `|s| - 1 - k` of `s`. */
  lemma {:induction false} ReversedAt(s: seq<string>, k: nat)
    requires k < |s|
    ensures Reversed(s)[k] == s[|s| - 1 - k]
  {
    if k < |s| - 1 {
      ReversedAt(s[1..], k);
    }
  }

  /** Reversal keeps every link with its multiplicity. */
  lemma {:induction false} ReversedMultiset(s: seq<string>)
    ensures multiset(Reversed(s)) == multiset(s)
  {
    if s != [] {
      ReversedMultiset(s[1..]);
      assert s == [s[0]] + s[1..];
    }
  }

  /** A candidate is new exactly when it is absent from the old list, and it
      is kept as many times as it occurs among the candidates: a duplicated
      new candidate stays duplicated. */
  lemma {:induction false} NewAnimesCount(candidates: seq<string>, oldList: seq<string>, x: string)
    ensures multiset(NewAnimes(candidates, oldList))[x] == if x in oldList then 0 else multiset(candidates)[x]
    ensures x in NewAnimes(candidates, oldList) <==> x in candidates && x !in oldList
  {
    if candidates != [] {
      NewAnimesCount(candidates[1..], oldList, x);
      assert candidates == [candidates[0]] + candidates[1..];
    }
  }

  /** The filter keeps candidate order: filtering a list split in two is
      filtering each part. */
  lemma {:induction false} NewAnimesAppend(front: seq<string>, back: seq<string>, oldList: seq<string>)
    ensures NewAnimes(front + back, oldList) == NewAnimes(front, oldList) + NewAnimes(back, oldList)
  {
    if front != [] {
      assert (front + back)[1..] == front[1..] + back;
      NewAnimesAppend(front[1..], back, oldList);
    } else {
      assert front + back == back;
    }
  }

  /** A worked cycle: with old list [a, b] and candidates [c, a, d, b] the new
      links are [c, d] and they are announced d first, then c. */
  lemma DiffExample(a: string, b: string, c: string, d: string)
    requires a != b && a != c && a != d && b != c && b != d && c != d
    ensures NewAnimes([c, a, d, b], [a, b]) == [c, d]
    ensures Reversed(NewAnimes([c, a, d, b], [a, b])) == [d, c]
  {
    var known := [a, b];
    assert known[1..] == [b];
    assert IndexOf(known, c) < 0 && IndexOf(known, d) < 0;
    assert [b][1..] == [];
    assert NewAnimes([b], known) == [];
    assert [d, b][1..] == [b];
    assert NewAnimes([d, b], known) == [d];
    assert [a, d, b][1..] == [d, b];
    assert NewAnimes([a, d, b], known) == [d];
    assert [c, a, d, b][1..] == [a, d, b];
    assert [c, d][1..] == [d];
  }

  /** A failed fetch changes nothing and announces nothing. */
  lemma CycleFetchFailed(oldList: seq<string>, persisted: seq<string>)
    ensures Cycle(oldList, persisted, None) == Outcome(oldList, persisted, [])
  {
  }

  /** After a successful cycle the persisted list is exactly the candidate
      list, whatever the state before it. */
  lemma CyclePersistsSnapshot(oldList: seq<string>, persisted: seq<string>, anchors: seq<Anchor>)
    ensures Cycle(oldList, persisted, Some(anchors)).persisted == Extracted(anchors)
  {
  }

  /** The in-memory list only grows: the announced links are appended after
      everything it held, which stays in place. */
  lemma CycleAppendsOnly(oldList: seq<string>, persisted: seq<string>, page: Option<seq<Anchor>>)
    ensures var o := Cycle(oldList, persisted, page);
            o.oldList == oldList + o.notified && oldList <= o.oldList
  {
  }

  /** The callback receives the new links last-listed first: the k-th call
      gets the k-th new link counted from the end of the candidate order. */
  lemma CycleNotificationOrder(oldList: seq<string>, persisted: seq<string>, anchors: seq<Anchor>)
    ensures var n := NewAnimes(Extracted(anchors), oldList);
            var o := Cycle(oldList, persisted, Some(anchors));
            && |o.notified| == |n|
            && forall k :: 0 <= k < |n| ==> o.notified[k] == n[|n| - 1 - k]
  {
    var n := NewAnimes(Extracted(anchors), oldList);
    forall k | 0 <= k < |n|
      ensures Reversed(n)[k] == n[|n| - 1 - k]
    {
      ReversedAt(n, k);
    }
  }

  /** Each link is announced as many times as it is a candidate when the
      old list lacks it, and never when the old list holds it. */
  lemma CycleNotifiesNewOnly(oldList: seq<string>, persisted: seq<string>, anchors: seq<Anchor>, x: string)
    ensures multiset(Cycle(oldList, persisted, Some(anchors)).notified)[x]
            == if x in oldList then 0 else multiset(Extracted(anchors))[x]
  {
    ReversedMultiset(NewAnimes(Extracted(anchors), oldList));
    NewAnimesCount(Extracted(anchors), oldList, x);
  }

  /** After a successful cycle the in-memory list holds exactly what it held
      before together with every candidate. */
  lemma CycleMembership(oldList: seq<string>, persisted: seq<string>, anchors: seq<Anchor>, x: string)
    ensures x in Cycle(oldList, persisted, Some(anchors)).oldList
            <==> x in oldList || x in Extracted(anchors)
  {
    var n := NewAnimes(Extracted(anchors), oldList);
    ReversedMultiset(n);
    NewAnimesCount(Extracted(anchors), oldList, x);
    assert x in Reversed(n) <==> x in multiset(Reversed(n));
  }

  /** Within one process a link is announced at most in one cycle: once in
      the in-memory list, no later cycle announces it again. */
  lemma KnownNeverNotified(oldList: seq<string>, persisted: seq<string>, page: Option<seq<Anchor>>, x: string)
    requires x in oldList
    ensures x !in Cycle(oldList, persisted, page).notified
    ensures x in Cycle(oldList, persisted, page).oldList
  {
    if page.Some? {
      CycleNotifiesNewOnly(oldList, persisted, page.value, x);
    }
  }

  /** Running a second cycle on the same page right after a successful one
      announces nothing and leaves the in-memory list as it is. */
  lemma CycleThenQuiet(oldList: seq<string>, persisted: seq<string>, anchors: seq<Anchor>)
    ensures var o := Cycle(oldList, persisted, Some(anchors));
            var o2 := Cycle(o.oldList, o.persisted, Some(anchors));
            o2.notified == [] && o2.oldList == o.oldList && o2.persisted == o.persisted
  {
    var o := Cycle(oldList, persisted, Some(anchors));
    var n := NewAnimes(Extracted(anchors), o.oldList);
    if n != [] {
      var x := n[0];
      NewAnimesCount(Extracted(anchors), o.oldList, x);
      CycleMembership(oldList, persisted, anchors, x);
      assert false;
    }
  }

  /** The persisted list is a snapshot of the page, not a record of what was
      announced: after a restart, which reloads the in-memory list from the
      persisted one, a link that had left the page is announced again when
      it comes back. */
  lemma RestartForgetsDelisted(oldList: seq<string>, persisted: seq<string>,
                               first: seq<Anchor>, second: seq<Anchor>, x: string)
    requires x !in Extracted(first) && x in Extracted(second)
    ensures var stored := Cycle(oldList, persisted, Some(first)).persisted;
            x in Cycle(stored, stored, Some(second)).notified
  {
    var stored := Cycle(oldList, persisted, Some(first)).persisted;
    CycleNotifiesNewOnly(stored, stored, second, x);
  }

  /** The module-level state of the checker: the in-memory list loaded at
      start-up and grown by every cycle, and the contents of the persisted
      list file. The callback is recorded in the ghost log `notified`. */
  class Checker {
    var oldList: seq<string>
    var persisted: seq<string>
    ghost var notified: seq<string>
    ghost var loaded: seq<string>

    /** The in-memory list is the list loaded at start-up followed by every
        link announced since, in announcement order. */
    ghost predicate Valid()
      reads this
    {
      oldList == loaded + notified
    }

    /** Start-up: the in-memory list is read from the persisted file. */
    constructor (stored: seq<string>)
      ensures Valid()
      ensures oldList == stored && persisted == stored
      ensures loaded == stored && notified == []
    {
      oldList := stored;
      persisted := stored;
      loaded := stored;
      notified := [];
    }

    /** `check`, with the result of the fetch passed in. */
    method Check(page: Option<seq<Anchor>>)
      requires Valid()
      modifies this
      ensures Valid() && loaded == old(loaded)
      ensures var o := Cycle(old(oldList), old(persisted), page);
              && oldList == o.oldList
              && persisted == o.persisted
              && notified == old(notified) + o.notified
    {
      if page.None? {
        return;
      }
      var newAnimeList := ParseAnimes(page.value);

      var newAnimes := NewAnimes(newAnimeList, oldList);
      var arrivals := Reversed(newAnimes);
      ghost var before := oldList;
      for i := 0 to |arrivals|
        invariant oldList == before + arrivals[..i]
        invariant notified == old(notified) + arrivals[..i]
        invariant loaded == old(loaded) && persisted == old(persisted)
      {
        var anime := arrivals[i];
        assert arrivals[..i + 1] == arrivals[..i] + [anime];
        oldList := oldList + [anime];
        notified := notified + [anime];
      }
      assert arrivals[..|arrivals|] == arrivals;

      persisted := newAnimeList;
    }
  }
}
