/** `sorted` on a list of stack positions, as a functional insertion sort. */
module Sorting {

  predicate Ascending(s: seq<nat>) {
    forall i, j :: 0 <= i < j < |s| ==> s[i] <= s[j]
  }

  predicate StrictlyAscending(s: seq<nat>) {
    forall i, j :: 0 <= i < j < |s| ==> s[i] < s[j]
  }

  predicate Distinct(s: seq<nat>) {
    forall i, j :: 0 <= i < j < |s| ==> s[i] != s[j]
  }

  /** `ps` lists the elements of `keys` once each, in ascending order. */
  ghost predicate SortedEnumeration(ps: seq<nat>, keys: set<nat>) {
    StrictlyAscending(ps) && forall k :: k in keys <==> k in ps
  }

  /** Places `x` in an ascending list. */
  function Insert(x: nat, s: seq<nat>): (r: seq<nat>)
    requires Ascending(s)
    ensures Ascending(r)
    ensures multiset(r) == multiset(s) + multiset{x}
  {
    if s == [] || x <= s[0] then
      ConsAscending(x, s);
      [x] + s
    else
      var t := Insert(x, s[1..]);
      InsertAbove(x, s, t);
      ConsAscending(s[0], t);
      assert s == [s[0]] + s[1..];
      [s[0]] + t
  }

  /** Inserting a new element into a list without repetition repeats nothing. */
  lemma {:induction false} InsertStrict(x: nat, s: seq<nat>)
    requires StrictlyAscending(s) && x !in s
    ensures StrictlyAscending(Insert(x, s))
  {
    if s == [] || x <= s[0] {
      assert forall i :: 0 <= i < |s| ==> x < s[i];
      ConsAscending(x, s);
    } else {
      var t := Insert(x, s[1..]);
      InsertStrict(x, s[1..]);
      InsertAbove(x, s, t);
      ConsAscending(s[0], t);
    }
  }

  /** A head no larger (smaller) than every element keeps a list (strictly) ascending. */
  lemma ConsAscending(h: nat, t: seq<nat>)
    requires forall i :: 0 <= i < |t| ==> h <= t[i]
    ensures Ascending(t) ==> Ascending([h] + t)
    ensures StrictlyAscending(t) && (forall i :: 0 <= i < |t| ==> h < t[i]) ==> StrictlyAscending([h] + t)
  {
  }

  /** What `Insert` puts after the head of `s` stays above that head. */
  lemma InsertAbove(x: nat, s: seq<nat>, t: seq<nat>)
    requires Ascending(s) && s != [] && s[0] < x
    requires multiset(t) == multiset(s[1..]) + multiset{x}
    ensures forall i :: 0 <= i < |t| ==> s[0] <= t[i]
    ensures StrictlyAscending(s) ==> forall i :: 0 <= i < |t| ==> s[0] < t[i]
  {
    forall i | 0 <= i < |t|
      ensures s[0] <= t[i]
      ensures StrictlyAscending(s) ==> s[0] < t[i]
    {
      assert t[i] in multiset(t);
      if t[i] != x {
        assert t[i] in s[1..];
      }
    }
  }

  /** `sorted(xs)`: the same elements, ascending. */
  function Sort(xs: seq<nat>): (r: seq<nat>)
    ensures Ascending(r)
    ensures multiset(r) == multiset(xs)
    ensures Distinct(xs) ==> StrictlyAscending(r)
  {
    if xs == [] then []
    else
      var p := xs[..|xs| - 1];
      var x := xs[|xs| - 1];
      assert xs == p + [x];
      var t := Sort(p);
      assert x !in p ==> x !in t by {
        assert x in t ==> x in multiset(p);
      }
      if Distinct(xs) then
        assert forall i, j :: 0 <= i < j < |p| ==> p[i] == xs[i] && p[j] == xs[j];
        assert forall i :: 0 <= i < |p| ==> p[i] != xs[|p|];
        InsertStrict(x, t);
        Insert(x, t)
      else
        Insert(x, t)
  }

  /** Sorting keeps exactly the elements it was given. */
  lemma SortSameElements(xs: seq<nat>)
    ensures |Sort(xs)| == |xs|
    ensures forall y :: y in Sort(xs) <==> y in xs
  {
    var r := Sort(xs);
    assert |multiset(r)| == |multiset(xs)|;
    forall y ensures y in r <==> y in xs {
      assert y in r <==> y in multiset(r);
      assert y in xs <==> y in multiset(xs);
    }
  }

  /** An ascending list without repetition is determined by its elements:
      whatever order a set of positions is scanned in, it sorts the same way. */
  lemma {:induction false} AscendingUnique(s: seq<nat>, t: seq<nat>)
    requires StrictlyAscending(s) && StrictlyAscending(t)
    requires forall y :: y in s <==> y in t
    ensures s == t
  {
    assert s != [] ==> s[0] in t;
    assert t != [] ==> t[0] in s;
    if s != [] && t != [] {
      assert s[0] == t[0];
      forall y ensures y in s[1..] <==> y in t[1..] {
        assert y in s <==> y in t;
        assert y in s[1..] ==> y != s[0];
        assert y in t[1..] ==> y != t[0];
        assert y in s <==> y == s[0] || y in s[1..];
        assert y in t <==> y == t[0] || y in t[1..];
      }
      AscendingUnique(s[1..], t[1..]);
      assert s == [s[0]] + s[1..];
      assert t == [t[0]] + t[1..];
    }
  }
}
