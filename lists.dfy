/**
 * The list helpers both dashboards use on their selection lists: the membership
 * toggle (`toggleList` in components/PMDashboard.tsx, `toggleItem` in
 * components/TLDashboard.tsx, identical code), `filter(i => i !== x)` and the
 * order-preserving de-duplication `Array.from(new Set(xs))`.
 */
module Lists {

  /** No element occurs twice. */
  predicate Distinct(s: seq<string>) {
    forall i, j :: 0 <= i < j < |s| ==> s[i] != s[j]
  }

  /** `l.filter(i => i !== x)`: every copy of `x` removed, the rest in order. */
  function RemoveAll(l: seq<string>, x: string): (r: seq<string>)
    ensures x !in r
    ensures forall y :: y != x ==> (y in r <==> y in l)
  {
    if l == [] then []
    else
      assert l == [l[0]] + l[1..];
      (if l[0] == x then [] else [l[0]]) + RemoveAll(l[1..], x)
  }

  /** Removing from a concatenation removes from each half: the order is kept. */
  lemma {:induction false} RemoveAllAppend(a: seq<string>, b: seq<string>, x: string)
    ensures RemoveAll(a + b, x) == RemoveAll(a, x) + RemoveAll(b, x)
  {
    if a != [] {
      var head := if a[0] == x then [] else [a[0]];
      assert (a + b)[0] == a[0];
      assert (a + b)[1..] == a[1..] + b;
      RemoveAllAppend(a[1..], b, x);
      assert RemoveAll(a + b, x) == head + RemoveAll(a[1..] + b, x);
      assert head + (RemoveAll(a[1..], x) + RemoveAll(b, x)) == (head + RemoveAll(a[1..], x)) + RemoveAll(b, x);
    } else {
      assert a + b == b;
    }
  }

  /** Removing an absent element changes nothing. */
  lemma {:induction false} RemoveAllAbsent(l: seq<string>, x: string)
    requires x !in l
    ensures RemoveAll(l, x) == l
  {
    if l != [] {
      assert l[1..] == l[1..];
      assert x !in l[1..] by { forall y | y in l[1..] ensures y in l { } }
      RemoveAllAbsent(l[1..], x);
      assert l == [l[0]] + l[1..];
    }
  }

  /**
   * `list.includes(x) ? list.filter(i => i !== x) : [...list, x]`:
   * `x` ends up present exactly when it was absent; no other element changes.
   */
  function Toggle(l: seq<string>, x: string): (r: seq<string>)
    ensures x in r <==> x !in l
    ensures forall y :: y != x ==> (y in r <==> y in l)
    ensures x !in l ==> r == l + [x]
    ensures x in l ==> r == RemoveAll(l, x)
  {
    if x in l then RemoveAll(l, x) else l + [x]
  }

  /** Toggling an absent element twice gives the list back. */
  lemma ToggleTwice(l: seq<string>, x: string)
    requires x !in l
    ensures Toggle(Toggle(l, x), x) == l
  {
    RemoveAllAppend(l, [x], x);
    RemoveAllAbsent(l, x);
    assert RemoveAll([x], x) == [];
  }

  /** Toggling a present element twice moves it, as a single copy, to the end. */
  lemma TogglePresentTwice(l: seq<string>, x: string)
    requires x in l
    ensures Toggle(Toggle(l, x), x) == RemoveAll(l, x) + [x]
  {
  }

  /**
   * `Array.from(new Set(s))`: the first occurrence of every element, in the
   * order of first appearance.
   */
  function Dedup(s: seq<string>): (r: seq<string>)
    ensures Distinct(r)
    ensures forall y :: y in r <==> y in s
    ensures |r| <= |s|
  {
    if s == [] then []
    else
      var d := Dedup(s[..|s| - 1]);
      var last := s[|s| - 1];
      assert forall y :: y in s <==> y in s[..|s| - 1] || y == last by {
        assert s == s[..|s| - 1] + [last];
      }
      if last in d then d else d + [last]
  }

  /** A list without duplicates is its own de-duplication. */
  lemma {:induction false} DedupDistinct(s: seq<string>)
    requires Distinct(s)
    ensures Dedup(s) == s
  {
    if s != [] {
      var init := s[..|s| - 1];
      assert Distinct(init);
      DedupDistinct(init);
      assert s[|s| - 1] !in init;
      assert s == init + [s[|s| - 1]];
    }
  }

  /** De-duplicating `a + b` begins with the de-duplication of `a`. */
  lemma {:induction false} DedupPrefix(a: seq<string>, b: seq<string>)
    ensures |Dedup(a)| <= |Dedup(a + b)|
    ensures Dedup(a + b)[..|Dedup(a)|] == Dedup(a)
  {
    if b == [] {
      assert a + b == a;
    } else {
      var b' := b[..|b| - 1];
      assert (a + b)[..|a + b| - 1] == a + b';
      DedupPrefix(a, b');
    }
  }

  /**
   * Merging `items` into a list without duplicates keeps the list as it is and
   * appends, without duplicates, exactly the items it did not contain.
   */
  lemma MergeKeepsPrefix(prev: seq<string>, items: seq<string>)
    requires Distinct(prev)
    ensures var r := Dedup(prev + items);
      && |prev| <= |r| && r[..|prev|] == prev
      && Distinct(r)
      && (forall y :: y in r[|prev|..] <==> y in items && y !in prev)
  {
    var r := Dedup(prev + items);
    DedupDistinct(prev);
    DedupPrefix(prev, items);
    assert forall y :: y in r <==> y in prev || y in items by {
      assert forall y :: y in prev + items <==> y in prev || y in items;
    }
    TailIsNew(prev, items, r);
  }

  /**
   * A list without duplicates that starts with `prev` and holds exactly the
   * elements of `prev` and `items` continues with exactly the new items.
   */
  lemma TailIsNew(prev: seq<string>, items: seq<string>, r: seq<string>)
    requires Distinct(r) && |prev| <= |r| && r[..|prev|] == prev
    requires forall y :: y in r <==> y in prev || y in items
    ensures forall y :: y in r[|prev|..] <==> y in items && y !in prev
  {
    var tail := r[|prev|..];
    assert r == prev + tail;
    forall y | y in tail ensures y in items && y !in prev {
      var k :| 0 <= k < |tail| && tail[k] == y;
      assert r[|prev| + k] == y;
      assert forall i :: 0 <= i < |prev| ==> prev[i] == r[i] != r[|prev| + k];
    }
    forall y | y in items && y !in prev ensures y in tail {
      var k :| 0 <= k < |r| && r[k] == y;
      assert forall i :: 0 <= i < |prev| ==> r[i] == prev[i] != y;
      assert tail[k - |prev|] == y;
    }
  }

  /** Removing `x` drops all its copies and keeps every other element with its multiplicity. */
  lemma {:induction false} RemoveAllMultiset(l: seq<string>, x: string)
    ensures multiset(RemoveAll(l, x)) == multiset(l)[x := 0]
  {
    if l != [] {
      RemoveAllMultiset(l[1..], x);
      assert l == [l[0]] + l[1..];
      assert multiset(l) == multiset([l[0]]) + multiset(l[1..]);
    }
  }

  /** The result is shorter by exactly the number of copies of `x`. */
  lemma {:induction false} RemoveAllLength(l: seq<string>, x: string)
    ensures |RemoveAll(l, x)| == |l| - multiset(l)[x]
  {
    if l != [] {
      RemoveAllLength(l[1..], x);
      assert l == [l[0]] + l[1..];
      assert multiset(l) == multiset([l[0]]) + multiset(l[1..]);
    }
  }

  /** Two lists without duplicates and without common elements concatenate to one without duplicates. */
  lemma DistinctAppend(a: seq<string>, b: seq<string>)
    requires Distinct(a) && Distinct(b)
    requires forall y :: y in b ==> y !in a
    ensures Distinct(a + b)
  {
    forall i, j | 0 <= i < j < |a + b| ensures (a + b)[i] != (a + b)[j] {
      if j >= |a| {
        assert (a + b)[j] == b[j - |a|];
        if i >= |a| {
          assert (a + b)[i] == b[i - |a|];
        } else {
          assert (a + b)[i] == a[i];
          assert b[j - |a|] in b;
        }
      }
    }
  }
}
