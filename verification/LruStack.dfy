/** Bounded recency lists: the common mathematical content of an LRU cache set and of a
    branch-target-buffer set.  A list holds distinct keys, most recently used first; `Touch`
    brings a key to the front and drops whatever no longer fits. */
module LruStack {

  type Key = nat

  predicate Distinct(s: seq<Key>) {
    forall i, j :: 0 <= i < j < |s| ==> s[i] != s[j]
  }

  function Without(s: seq<Key>, t: Key): (r: seq<Key>)
    ensures |r| == if t in s then |s| - 1 else |s|
    ensures forall x :: x in r ==> x in s
  {
    if s == [] then []
    else if s[0] == t then s[1..]
    else [s[0]] + Without(s[1..], t)
  }

  function Take(s: seq<Key>, n: nat): seq<Key> {
    if |s| <= n then s else s[..n]
  }

  /** One use of key t in a list that may hold up to cap keys. */
  function Touch(s: seq<Key>, t: Key, cap: nat): seq<Key> {
    Take([t] + Without(s, t), cap)
  }

  /** Reference definition: the distinct keys of a history of uses, the latest use first. */
  function Recent(h: seq<Key>): seq<Key> {
    if h == [] then []
    else [h[|h| - 1]] + Without(Recent(h[..|h| - 1]), h[|h| - 1])
  }

  /** The bounded list after a history of uses, starting empty. */
  function AfterUses(h: seq<Key>, cap: nat): seq<Key> {
    if h == [] then []
    else Touch(AfterUses(h[..|h| - 1], cap), h[|h| - 1], cap)
  }

  // ----- membership and distinctness

  lemma DistinctTail(s: seq<Key>)
    requires Distinct(s) && s != []
    ensures Distinct(s[1..]) && s[0] !in s[1..]
    ensures forall x :: x in s <==> x == s[0] || x in s[1..]
  {
    assert s == [s[0]] + s[1..];
  }

  lemma {:induction false} WithoutMembers(s: seq<Key>, t: Key)
    requires Distinct(s)
    ensures Distinct(Without(s, t))
    ensures forall x :: x in Without(s, t) <==> x in s && x != t
  {
    if s != [] {
      DistinctTail(s);
      if s[0] != t {
        WithoutMembers(s[1..], t);
        DistinctCons(s[0], Without(s[1..], t));
      }
    }
  }

  lemma DistinctCons(x: Key, s: seq<Key>)
    requires Distinct(s) && x !in s
    ensures Distinct([x] + s)
    ensures forall y :: y in [x] + s <==> y == x || y in s
  {
  }

  lemma {:induction false} WithoutAbsent(s: seq<Key>, t: Key)
    requires t !in s
    ensures Without(s, t) == s
  {
    if s == [] {
    } else {
      WithoutAbsent(s[1..], t);
    }
  }

  /** Removing the key at position i cuts exactly that position out. */
  lemma {:induction false} WithoutAt(s: seq<Key>, i: nat)
    requires Distinct(s) && i < |s|
    ensures Without(s, s[i]) == s[..i] + s[i + 1..]
  {
    if i == 0 {
    } else {
      WithoutAt(s[1..], i - 1);
      assert s[1..][i - 1] == s[i];
      assert s[0] != s[i];
      assert [s[0]] + (s[1..][..i - 1] + s[1..][i..]) == s[..i] + s[i + 1..];
    }
  }

  lemma TouchDistinct(s: seq<Key>, t: Key, cap: nat)
    requires Distinct(s)
    ensures Distinct(Touch(s, t, cap))
  {
    WithoutMembers(s, t);
  }

  lemma {:induction false} RecentMembers(h: seq<Key>)
    ensures Distinct(Recent(h))
    ensures forall x :: x in Recent(h) <==> x in h
  {
    if h == [] {
    } else {
      var g, t := h[..|h| - 1], h[|h| - 1];
      RecentMembers(g);
      WithoutMembers(Recent(g), t);
      assert h == g + [t];
    }
  }

  // ----- inclusion: a smaller list is a prefix of a larger one

  lemma {:induction false} WithoutPrefix(s: seq<Key>, l: seq<Key>, t: Key)
    requires s <= l && Distinct(l)
    ensures Without(s, t) <= Without(l, t)
  {
    if s == [] {
    } else if s[0] == t {
    } else {
      WithoutPrefix(s[1..], l[1..], t);
    }
  }

  /** The prefix relation between two lists, the first of capacity a and the second of
      capacity b >= a, survives a use of the same key in both. */
  lemma TouchPrefix(s: seq<Key>, l: seq<Key>, t: Key, a: nat, b: nat)
    requires s <= l && Distinct(l)
    requires a <= b && |s| <= a && |l| <= b
    ensures Touch(s, t, a) <= Touch(l, t, b)
  {
    WithoutPrefix(s, l, t);
  }

  // ----- a bounded list is exactly the most recent part of the history

  lemma TakeWithout(l: seq<Key>, t: Key, cap: nat)
    requires Distinct(l) && cap > 0
    ensures Take([t] + Without(Take(l, cap), t), cap) == Take([t] + Without(l, t), cap)
  {
    var s := Take(l, cap);
    WithoutPrefix(s, l, t);
    if t !in s {
      WithoutAbsent(s, t);
      if t in l {
        var i :| 0 <= i < |l| && l[i] == t;
        assert cap < |l| && s == l[..cap];
        WithoutAt(l, i);
        assert Without(l, t)[..cap] == l[..cap];
      } else {
        WithoutAbsent(l, t);
      }
    } else {
      var i :| 0 <= i < |s| && s[i] == t;
      assert l[i] == t;
      WithoutAt(s, i);
      WithoutAt(l, i);
      if |l| > cap {
        assert ([t] + Without(l, t))[..cap] == [t] + (s[..i] + s[i + 1..]);
      }
    }
  }

  /** Main result: whatever the history, a bounded recency list holds exactly the `cap` most
      recently used distinct keys, in order of last use. */
  lemma {:induction false} HoldsMostRecent(h: seq<Key>, cap: nat)
    requires cap > 0
    ensures AfterUses(h, cap) == Take(Recent(h), cap)
  {
    if h == [] {
    } else {
      var g, t := h[..|h| - 1], h[|h| - 1];
      HoldsMostRecent(g, cap);
      RecentMembers(g);
      TakeWithout(Recent(g), t, cap);
    }
  }

  // ----- order of last use

  /** Index of the last use of t in h. */
  function LastUse(h: seq<Key>, t: Key): (i: int)
    ensures -1 <= i < |h|
    ensures i == -1 <==> t !in h
    ensures i >= 0 ==> h[i] == t && forall j :: i < j < |h| ==> h[j] != t
  {
    if h == [] then -1
    else if h[|h| - 1] == t then |h| - 1
    else LastUse(h[..|h| - 1], t)
  }

  /** The keys of s stand in strictly decreasing order of their last use in h. */
  ghost predicate ByLastUse(h: seq<Key>, s: seq<Key>) {
    forall i, j :: 0 <= i < j < |s| ==> LastUse(h, s[i]) > LastUse(h, s[j])
  }

  lemma WithoutByLastUse(h: seq<Key>, s: seq<Key>, t: Key)
    requires Distinct(s) && ByLastUse(h, s)
    ensures ByLastUse(h, Without(s, t))
  {
    if t in s {
      var k :| 0 <= k < |s| && s[k] == t;
      WithoutAt(s, k);
      CutByLastUse(h, s, k);
    } else {
      WithoutAbsent(s, t);
    }
  }

  lemma CutByLastUse(h: seq<Key>, s: seq<Key>, k: nat)
    requires ByLastUse(h, s) && k < |s|
    ensures ByLastUse(h, s[..k] + s[k + 1..])
  {
    var w := s[..k] + s[k + 1..];
    forall i, j | 0 <= i < j < |w| ensures LastUse(h, w[i]) > LastUse(h, w[j]) {
      assert w[i] == s[if i < k then i else i + 1] && w[j] == s[if j < k then j else j + 1];
    }
  }

  lemma LastUseAfter(h: seq<Key>, t: Key, x: Key)
    ensures LastUse(h + [t], x) == if x == t then |h| else LastUse(h, x)
  {
    assert (h + [t])[..|h|] == h;
  }

  lemma FrontByLastUse(h: seq<Key>, w: seq<Key>, t: Key)
    requires ByLastUse(h, w) && t !in w
    ensures ByLastUse(h + [t], [t] + w)
  {
    var s := [t] + w;
    forall i, j | 0 <= i < j < |s| ensures LastUse(h + [t], s[i]) > LastUse(h + [t], s[j]) {
      LastUseAfter(h, t, s[i]);
      LastUseAfter(h, t, s[j]);
      assert s[j] == w[j - 1] && (i > 0 ==> s[i] == w[i - 1]);
    }
  }

  /** Bringing the key just used to the front restores the order of last use. */
  lemma TouchByLastUse(h: seq<Key>, s: seq<Key>, t: Key, cap: nat)
    requires Distinct(s) && ByLastUse(h, s)
    ensures ByLastUse(h + [t], Touch(s, t, cap))
  {
    WithoutByLastUse(h, s, t);
    WithoutMembers(s, t);
    FrontByLastUse(h, Without(s, t), t);
  }

  /** Recent lists keys by strictly decreasing time of last use. */
  lemma {:induction false} RecentOrder(h: seq<Key>)
    ensures ByLastUse(h, Recent(h))
  {
    if h == [] {
    } else {
      var g, t := h[..|h| - 1], h[|h| - 1];
      RecentOrder(g);
      RecentMembers(g);
      assert g + [t] == h;
      TouchByLastUse(g, Recent(g), t, |Recent(h)|);
    }
  }
}
