/** Sequence utilities standing in for the database's query primitives:
    `Find` is `query.filter(...).first()` / `query.get(...)`, `Filter` is
    `query.filter(...).all()` over a table kept in insertion order. */
module Seqs {

  datatype Option<+T> = None | Some(value: T)

  /** The first element of `s` satisfying `p`, or `None` when there is none. */
  function Find<T>(s: seq<T>, p: T -> bool): (r: Option<T>)
    ensures r.None? <==> forall i :: 0 <= i < |s| ==> !p(s[i])
    ensures r.Some? ==>
      exists i :: 0 <= i < |s| && s[i] == r.value && p(s[i]) && forall j :: 0 <= j < i ==> !p(s[j])
    ensures r.Some? ==> p(r.value)
  {
    if |s| == 0 then None
    else if p(s[0]) then Some(s[0])
    else
      var r := Find(s[1..], p);
      assert forall i :: 1 <= i < |s| ==> s[i] == s[1..][i - 1];
      if r.Some? then FirstShifts(s, p, r.value); r else r
  }

  /** The position `Find` took its result from. */
  lemma FindIndex<T>(s: seq<T>, p: T -> bool) returns (k: nat)
    requires Find(s, p).Some?
    ensures k < |s| && s[k] == Find(s, p).value && p(s[k])
  {
    k :| 0 <= k < |s| && s[k] == Find(s, p).value && p(s[k]) && forall j :: 0 <= j < k ==> !p(s[j]);
  }

  /** A first match in `s[1..]` is a first match in `s` when `s[0]` fails `p`. */
  lemma FirstShifts<T>(s: seq<T>, p: T -> bool, v: T)
    requires |s| > 0 && !p(s[0])
    requires exists k :: 0 <= k < |s[1..]| && s[1..][k] == v && p(s[1..][k]) && forall j :: 0 <= j < k ==> !p(s[1..][j])
    ensures exists i :: 0 <= i < |s| && s[i] == v && p(s[i]) && forall j :: 0 <= j < i ==> !p(s[j])
  {
    var k :| 0 <= k < |s[1..]| && s[1..][k] == v && p(s[1..][k]) && forall j :: 0 <= j < k ==> !p(s[1..][j]);
    assert s[k + 1] == v;
    assert forall j :: 1 <= j < k + 1 ==> s[j] == s[1..][j - 1];
  }

  /** The elements of `s` satisfying `p`, in their original order. */
  function Filter<T(!new)>(s: seq<T>, p: T -> bool): (r: seq<T>)
    ensures |r| <= |s|
    ensures forall x :: multiset(r)[x] == if p(x) then multiset(s)[x] else 0
    ensures forall i :: 0 <= i < |r| ==> p(r[i])
  {
    if |s| == 0 then []
    else
      assert s == [s[0]] + s[1..];
      if p(s[0]) then [s[0]] + Filter(s[1..], p) else Filter(s[1..], p)
  }

  /** Membership in a filtered sequence, in both directions. */
  lemma FilterMembership<T(!new)>(s: seq<T>, p: T -> bool, x: T)
    ensures x in Filter(s, p) <==> x in s && p(x)
  {
    assert x in Filter(s, p) <==> x in multiset(Filter(s, p));
    assert x in s <==> x in multiset(s);
  }

  /** Filtering by two pointwise-equal predicates gives the same sequence. */
  lemma {:induction false} FilterCongruent<T(!new)>(s: seq<T>, p: T -> bool, q: T -> bool)
    requires forall i :: 0 <= i < |s| ==> p(s[i]) == q(s[i])
    ensures Filter(s, p) == Filter(s, q)
  {
    if |s| > 0 {
      FilterCongruent(s[1..], p, q);
    }
  }

  /** One step of `Filter`: the head adds one to the length exactly when it passes. */
  lemma FilterStep<T(!new)>(s: seq<T>, p: T -> bool)
    requires |s| > 0
    ensures |Filter(s, p)| == (if p(s[0]) then 1 else 0) + |Filter(s[1..], p)|
  {
  }

  /** A filter that no element passes leaves nothing. */
  lemma FilterKeepsNone<T(!new)>(s: seq<T>, p: T -> bool)
    requires forall i :: 0 <= i < |s| ==> !p(s[i])
    ensures Filter(s, p) == []
  {
  }

  /** A filter that every element passes is the identity. */
  lemma {:induction false} FilterKeepsAll<T(!new)>(s: seq<T>, p: T -> bool)
    requires forall i :: 0 <= i < |s| ==> p(s[i])
    ensures Filter(s, p) == s
  {
    if |s| > 0 {
      FilterKeepsAll(s[1..], p);
    }
  }

  /** Filtering distributes over appending one element. */
  lemma {:induction false} FilterSnoc<T(!new)>(s: seq<T>, x: T, p: T -> bool)
    ensures Filter(s + [x], p) == Filter(s, p) + (if p(x) then [x] else [])
  {
    if |s| == 0 {
      assert s + [x] == [x];
    } else {
      assert (s + [x])[1..] == s[1..] + [x];
      FilterSnoc(s[1..], x, p);
    }
  }

  /** Removing the single element that fails `p` shortens the sequence by exactly one. */
  lemma {:induction false} FilterDropsOne<T(!new)>(s: seq<T>, p: T -> bool, k: nat)
    requires k < |s| && !p(s[k])
    requires forall i :: 0 <= i < |s| && i != k ==> p(s[i])
    ensures |Filter(s, p)| == |s| - 1
  {
    if k == 0 {
      FilterKeepsAll(s[1..], p);
    } else {
      FilterDropsOne(s[1..], p, k - 1);
    }
  }

  /** Appending an element that is the first to satisfy `p` makes `Find` return it. */
  lemma FindAppended<T>(s: seq<T>, x: T, p: T -> bool)
    requires forall i :: 0 <= i < |s| ==> !p(s[i])
    requires p(x)
    ensures Find(s + [x], p) == Some(x)
  {
    var r := Find(s + [x], p);
    assert (s + [x])[|s|] == x;
    assert forall i :: 0 <= i < |s| ==> (s + [x])[i] == s[i];
  }

  /** Appending never changes what `Find` already finds. */
  lemma {:induction false} FindExtends<T>(s: seq<T>, x: T, p: T -> bool)
    requires Find(s, p).Some?
    ensures Find(s + [x], p) == Find(s, p)
  {
    assert (s + [x])[0] == s[0];
    if !p(s[0]) {
      assert (s + [x])[1..] == s[1..] + [x];
      FindExtends(s[1..], x, p);
    }
  }
}
