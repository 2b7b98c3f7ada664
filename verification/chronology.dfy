/** Ordering messages by their `timestamp` column, as `order_by(timestamp.asc())`
    and `order_by(timestamp.desc())` do. Rows with equal timestamps may come
    back in any order, so sortedness is stated non-strictly and the sort below
    is one admissible order among several. */
module Chronology {
  import opened Models

  datatype Direction = OldestFirst | NewestFirst

  predicate Precedes(a: Message, b: Message, d: Direction) {
    match d
    case OldestFirst => a.timestamp <= b.timestamp
    case NewestFirst => a.timestamp >= b.timestamp
  }

  predicate Chronological(s: seq<Message>, d: Direction) {
    forall i, j :: 0 <= i < j < |s| ==> Precedes(s[i], s[j], d)
  }

  /** Places `m` into the ordered `s`, ahead of every message it may precede. */
  function Insert(m: Message, s: seq<Message>, d: Direction): (r: seq<Message>)
    requires Chronological(s, d)
    ensures Chronological(r, d)
    ensures multiset(r) == multiset(s) + multiset{m}
  {
    if |s| == 0 then [m]
    else if Precedes(m, s[0], d) then [m] + s
    else
      var t := Insert(m, s[1..], d);
      PrependHead(s, m, t, d);
      [s[0]] + t
  }

  /** The step of `Insert` that puts the old head back in front. */
  lemma PrependHead(s: seq<Message>, m: Message, t: seq<Message>, d: Direction)
    requires |s| > 0 && Chronological(s, d) && !Precedes(m, s[0], d)
    requires Chronological(t, d) && multiset(t) == multiset(s[1..]) + multiset{m}
    ensures Chronological([s[0]] + t, d)
    ensures multiset([s[0]] + t) == multiset(s) + multiset{m}
  {
    assert s == [s[0]] + s[1..];
    forall k | 0 <= k < |t| ensures Precedes(s[0], t[k], d) {
      assert t[k] in multiset(t);
      if t[k] != m {
        assert t[k] in multiset(s[1..]);
        var i :| 0 <= i < |s[1..]| && s[1..][i] == t[k];
        assert s[i + 1] == t[k];
      }
    }
    var r := [s[0]] + t;
    forall i, j | 0 <= i < j < |r| ensures Precedes(r[i], r[j], d) {
      if i > 0 {
        assert r[i] == t[i - 1] && r[j] == t[j - 1];
      } else {
        assert r[j] == t[j - 1];
      }
    }
  }

  /** Orders `s` in direction `d`, keeping every message exactly as often as it occurs. */
  function SortByTime(s: seq<Message>, d: Direction): (r: seq<Message>)
    ensures Chronological(r, d)
    ensures multiset(r) == multiset(s)
  {
    if |s| == 0 then []
    else
      assert s == [s[0]] + s[1..];
      Insert(s[0], SortByTime(s[1..], d), d)
  }

  /** Sorting neither adds nor drops a message. */
  lemma SortedMembership(s: seq<Message>, d: Direction, x: Message)
    ensures x in SortByTime(s, d) <==> x in s
  {
    assert x in SortByTime(s, d) <==> x in multiset(SortByTime(s, d));
    assert x in s <==> x in multiset(s);
  }
}
