/** The subscription protocol every cell shares: an ordered list of subscriber
    ids, the pushes an update makes to them, and the removal a binding performs. */
module Cells {
  import opened Values

  /** One push of a value to one subscriber. */
  datatype Delivered<V> = Delivered(to: ConsumerId, v: V)

  /** `r` is `s` with its first occurrence of `x` cut out. */
  ghost predicate CutsFirst<T>(s: seq<T>, x: T, r: seq<T>)
  {
    exists i :: 0 <= i < |s| && s[i] == x && x !in s[..i] && r == s[..i] + s[i + 1..]
  }

  /** Cutting the first `x` out of the tail, after a head other than `x`. */
  lemma CutsFirstCons<T>(h: T, t: seq<T>, x: T, rest: seq<T>)
    requires h != x && CutsFirst(t, x, rest)
    ensures CutsFirst([h] + t, x, [h] + rest)
  {
    var j :| 0 <= j < |t| && t[j] == x && x !in t[..j] && rest == t[..j] + t[j + 1..];
    var s := [h] + t;
    assert s[..j + 1] == [h] + t[..j];
    assert s[j + 1 + 1..] == t[j + 1..];
    assert s[j + 1] == x;
  }

  /** `ArrayList.remove(Object)`: removes the first occurrence of `x`, if any,
      and keeps the order of the rest. */
  function RemoveFirst<T(==)>(s: seq<T>, x: T): (r: seq<T>)
    ensures x in s ==> |r| == |s| - 1 && multiset(r) == multiset(s) - multiset{x}
    ensures x in s ==> CutsFirst(s, x, r)
    ensures x !in s ==> r == s
  {
    if s == [] then []
    else
      assert s == [s[0]] + s[1..];
      if s[0] == x then
        assert s[..0] == [] && s[0 + 1..] == s[1..];
        s[1..]
      else
        var rest := RemoveFirst(s[1..], x);
        if x in s[1..] then CutsFirstCons(s[0], s[1..], x, rest); [s[0]] + rest
        else [s[0]] + rest
  }

  /** Removing a subscriber that was in the list once leaves it out entirely,
      and every other subscriber keeps its multiplicity. */
  lemma RemoveFirstOnce<T>(s: seq<T>, x: T)
    requires multiset(s)[x] == 1
    ensures x !in RemoveFirst(s, x)
    ensures forall y :: y != x ==> multiset(RemoveFirst(s, x))[y] == multiset(s)[y]
  {
    var r: seq<T> := RemoveFirst(s, x);
    assert multiset(r)[x] == 0;
  }

  /** Subscribing a fresh id and removing it again restores the list. */
  lemma RemoveFirstAppended<T>(s: seq<T>, x: T)
    requires x !in s
    ensures RemoveFirst(s + [x], x) == s
  {
    var t := s + [x];
    assert t[|s|] == x;
    var i :| 0 <= i < |t| && t[i] == x && x !in t[..i] && RemoveFirst(t, x) == t[..i] + t[i + 1..];
    assert i == |s|;
    assert t[..i] == s && t[i + 1..] == [];
  }

  /** The pushes `update()` makes: `v` to every subscriber, in list order. */
  function Fanout<V>(consumers: seq<ConsumerId>, v: V): (d: seq<Delivered<V>>)
    ensures |d| == |consumers|
    ensures forall i :: 0 <= i < |d| ==> d[i].to == consumers[i] && d[i].v == v
  {
    seq(|consumers|, i requires 0 <= i < |consumers| => Delivered(consumers[i], v))
  }

  /** A subscriber that is no longer in the list receives nothing from an update. */
  lemma FanoutSkipsAbsent<V>(consumers: seq<ConsumerId>, v: V, c: ConsumerId)
    requires c !in consumers
    ensures forall i :: 0 <= i < |Fanout(consumers, v)| ==> Fanout(consumers, v)[i].to != c
  {
  }

  lemma FanoutAppend<V>(a: seq<ConsumerId>, b: seq<ConsumerId>, v: V)
    ensures Fanout(a + b, v) == Fanout(a, v) + Fanout(b, v)
  {
  }

  /** The pushes of several updates in a row: each value in `vs`, in order,
      to every subscriber in list order. */
  function FanoutAll<V>(consumers: seq<ConsumerId>, vs: seq<V>): (d: seq<Delivered<V>>)
    ensures |d| == |consumers| * |vs|
  {
    if vs == [] then []
    else FanoutAll(consumers, vs[..|vs| - 1]) + Fanout(consumers, vs[|vs| - 1])
  }

  /** One push more extends the pushes by one fan-out. */
  lemma FanoutAllSnoc<V>(consumers: seq<ConsumerId>, vs: seq<V>, v: V)
    ensures FanoutAll(consumers, vs + [v]) == FanoutAll(consumers, vs) + Fanout(consumers, v)
  {
    assert (vs + [v])[..|vs + [v]| - 1] == vs;
  }

  /** A single push is a single fan-out. */
  lemma FanoutAllOne<V>(consumers: seq<ConsumerId>, v: V)
    ensures FanoutAll(consumers, [v]) == Fanout(consumers, v)
  {
    assert [v][..0] == [];
  }

  /** A subscriber that is not in the list receives none of the pushes. */
  lemma {:induction false} FanoutAllSkipsAbsent<V>(consumers: seq<ConsumerId>, vs: seq<V>, c: ConsumerId)
    requires c !in consumers
    ensures forall d :: d in FanoutAll(consumers, vs) ==> d.to != c
  {
    if vs != [] {
      FanoutAllSkipsAbsent(consumers, vs[..|vs| - 1], c);
      FanoutSkipsAbsent(consumers, vs[|vs| - 1], c);
    }
  }

  /** After a subscriber's binding is removed (it was subscribed once), no later
      update reaches it: the pushes of `update()` skip it. */
  lemma {:induction false} UnsubscribedGetsNothing<V>(consumers: seq<ConsumerId>, c: ConsumerId, v: V)
    requires multiset(consumers)[c] == 1
    ensures forall i :: 0 <= i < |Fanout(RemoveFirst(consumers, c), v)| ==>
      Fanout(RemoveFirst(consumers, c), v)[i].to != c
  {
    RemoveFirstOnce(consumers, c);
    FanoutSkipsAbsent(RemoveFirst(consumers, c), v, c);
  }
}
