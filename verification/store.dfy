/** The Redis list that holds the matchmaking queue, reduced to the three commands the relay uses
    on it: LRANGE key 0 -1, LREM key 1 value and RPUSH key value. */
module Store {

  /** LREM with count 1: removes the first element equal to v, if there is one. */
  function RemoveFirst(q: seq<string>, v: string): (r: seq<string>)
    ensures v !in q ==> r == q
    ensures v in q ==> |r| == |q| - 1
    ensures forall x :: x in r ==> x in q
  {
    if q == [] then []
    else if q[0] == v then q[1..]
    else [q[0]] + RemoveFirst(q[1..], v)
  }

  /** The element LREM removes is the first one equal to v: everything before it stays in order,
      and so does everything after it. */
  lemma {:induction false} RemoveFirstAt(a: seq<string>, v: string, b: seq<string>)
    requires v !in a
    ensures RemoveFirst(a + [v] + b, v) == a + b
  {
    if a == [] {
      assert a + [v] + b == [v] + b;
    } else {
      var q := a + [v] + b;
      assert q[0] == a[0] && a[0] != v;
      assert q[1..] == a[1..] + [v] + b;
      assert RemoveFirst(q, v) == [a[0]] + RemoveFirst(q[1..], v);
      RemoveFirstAt(a[1..], v, b);
      assert [a[0]] + (a[1..] + b) == a + b;
    }
  }

  /** LREM at index k: when q[k] is the first occurrence of its value, LREM of that value
      removes exactly position k. */
  lemma RemoveFirstIndex(q: seq<string>, k: nat)
    requires k < |q| && q[k] !in q[..k]
    ensures RemoveFirst(q, q[k]) == q[..k] + q[k + 1..]
  {
    assert q == q[..k] + [q[k]] + q[k + 1..];
    RemoveFirstAt(q[..k], q[k], q[k + 1..]);
  }

  /** The shared queue list. */
  class QueueStore {
    var items: seq<string>

    constructor ()
      ensures items == []
    {
      items := [];
    }

    /** LRANGE key 0 -1: the whole list, head first. */
    method Range() returns (r: seq<string>)
      ensures r == items
    {
      r := items;
    }

    /** LREM key 1 v. */
    method Remove(v: string)
      modifies this
      ensures items == RemoveFirst(old(items), v)
    {
      items := RemoveFirst(items, v);
    }

    /** RPUSH key v. */
    method Push(v: string)
      modifies this
      ensures items == old(items) + [v]
    {
      items := items + [v];
    }
  }
}
