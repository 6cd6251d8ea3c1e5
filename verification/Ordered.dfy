/** Least elements, and the ascending order of a set. */
module Ordered {
  function Min(entries: set<int>): (m: int)
    requires entries != {}
    ensures m in entries && forall e :: e in entries ==> m <= e
  {
    HasMin(entries);
    var m :| m in entries && forall e :: e in entries ==> m <= e;
    m
  }

  lemma {:induction false} HasMin(entries: set<int>)
    requires entries != {}
    ensures exists m :: m in entries && forall e :: e in entries ==> m <= e
  {
    assert exists x :: x in entries by { assert (forall x :: x !in entries) ==> entries == {}; }
    var x :| x in entries;
    var rest := entries - {x};
    assert entries == rest + {x};
    if rest != {} {
      HasMin(rest);
      var m :| m in rest && forall e :: e in rest ==> m <= e;
      var least := if x < m then x else m;
      assert least in entries && forall e :: e in entries ==> least <= e;
    }
  }

  /** `ORDER BY id`. */
  function Ascending(ids: set<int>): seq<int>
    decreases |ids|
  {
    if ids == {} then [] else [Min(ids)] + Ascending(ids - {Min(ids)})
  }

  predicate Increasing(s: seq<int>) { forall i, j :: 0 <= i < j < |s| ==> s[i] < s[j] }

  lemma {:induction false} AscendingHolds(ids: set<int>)
    ensures forall x :: x in Ascending(ids) <==> x in ids
    ensures Increasing(Ascending(ids))
    decreases |ids|
  {
    if ids != {} {
      var m := Min(ids);
      var rest := Ascending(ids - {m});
      AscendingHolds(ids - {m});
      assert forall x :: x in rest ==> m < x;
      PrependLeast(m, rest);
      assert forall x :: x in [m] + rest <==> x == m || x in rest;
    }
  }

  lemma PrependLeast(m: int, rest: seq<int>)
    requires Increasing(rest) && forall x :: x in rest ==> m < x
    ensures Increasing([m] + rest)
  {
    forall i, j | 0 <= i < j < |[m] + rest| ensures ([m] + rest)[i] < ([m] + rest)[j] {
      assert rest[j - 1] in rest;
    }
  }

  function Above(ids: set<int>, last: int): set<int> { set id | id in ids && id > last }

  /** The elements above the n-th are the rest of the order. */
  lemma {:induction false} AscendingTail(ids: set<int>, n: nat)
    requires 1 <= n <= |Ascending(ids)|
    ensures Ascending(Above(ids, Ascending(ids)[n - 1])) == Ascending(ids)[n..]
    decreases n
  {
    var m := Min(ids);
    var rest := ids - {m};
    var tail := Ascending(rest);
    assert Ascending(ids) == [m] + tail;
    if n == 1 {
      assert Above(ids, m) == rest;
    } else {
      AscendingHolds(rest);
      assert tail[n - 2] in tail;
      assert Above(ids, tail[n - 2]) == Above(rest, tail[n - 2]);
      AscendingTail(rest, n - 1);
    }
  }
}
