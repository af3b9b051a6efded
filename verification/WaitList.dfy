/** Wait lists as sequences: putting someone in, taking someone out, and who stands before
    whom. */
module WaitList {
  ghost predicate Distinct<T(!new)>(ts: seq<T>) {
    forall i, j :: 0 <= i < j < |ts| ==> ts[i] != ts[j]
  }

  function Insert<T>(ts: seq<T>, k: nat, t: T): seq<T>
    requires k <= |ts|
  {
    ts[..k] + [t] + ts[k..]
  }

  function Without<T(==)>(ts: seq<T>, t: T): seq<T> {
    if ts == [] then [] else if ts[0] == t then ts[1..] else [ts[0]] + Without(ts[1..], t)
  }

  /** `a` stands somewhere before `b`. */
  ghost predicate Before<T(!new)>(ts: seq<T>, a: T, b: T) {
    exists i, j :: 0 <= i < j < |ts| && ts[i] == a && ts[j] == b
  }

  lemma InsertAt<T>(ts: seq<T>, k: nat, t: T)
    requires k <= |ts|
    ensures |Insert(ts, k, t)| == |ts| + 1
    ensures forall i :: 0 <= i < |ts| + 1 ==> Insert(ts, k, t)[i] == if i < k then ts[i] else if i == k then t else ts[i - 1]
  {
  }

  lemma InsertIs<T(!new)>(ts: seq<T>, k: nat, t: T)
    requires k <= |ts|
    ensures forall x :: x in Insert(ts, k, t) <==> x == t || x in ts
    ensures Distinct(ts) && t !in ts ==> Distinct(Insert(ts, k, t))
  {
    var r := Insert(ts, k, t);
    InsertAt(ts, k, t);
    assert r[k] == t;
    forall x | x in ts ensures x in r {
      var i :| 0 <= i < |ts| && ts[i] == x;
      assert r[if i < k then i else i + 1] == x;
    }
  }

  lemma InsertKeepsOrder<T(!new)>(ts: seq<T>, k: nat, t: T, a: T, b: T)
    requires k <= |ts| && Before(ts, a, b)
    ensures Before(Insert(ts, k, t), a, b)
  {
    InsertAt(ts, k, t);
    var i, j :| 0 <= i < j < |ts| && ts[i] == a && ts[j] == b;
    var r, i', j' := Insert(ts, k, t), if i < k then i else i + 1, if j < k then j else j + 1;
    assert r[i'] == a && r[j'] == b;
  }

  lemma {:induction false} WithoutIs<T(!new)>(ts: seq<T>, t: T)
    requires Distinct(ts)
    ensures forall x :: x in Without(ts, t) <==> x in ts && x != t
    ensures Distinct(Without(ts, t))
  {
    if ts != [] {
      WithoutIs(ts[1..], t);
      assert ts == [ts[0]] + ts[1..];
      assert ts[0] !in ts[1..];
    }
  }

  lemma {:induction false} WithoutWithin<T(!new)>(ts: seq<T>, t: T)
    ensures forall x :: x in Without(ts, t) ==> x in ts
  {
    if ts != [] {
      WithoutWithin(ts[1..], t);
      assert ts == [ts[0]] + ts[1..];
    }
  }

  lemma WithoutAbsent<T>(ts: seq<T>, t: T)
    requires t !in ts
    ensures Without(ts, t) == ts
  {
  }

  /** Whoever leaves, the others keep their places relative to each other. */
  lemma {:induction false} WithoutKeepsOrder<T(!new)>(ts: seq<T>, t: T, a: T, b: T)
    requires Before(ts, a, b) && a != t && b != t
    ensures Before(Without(ts, t), a, b)
  {
    var i, j :| 0 <= i < j < |ts| && ts[i] == a && ts[j] == b;
    var tail := ts[1..];
    assert tail[j - 1] == b && (i > 0 ==> tail[i - 1] == a);
    if ts[0] != t {
      var w := Without(tail, t);
      if i > 0 {
        assert Before(tail, a, b);
        WithoutKeepsOrder(tail, t, a, b);
        var p, q :| 0 <= p < q < |w| && w[p] == a && w[q] == b;
        assert ([a] + w)[p + 1] == a;
        assert ([ts[0]] + w)[p + 1] == a && ([ts[0]] + w)[q + 1] == b;
      } else {
        WithoutKeeps(tail, t, b);
        var q :| 0 <= q < |w| && w[q] == b;
        assert ([a] + w)[0] == a && ([a] + w)[q + 1] == b;
      }
    } else {
      assert Without(ts, t) == tail && i > 0;
    }
  }

  lemma {:induction false} WithoutKeeps<T(!new)>(ts: seq<T>, t: T, x: T)
    requires x in ts && x != t
    ensures x in Without(ts, t)
  {
    if ts[0] != t && ts[0] != x { WithoutKeeps(ts[1..], t, x); }
  }
}
