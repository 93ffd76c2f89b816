/** The ordered index behind each storage. The source keeps records in a
    B-tree ordered by id; the model keeps the ids in a strictly increasing
    sequence beside the map from id to record, and this module holds the
    operations on that sequence and the facts that tie it to the key set. */
module OrderedIndex {

  predicate Increasing(ids: seq<nat>)
  {
    forall i, j :: 0 <= i < j < |ids| ==> ids[i] < ids[j]
  }

  /** Adds `id` at its place in the order; an id already present is kept once. */
  function Insert(ids: seq<nat>, id: nat): (r: seq<nat>)
    requires Increasing(ids)
    ensures Increasing(r)
    ensures forall x :: x in r <==> x in ids || x == id
    ensures id in ids ==> r == ids
    ensures id !in ids ==> |r| == |ids| + 1
  {
    if ids == [] then [id]
    else
      TailAbove(ids);
      assert ids == [ids[0]] + ids[1..];
      if id < ids[0] then Prepend(id, ids); [id] + ids
      else if id == ids[0] then ids
      else
        var rest := Insert(ids[1..], id);
        Prepend(ids[0], rest);
        [ids[0]] + rest
  }

  /** Takes `id` out of the order; an absent id changes nothing. */
  function Remove(ids: seq<nat>, id: nat): (r: seq<nat>)
    requires Increasing(ids)
    ensures Increasing(r)
    ensures forall x :: x in r <==> x in ids && x != id
    ensures id in ids ==> |r| == |ids| - 1
    ensures id !in ids ==> r == ids
  {
    if ids == [] then []
    else
      TailAbove(ids);
      assert ids == [ids[0]] + ids[1..];
      if ids[0] == id then ids[1..]
      else
        var rest := Remove(ids[1..], id);
        Prepend(ids[0], rest);
        [ids[0]] + rest
  }

  /** The ids after the first are increasing and all above it. */
  lemma TailAbove(ids: seq<nat>)
    requires Increasing(ids) && ids != []
    ensures Increasing(ids[1..])
    ensures forall x :: x in ids[1..] ==> ids[0] < x
  {
    forall x | x in ids[1..] ensures ids[0] < x {
      var j :| 0 <= j < |ids| - 1 && ids[1..][j] == x;
      assert ids[j + 1] == x;
    }
  }

  /** An id below every member of an increasing sequence can go first. */
  lemma Prepend(h: nat, rest: seq<nat>)
    requires Increasing(rest) && forall x :: x in rest ==> h < x
    ensures Increasing([h] + rest)
  {
    forall i, j | 0 <= i < j < |[h] + rest| ensures ([h] + rest)[i] < ([h] + rest)[j] {
      if i == 0 {
        assert ([h] + rest)[j] == rest[j - 1] && rest[j - 1] in rest;
      } else {
        assert ([h] + rest)[i] == rest[i - 1] && ([h] + rest)[j] == rest[j - 1];
      }
    }
  }

  /** An increasing sequence holds as many ids as the set it lists. */
  lemma {:induction false} CountIsSize(ids: seq<nat>, keys: set<nat>)
    requires Increasing(ids)
    requires forall x :: x in ids <==> x in keys
    ensures |ids| == |keys|
  {
    if ids != [] {
      var rest := keys - {ids[0]};
      forall x ensures x in ids[1..] <==> x in rest {
        if x in ids[1..] {
          var j :| 0 <= j < |ids[1..]| && ids[1..][j] == x;
          assert ids[j + 1] == x;
        }
        if x in rest {
          var j :| 0 <= j < |ids| && ids[j] == x;
          assert j != 0;
          assert ids[1..][j - 1] == x;
        }
      }
      CountIsSize(ids[1..], rest);
    }
  }

  /** Two increasing sequences with the same elements are equal: the order
      is fixed by the key set alone. */
  lemma {:induction false} IncreasingUnique(a: seq<nat>, b: seq<nat>)
    requires Increasing(a) && Increasing(b)
    requires forall x :: x in a <==> x in b
    ensures a == b
  {
    var keys := set x | x in a;
    CountIsSize(a, keys);
    CountIsSize(b, keys);
    if a != [] {
      assert b != [] by { assert a[0] in b; }
      assert a[0] == b[0] by {
        assert a[0] in b && b[0] in a;
        var i :| 0 <= i < |b| && b[i] == a[0];
        var j :| 0 <= j < |a| && a[j] == b[0];
        assert b[0] <= b[i] && a[0] <= a[j];
      }
      forall x ensures x in a[1..] <==> x in b[1..] {
        if x in a[1..] {
          var j :| 0 <= j < |a| - 1 && a[1..][j] == x;
          assert a[j + 1] == x && x != a[0];
          assert x in b;
          var k :| 0 <= k < |b| && b[k] == x;
          assert k != 0;
          assert b[1..][k - 1] == x;
        }
        if x in b[1..] {
          var j :| 0 <= j < |b| - 1 && b[1..][j] == x;
          assert b[j + 1] == x && x != b[0];
          assert x in a;
          var k :| 0 <= k < |a| && a[k] == x;
          assert k != 0;
          assert a[1..][k - 1] == x;
        }
      }
      IncreasingUnique(a[1..], b[1..]);
    }
  }

  /** The least id of a non-empty key set. */
  ghost function MinOf(keys: set<nat>): (m: nat)
    requires keys != {}
    ensures m in keys && forall x :: x in keys ==> m <= x
    decreases keys
  {
    var y :| y in keys;
    if keys == {y} then y
    else
      var m := MinOf(keys - {y});
      assert forall x :: x in keys ==> x == y || x in keys - {y};
      if y < m then y else m
  }

  /** The ids of a key set in ascending order: what a full ascending
      traversal of the B-tree visits. */
  ghost function SortedIds(keys: set<nat>): (r: seq<nat>)
    ensures Increasing(r)
    ensures forall x :: x in r <==> x in keys
    decreases keys
  {
    if keys == {} then []
    else
      var m := MinOf(keys);
      var rest := SortedIds(keys - {m});
      assert forall x :: x in rest ==> m < x;
      [m] + rest
  }

  /** The values of `m` listed in the order of `ids`. */
  function InOrder<V>(ids: seq<nat>, m: map<nat, V>): (r: seq<V>)
    requires forall x :: x in ids ==> x in m
    ensures |r| == |ids|
    ensures forall i :: 0 <= i < |ids| ==> r[i] == m[ids[i]]
  {
    seq(|ids|, i requires 0 <= i < |ids| => m[ids[i]])
  }

  function Reverse<T>(s: seq<T>): (r: seq<T>)
    ensures |r| == |s|
    ensures forall i :: 0 <= i < |s| ==> r[i] == s[|s| - 1 - i]
  {
    seq(|s|, i requires 0 <= i < |s| => s[|s| - 1 - i])
  }
}
