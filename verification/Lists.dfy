/** Lists without repetitions. */
module Lists {
  /** The list without one element. */
  function Retain<T(==)>(list: seq<T>, x: T): seq<T> {
    if list == [] then []
    else if list[0] == x then Retain(list[1..], x)
    else [list[0]] + Retain(list[1..], x)
  }

  ghost predicate Differ<T>(list: seq<T>, i: int, j: int) {
    0 <= i < |list| && 0 <= j < |list| ==> list[i] != list[j]
  }

  ghost predicate Distinct<T>(list: seq<T>) {
    forall i, j {:trigger Differ(list, i, j)} :: i != j ==> Differ(list, i, j)
  }

  /** The first element does not occur again, and so on. */
  lemma DistinctFirst<T>(list: seq<T>)
    requires list != []
    ensures Distinct(list) <==> list[0] !in list[1..] && Distinct(list[1..])
  {
    var rest := list[1..];
    if Distinct(list) {
      forall i, j | i != j
        ensures Differ(rest, i, j)
      {
        assert Differ(list, i + 1, j + 1);
      }
      forall k | 0 <= k < |rest|
        ensures rest[k] != list[0]
      {
        assert Differ(list, k + 1, 0);
      }
    }
    if list[0] !in rest && Distinct(rest) {
      forall i, j | i != j
        ensures Differ(list, i, j)
      {
        assert Differ(rest, i - 1, j - 1);
        assert 0 < i < |list| ==> list[i] == rest[i - 1];
        assert 0 < j < |list| ==> list[j] == rest[j - 1];
      }
    }
  }

  lemma {:induction false} RetainMembers<T>(list: seq<T>, x: T)
    ensures forall y :: y in Retain(list, x) <==> y in list && y != x
  {
    if list != [] {
      RetainMembers(list[1..], x);
      assert forall y :: y in list <==> y == list[0] || y in list[1..];
    }
  }

  lemma {:induction false} RetainAbsent<T>(list: seq<T>, x: T)
    requires x !in list
    ensures Retain(list, x) == list
  {
    if list != [] {
      RetainAbsent(list[1..], x);
      assert [list[0]] + list[1..] == list;
    }
  }

  lemma {:induction false} RetainDistinct<T>(list: seq<T>, x: T)
    requires Distinct(list)
    ensures Distinct(Retain(list, x))
  {
    if list != [] {
      hide Distinct;
      var r := Retain(list[1..], x);
      DistinctFirst(list);
      RetainDistinct(list[1..], x);
      RetainMembers(list[1..], x);
      assert ([list[0]] + r)[1..] == r;
      DistinctFirst([list[0]] + r);
    }
  }

  lemma {:induction false} PushDistinct<T>(list: seq<T>, x: T)
    requires Distinct(list) && x !in list
    ensures Distinct(list + [x])
  {
    if list != [] {
      hide Distinct;
      DistinctFirst(list);
      PushDistinct(list[1..], x);
      assert (list + [x])[1..] == list[1..] + [x];
      DistinctFirst(list + [x]);
    }
  }
}
