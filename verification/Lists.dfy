// Sequences standing for the kernel's linked lists.
module Lists {

  // No node is on the list twice.
  ghost predicate Distinct<T>(s: seq<T>) {
    forall i, j :: 0 <= i < j < |s| ==> s[i] != s[j]
  }

  lemma {:induction false} DistinctOnce<T>(s: seq<T>, x: T)
    requires Distinct(s)
    ensures multiset(s)[x] == if x in s then 1 else 0
  {
    if s != [] {
      DistinctOnce(s[1..], x);
      assert s == [s[0]] + s[1..];
    }
  }

  // The list without node x (list_del, LL_DEL).
  function Remove<T(==)>(s: seq<T>, x: T): (r: seq<T>)
    ensures forall y :: y in r ==> y in s
    ensures forall y :: y in s && y != x ==> y in r
    ensures x !in s ==> r == s
  {
    if s == [] then [] else if s[0] == x then s[1..] else [s[0]] + Remove(s[1..], x)
  }

  lemma {:induction false} RemoveDistinct<T>(s: seq<T>, x: T)
    requires Distinct(s)
    ensures Distinct(Remove(s, x)) && x !in Remove(s, x)
    ensures |Remove(s, x)| == if x in s then |s| - 1 else |s|
  {
    if s != [] && s[0] != x {
      RemoveDistinct(s[1..], x);
      assert s[0] !in s[1..];
    }
  }

  lemma TailMembers<T>(s: seq<T>)
    requires Distinct(s) && s != []
    ensures forall y :: y in s[1..] <==> y in s && y != s[0]
  {
    assert s == [s[0]] + s[1..];
  }

  // The list with a new node at place k.
  function Insert<T>(s: seq<T>, k: nat, a: T): seq<T>
    requires k <= |s|
  {
    s[..k] + [a] + s[k..]
  }

  lemma Shifted<T>(s: seq<T>, k: nat, a: T, t: seq<T>)
    requires k <= |s| && t == Insert(s, k, a)
    ensures |t| == |s| + 1 && t[k] == a
    ensures forall i {:trigger t[i]} :: 0 <= i < |t| && i != k ==> t[i] == s[if i < k then i else i - 1]
  {}
}
