/** Sequence operations the services use on arrays and on table rows:
    `findIndex`, `splice(k, 1)`, and "no entry twice". */
module Seqs {
  import opened Js

  /** `findIndex`: the first position whose element satisfies `p`, or absent
      (JavaScript's `-1`) when none does. */
  function FirstIndex<T>(s: seq<T>, p: T -> bool): (r: Option<nat>)
    ensures r.Some? ==> r.value < |s| && p(s[r.value])
    ensures r.Some? ==> forall j :: 0 <= j < r.value ==> !p(s[j])
    ensures r.None? <==> forall j :: 0 <= j < |s| ==> !p(s[j])
  {
    if |s| == 0 then None
    else if p(s[0]) then Some(0)
    else match FirstIndex(s[1..], p)
      case None => None
      case Some(k) => Some(k + 1)
  }

  /** `splice(k, 1)`: the sequence without its element at position `k`. */
  function RemoveAt<T>(s: seq<T>, k: nat): (r: seq<T>)
    requires k < |s|
    ensures |r| == |s| - 1
    ensures forall j :: 0 <= j < k ==> r[j] == s[j]
    ensures forall j :: k <= j < |r| ==> r[j] == s[j + 1]
  {
    s[..k] + s[k + 1..]
  }

  /** No element occurs twice. */
  predicate NoDuplicates<T(==)>(s: seq<T>)
  {
    forall i, j :: 0 <= i < j < |s| ==> s[i] != s[j]
  }

  /** Removing position `k` keeps every other element and loses `s[k]`
      altogether when it occurred only once. */
  lemma RemoveAtMembers<T>(s: seq<T>, k: nat, x: T)
    requires k < |s| && NoDuplicates(s)
    ensures x in RemoveAt(s, k) <==> x in s && x != s[k]
    ensures NoDuplicates(RemoveAt(s, k))
  {
    var r := RemoveAt(s, k);
    if x in r {
      var j :| 0 <= j < |r| && r[j] == x;
      if j < k { assert s[j] == x; } else { assert s[j + 1] == x; }
    }
    if x in s && x != s[k] {
      var j :| 0 <= j < |s| && s[j] == x;
      if j < k { assert r[j] == x; } else { assert r[j - 1] == x; }
    }
  }

  /** Writing a position and then writing its old value back restores the
      sequence. */
  lemma RestoreAfterUpdate<T>(s: seq<T>, i: nat, x: T)
    requires i < |s|
    ensures s[i := x][i := s[i]] == s
  {
  }
}
