/** The contents of a linked list as a sequence of block addresses; 0 is NULL. */
module LinkedList {
  function Head(list: seq<nat>): nat {
    if list == [] then 0 else list[0]
  }

  function Next(list: seq<nat>, k: nat): nat {
    if k + 1 < |list| then list[k + 1] else 0
  }

  function Prev(list: seq<nat>, k: nat): nat {
    if 0 < k <= |list| then list[k - 1] else 0
  }

  ghost predicate Distinct(list: seq<nat>) {
    forall j, k | 0 <= j < k < |list| :: list[j] != list[k]
  }

  function Without(list: seq<nat>, k: nat): (r: seq<nat>)
    requires k < |list|
    ensures |r| == |list| - 1
    ensures forall j | 0 <= j < |r| :: r[j] == if j < k then list[j] else list[j + 1]
  {
    list[..k] + list[k + 1..]
  }

  lemma WithoutMembers(list: seq<nat>, k: nat)
    requires k < |list| && Distinct(list)
    ensures Distinct(Without(list, k)) && forall a :: a in Without(list, k) <==> a in list && a != list[k]
  {
  }
}
