/**
 `ByName`: the sort adapter over a slice of hosts. The slice shares its
 backing array with the caller, so Swap changes the caller's hosts in place;
 the array here is that backing array.
 */
module ByName {
  import opened Registry
  import opened Order

  /** Len: the number of hosts in the slice. */
  function Len(x: array<HostConfig>): (n: int)
    ensures n == x.Length && n >= 0
  {
    x.Length
  }

  /**
   Swap: exchanges the hosts at positions `i` and `j` and leaves every other
   position as it was; the hosts are a permutation of the old ones.
   */
  method Swap(x: array<HostConfig>, i: int, j: int)
    requires 0 <= i < x.Length && 0 <= j < x.Length
    modifies x
    ensures x[..] == Swapped(old(x[..]), i, j)
    ensures multiset(x[..]) == multiset(old(x[..]))
  {
    x[i], x[j] := x[j], x[i];
    SwappedPermutes(old(x[..]), i, j);
  }

  /**
   Less: host `i` sorts before host `j` by a case-sensitive comparison of
   their names; it is a strict order on positions.
   */
  function Less(x: array<HostConfig>, i: int, j: int): (b: bool)
    requires 0 <= i < x.Length && 0 <= j < x.Length
    reads x
    ensures x[i].name == x[j].name ==> !b
    ensures b ==> !StringLess(x[j].name, x[i].name)
    ensures x[i].name != x[j].name ==> b || StringLess(x[j].name, x[i].name)
  {
    StringLessIrreflexive(x[i].name);
    StringLessAsymmetric(x[i].name, x[j].name);
    StringLessTotal(x[i].name, x[j].name);
    StringLess(x[i].name, x[j].name)
  }

  /** Less is transitive on positions, so it is a strict order on the hosts. */
  lemma LessTransitive(x: array<HostConfig>, i: int, j: int, k: int)
    requires 0 <= i < x.Length && 0 <= j < x.Length && 0 <= k < x.Length
    requires Less(x, i, j) && Less(x, j, k)
    ensures Less(x, i, k)
  {
    StringLessTransitive(x[i].name, x[j].name, x[k].name);
  }
}

/**
 `OperationsByName`: the sort adapter over a slice of operations, with the
 same three primitives as `ByName`.
 */
module OperationsByName {
  import opened Registry
  import opened Order

  /** Len: the number of operations in the slice. */
  function Len(x: array<Operation>): (n: int)
    ensures n == x.Length && n >= 0
  {
    x.Length
  }

  /**
   Swap: exchanges the operations at positions `i` and `j` and leaves every
   other position as it was; the operations are a permutation of the old ones.
   */
  method Swap(x: array<Operation>, i: int, j: int)
    requires 0 <= i < x.Length && 0 <= j < x.Length
    modifies x
    ensures x[..] == Swapped(old(x[..]), i, j)
    ensures multiset(x[..]) == multiset(old(x[..]))
  {
    x[i], x[j] := x[j], x[i];
    SwappedPermutes(old(x[..]), i, j);
  }

  /**
   Less: operation `i` sorts before operation `j` by a case-sensitive
   comparison of their names; it is a strict order on positions.
   */
  function Less(x: array<Operation>, i: int, j: int): (b: bool)
    requires 0 <= i < x.Length && 0 <= j < x.Length
    reads x
    ensures x[i].name == x[j].name ==> !b
    ensures b ==> !StringLess(x[j].name, x[i].name)
    ensures x[i].name != x[j].name ==> b || StringLess(x[j].name, x[i].name)
  {
    StringLessIrreflexive(x[i].name);
    StringLessAsymmetric(x[i].name, x[j].name);
    StringLessTotal(x[i].name, x[j].name);
    StringLess(x[i].name, x[j].name)
  }

  /** Less is transitive on positions, so it is a strict order on the operations. */
  lemma LessTransitive(x: array<Operation>, i: int, j: int, k: int)
    requires 0 <= i < x.Length && 0 <= j < x.Length && 0 <= k < x.Length
    requires Less(x, i, j) && Less(x, j, k)
    ensures Less(x, i, k)
  {
    StringLessTransitive(x[i].name, x[j].name, x[k].name);
  }
}
