/**
 The two primitives the sort adapters are built on: the case-sensitive
 string order of `Less`, and the exchange of two positions done by `Swap`.

 Go compares strings byte by byte. The strings here are sequences of Unicode
 scalar values, and UTF-8 encoding preserves their order, so comparing
 character codes gives the same answer.
 */
module Order {

  /**
   `a` sorts before `b` because they first differ at position `k`: the
   prefixes of length `k` agree, and either `a` ends there while `b` goes on,
   or both go on and `a` has the smaller character there.
   */
  ghost predicate FirstDifferenceAt(a: string, b: string, k: int) {
    0 <= k <= |a| && k <= |b| && a[..k] == b[..k] &&
    ((k == |a| && k < |b|) || (k < |a| && k < |b| && a[k] < b[k]))
  }

  /**
   Lexicographic strict order on strings (Go's `<` on `string`): compare up
   to the first difference, and a proper prefix sorts first.
   */
  predicate StringLess(a: string, b: string)
    ensures StringLess(a, b) <==> exists k :: FirstDifferenceAt(a, b, k)
    decreases |a|
  {
    if |a| == 0 || |b| == 0 || a[0] != b[0] then
      FirstDifferenceBase(a, b);
      if |a| == 0 then |b| > 0
      else if |b| == 0 then false
      else a[0] < b[0]
    else
      FirstDifferenceShift(a, b);
      StringLess(a[1..], b[1..])
  }

  /** When the strings differ at their first position, or one is empty, the first difference is there. */
  lemma FirstDifferenceBase(a: string, b: string)
    requires |a| == 0 || |b| == 0 || a[0] != b[0]
    ensures (exists k :: FirstDifferenceAt(a, b, k)) <==>
      if |a| == 0 then |b| > 0 else if |b| == 0 then false else a[0] < b[0]
  {
    if |a| == 0 && |b| > 0 {
      assert FirstDifferenceAt(a, b, 0);
    } else if |a| > 0 && |b| > 0 && a[0] < b[0] {
      assert FirstDifferenceAt(a, b, 0);
    }
  }

  /** Dropping a common first character moves the first difference one position left. */
  lemma FirstDifferenceShift(a: string, b: string)
    requires |a| > 0 && |b| > 0 && a[0] == b[0]
    ensures (exists k :: FirstDifferenceAt(a, b, k)) <==> (exists k :: FirstDifferenceAt(a[1..], b[1..], k))
  {
    forall k | FirstDifferenceAt(a, b, k)
      ensures FirstDifferenceAt(a[1..], b[1..], k - 1)
    {
      assert k > 0;
      assert a[1..][..k - 1] == a[..k][1..] && b[1..][..k - 1] == b[..k][1..];
    }
    forall k | FirstDifferenceAt(a[1..], b[1..], k)
      ensures FirstDifferenceAt(a, b, k + 1)
    {
      assert a[..k + 1] == [a[0]] + a[1..][..k] && b[..k + 1] == [b[0]] + b[1..][..k];
    }
    if exists k :: FirstDifferenceAt(a, b, k) {
      var k :| FirstDifferenceAt(a, b, k);
      assert FirstDifferenceAt(a[1..], b[1..], k - 1);
    }
    if exists k :: FirstDifferenceAt(a[1..], b[1..], k) {
      var k :| FirstDifferenceAt(a[1..], b[1..], k);
      assert FirstDifferenceAt(a, b, k + 1);
    }
  }

  lemma {:induction false} StringLessIrreflexive(a: string)
    ensures !StringLess(a, a)
    decreases |a|
  {
    if |a| > 0 {
      StringLessIrreflexive(a[1..]);
    }
  }

  lemma {:induction false} StringLessAsymmetric(a: string, b: string)
    ensures StringLess(a, b) ==> !StringLess(b, a)
    decreases |a|
  {
    if |a| > 0 && |b| > 0 && a[0] == b[0] {
      StringLessAsymmetric(a[1..], b[1..]);
    }
  }

  lemma {:induction false} StringLessTransitive(a: string, b: string, c: string)
    requires StringLess(a, b) && StringLess(b, c)
    ensures StringLess(a, c)
    decreases |a|
  {
    if |a| > 0 && a[0] == b[0] && b[0] == c[0] {
      StringLessTransitive(a[1..], b[1..], c[1..]);
    }
  }

  /** Any two different strings are ordered one way or the other. */
  lemma {:induction false} StringLessTotal(a: string, b: string)
    ensures a == b || StringLess(a, b) || StringLess(b, a)
    decreases |a|
  {
    if |a| > 0 && |b| > 0 && a[0] == b[0] {
      assert a == [a[0]] + a[1..] && b == [b[0]] + b[1..];
      StringLessTotal(a[1..], b[1..]);
    }
  }

  /**
   The order is case-sensitive: every upper-case ASCII letter sorts before
   every lower-case one, so "B" precedes "a" and "A" precedes "a" although
   "A" and "a" are the same name to the lookups.
   */
  lemma UpperBeforeLower(u: char, l: char)
    requires 'A' <= u <= 'Z' && 'a' <= l <= 'z'
    ensures StringLess([u], [l])
    ensures !StringLess([l], [u])
  {
  }

  /** `s` with the elements at positions `i` and `j` exchanged. */
  function Swapped<T>(s: seq<T>, i: nat, j: nat): (r: seq<T>)
    requires i < |s| && j < |s|
    ensures |r| == |s|
    ensures r[i] == s[j] && r[j] == s[i]
    ensures forall k :: 0 <= k < |s| && k != i && k != j ==> r[k] == s[k]
  {
    s[i := s[j]][j := s[i]]
  }

  /** Exchanging two positions neither adds nor drops an element. */
  lemma SwappedPermutes<T>(s: seq<T>, i: nat, j: nat)
    requires i < |s| && j < |s|
    ensures multiset(Swapped(s, i, j)) == multiset(s)
  {
    var t := s[i := s[j]];
    assert multiset(t) == multiset(s) - multiset{s[i]} + multiset{s[j]};
    assert multiset(t[j := s[i]]) == multiset(t) - multiset{t[j]} + multiset{s[i]};
  }

  /** Exchanging the same two positions twice restores the sequence. */
  lemma SwappedTwice<T>(s: seq<T>, i: nat, j: nat)
    requires i < |s| && j < |s|
    ensures Swapped(Swapped(s, i, j), i, j) == s
  {
  }
}
