/**
 Case-insensitive string comparison, as the host and operation lookups use it.

 The lookups call Go's `strings.EqualFold`. This module models it with ASCII
 case folding: two strings are equal under folding when they have the same
 length and agree character by character once every upper-case ASCII letter
 is mapped to its lower-case form.
 */
module Fold {

  /** An upper-case ASCII letter. */
  predicate IsUpper(c: char) {
    'A' <= c <= 'Z'
  }

  /** The ASCII lower-case form of `c`; characters other than 'A'..'Z' are left as they are. */
  function Lower(c: char): (r: char)
    ensures !IsUpper(r)
    ensures IsUpper(c) ==> 'a' <= r <= 'z' && r as int - c as int == 'a' as int - 'A' as int
    ensures !IsUpper(c) ==> r == c
  {
    if IsUpper(c) then (c as int - 'A' as int + 'a' as int) as char else c
  }

  /** Two characters fold together exactly when they are equal or differ only in ASCII case. */
  lemma LowerIdentifiesCase(c: char, d: char)
    ensures Lower(c) == Lower(d) <==>
      c == d ||
      (IsUpper(c) && d as int == c as int + 32) ||
      (IsUpper(d) && c as int == d as int + 32)
  {
  }

  /** The string `s` with every character folded to lower case. */
  function FoldString(s: string): (r: string)
    ensures |r| == |s|
    ensures forall i :: 0 <= i < |s| ==> r[i] == Lower(s[i])
  {
    seq(|s|, i requires 0 <= i < |s| => Lower(s[i]))
  }

  /**
   Case-insensitive equality of two strings (the model of `strings.EqualFold`):
   the same length, and the same characters position by position once both
   are lower-cased.
   */
  predicate EqualFold(s: string, t: string)
    ensures EqualFold(s, t) ==> |s| == |t|
    ensures EqualFold(s, t) <==> FoldString(s) == FoldString(t)
  {
    var b := |s| == |t| && forall i :: 0 <= i < |s| ==> Lower(s[i]) == Lower(t[i]);
    assert b ==> FoldString(s) == FoldString(t);
    assert FoldString(s) == FoldString(t) ==> forall i :: 0 <= i < |s| ==> FoldString(s)[i] == FoldString(t)[i];
    b
  }

  lemma EqualFoldReflexive(s: string)
    ensures EqualFold(s, s)
  {
  }

  lemma EqualFoldSymmetric(s: string, t: string)
    ensures EqualFold(s, t) <==> EqualFold(t, s)
  {
  }

  lemma EqualFoldTransitive(s: string, t: string, u: string)
    requires EqualFold(s, t) && EqualFold(t, u)
    ensures EqualFold(s, u)
  {
  }

  /**
   Replacing the query by one that equal-folds it changes no comparison
   against a stored name.
   */
  lemma EqualFoldSameQuery(name: string, q1: string, q2: string)
    requires EqualFold(q1, q2)
    ensures EqualFold(name, q1) <==> EqualFold(name, q2)
  {
    if EqualFold(name, q1) {
      EqualFoldTransitive(name, q1, q2);
    }
    if EqualFold(name, q2) {
      EqualFoldSymmetric(q1, q2);
      EqualFoldTransitive(name, q2, q1);
    }
  }
}
