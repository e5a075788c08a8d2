/** The text operations behind the ignore-case "containing" matcher of a query by example. */
module Strings {

  /** Lower-case folding of one character; only the ASCII letters A-Z are folded. */
  function Lower(c: char): (r: char)
    ensures 'A' <= c <= 'Z' ==> 'a' <= r <= 'z' && r as int - c as int == 32
    ensures !('A' <= c <= 'Z') ==> r == c
  {
    if 'A' <= c <= 'Z' then (c as int + 32) as char else c
  }

  /** Lower-case folding of a whole string, character by character. */
  function LowerAll(s: string): (r: string)
    ensures |r| == |s|
    ensures forall i :: 0 <= i < |s| ==> r[i] == Lower(s[i])
  {
    if s == [] then [] else [Lower(s[0])] + LowerAll(s[1..])
  }

  predicate IsPrefix(p: string, s: string) {
    |p| <= |s| && p == s[..|p|]
  }

  /** Does `t` occur in `s`? Tried at every starting position from the left. */
  function Contains(s: string, t: string): bool
  {
    IsPrefix(t, s) || (|s| > 0 && Contains(s[1..], t))
  }

  /** `t` sits in `s` starting at position `i`. */
  predicate OccursAt(s: string, t: string, i: int) {
    0 <= i <= |s| - |t| && s[i..i + |t|] == t
  }

  /** Every occurrence of `t` is found by `Contains`. */
  lemma {:induction false} OccursImpliesContains(s: string, t: string, i: int)
    requires OccursAt(s, t, i)
    ensures Contains(s, t)
  {
    if i == 0 {
      assert IsPrefix(t, s);
    } else {
      assert s[1..][i - 1..i - 1 + |t|] == s[i..i + |t|];
      OccursImpliesContains(s[1..], t, i - 1);
    }
  }

  /** Whatever `Contains` finds is an occurrence of `t`. */
  lemma {:induction false} ContainsImpliesOccurs(s: string, t: string)
    requires Contains(s, t)
    ensures exists i :: OccursAt(s, t, i)
  {
    if IsPrefix(t, s) {
      assert OccursAt(s, t, 0);
    } else {
      ContainsImpliesOccurs(s[1..], t);
      var i :| OccursAt(s[1..], t, i);
      assert s[i + 1..i + 1 + |t|] == s[1..][i..i + |t|];
      assert OccursAt(s, t, i + 1);
    }
  }

  /** `Contains` agrees with the definition of a substring: `t` sits at some position of `s`. */
  lemma ContainsIffOccurs(s: string, t: string)
    ensures Contains(s, t) <==> exists i :: OccursAt(s, t, i)
  {
    if Contains(s, t) {
      ContainsImpliesOccurs(s, t);
    }
    forall i | OccursAt(s, t, i)
      ensures Contains(s, t)
    {
      OccursImpliesContains(s, t, i);
    }
  }

  /** The empty string occurs in every string. */
  lemma ContainsEmpty(s: string)
    ensures Contains(s, [])
  {
    assert IsPrefix([], s);
  }

  /** Case-insensitive substring test: both sides folded before comparing. */
  predicate ContainsIgnoreCase(s: string, t: string)
  {
    Contains(LowerAll(s), LowerAll(t))
  }

  /** Folding an already folded string changes nothing. */
  lemma LowerAllIdempotent(s: string)
    ensures LowerAll(LowerAll(s)) == LowerAll(s)
  {
    var once := LowerAll(s);
    assert forall i :: 0 <= i < |s| ==> LowerAll(once)[i] == Lower(once[i]) == once[i];
  }

  /** The case of the probe and of the value makes no difference: folding either one first
      gives the same answer. */
  lemma IgnoreCaseIgnoresFolding(s: string, t: string)
    ensures ContainsIgnoreCase(s, LowerAll(t)) == ContainsIgnoreCase(s, t)
    ensures ContainsIgnoreCase(LowerAll(s), t) == ContainsIgnoreCase(s, t)
  {
    LowerAllIdempotent(s);
    LowerAllIdempotent(t);
  }
}
