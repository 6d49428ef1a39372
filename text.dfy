/**
 * The two string primitives the transient-error test relies on:
 * Python's `str.lower()` (restricted to ASCII letters) and the
 * substring test `sub in s`. Their meaning is stated in lemmas rather than
 * in the functions' own contracts, so that proofs which only mention the
 * functions do not carry the quantifiers along.
 */
module Text {

  predicate IsUpper(c: char) {
    'A' <= c <= 'Z'
  }

  function LowerChar(c: char): char {
    if IsUpper(c) then (c as int + 32) as char else c
  }

  /** `s.lower()`. */
  function Lower(s: string): string {
    if s == [] then [] else [LowerChar(s[0])] + Lower(s[1..])
  }

  /** Lower-casing keeps the length, maps every character by itself, and
      leaves no capital behind. */
  lemma {:induction false} LowerSpec(s: string)
    ensures |Lower(s)| == |s|
    ensures forall i :: 0 <= i < |s| ==> Lower(s)[i] == LowerChar(s[i])
    ensures forall i :: 0 <= i < |s| ==> !IsUpper(Lower(s)[i])
  {
    if s != [] {
      LowerSpec(s[1..]);
    }
  }

  /** Lower-casing twice is lower-casing once. */
  lemma LowerIdempotent(s: string)
    ensures Lower(Lower(s)) == Lower(s)
  {
    LowerSpec(s);
    LowerOfLower(Lower(s));
  }

  /** Lower-casing works character by character, so it distributes over concatenation. */
  lemma LowerConcat(a: string, b: string)
    ensures Lower(a + b) == Lower(a) + Lower(b)
  {
    LowerSpec(a + b);
    LowerSpec(a);
    LowerSpec(b);
    var l, r := Lower(a + b), Lower(a) + Lower(b);
    assert forall i :: 0 <= i < |a| ==> (a + b)[i] == a[i];
    assert forall i :: |a| <= i < |a + b| ==> (a + b)[i] == b[i - |a|];
    assert forall i :: 0 <= i < |l| ==> l[i] == r[i];
  }

  /** A string without capitals is its own lower-case form. */
  lemma LowerOfLower(s: string)
    requires forall i :: 0 <= i < |s| ==> !IsUpper(s[i])
    ensures Lower(s) == s
  {
    LowerSpec(s);
  }

  /** Lower-casing a given string, one character at a time. */
  lemma LowerLiteral(s: string, t: string)
    requires |s| == |t| && forall i :: 0 <= i < |s| ==> LowerChar(s[i]) == t[i]
    ensures Lower(s) == t
  {
    LowerSpec(s);
  }

  /** `sub` occurs in `s` starting at index `k`. */
  predicate OccursAt(s: string, sub: string, k: int) {
    0 <= k && k + |sub| <= |s| && s[k..k + |sub|] == sub
  }

  /** The declarative meaning of Python's `sub in s`. */
  ghost predicate Occurs(s: string, sub: string) {
    exists k :: OccursAt(s, sub, k)
  }

  /** Left-to-right search for `sub` in `s` from index `from` on. */
  function ContainsFrom(s: string, sub: string, from: nat): bool
    decreases |s| - from
  {
    if from + |sub| > |s| then false
    else if OccursAt(s, sub, from) then true
    else ContainsFrom(s, sub, from + 1)
  }

  /** The search finds `sub` exactly when it occurs at or after `from`. */
  lemma {:induction false} ContainsFromMeaning(s: string, sub: string, from: nat)
    decreases |s| - from
    ensures ContainsFrom(s, sub, from) <==> exists k :: from <= k && OccursAt(s, sub, k)
  {
    if from + |sub| <= |s| && !OccursAt(s, sub, from) {
      ContainsFromMeaning(s, sub, from + 1);
      assert forall k :: from <= k && OccursAt(s, sub, k) ==> from + 1 <= k;
    }
  }

  /** Python's `sub in s`. */
  function Contains(s: string, sub: string): bool {
    ContainsFrom(s, sub, 0)
  }

  lemma ContainsMeaning(s: string, sub: string)
    ensures Contains(s, sub) <==> Occurs(s, sub)
  {
    ContainsFromMeaning(s, sub, 0);
  }

  /** A string that holds a character `s` lacks does not occur in `s`. */
  lemma MissingCharBlocks(s: string, sub: string, j: nat)
    requires j < |sub| && sub[j] !in s
    ensures !Occurs(s, sub)
  {
  }

  /** An occurrence of `sub` in `s` is also an occurrence in any extension of `s`. */
  lemma OccursInExtension(s: string, sub: string, pre: string, post: string)
    requires Occurs(s, sub)
    ensures Occurs(pre + s + post, sub)
  {
    var k :| OccursAt(s, sub, k);
    var t := pre + s + post;
    assert t[|pre| + k..|pre| + k + |sub|] == s[k..k + |sub|];
    assert OccursAt(t, sub, |pre| + k);
  }
}
