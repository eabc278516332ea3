/**
 * String helpers the dashboard relies on: lower-casing (`toLowerCase`) and
 * substring search (`includes`). Lower-casing is modelled on ASCII letters
 * only.
 */
module Text {

  predicate IsUpper(c: char) {
    'A' <= c <= 'Z'
  }

  function LowerChar(c: char): char {
    if IsUpper(c) then (c as int + 32) as char else c
  }

  /** `s.toLowerCase()`: same length, no upper-case letter left, and every
      character equal to the original one up to case. */
  function Lower(s: string): (r: string)
    ensures |r| == |s|
    ensures forall i | 0 <= i < |r| :: !IsUpper(r[i]) && LowerChar(r[i]) == LowerChar(s[i])
  {
    if s == [] then [] else [LowerChar(s[0])] + Lower(s[1..])
  }

  /** The character of `Lower(s)` at `k` is the lower-cased character of `s`. */
  lemma LowerAt(s: string, k: nat)
    requires k < |s|
    ensures Lower(s)[k] == LowerChar(s[k])
  {
    var r := Lower(s);
    assert !IsUpper(r[k]) && LowerChar(r[k]) == LowerChar(s[k]);
  }

  /** Lower-casing commutes with taking a slice. */
  lemma LowerSlice(s: string, i: nat, j: nat)
    requires i <= j <= |s|
    ensures Lower(s)[i..j] == Lower(s[i..j])
  {
    var a, b := Lower(s)[i..j], Lower(s[i..j]);
    assert |a| == |b| == j - i;
    forall k | 0 <= k < j - i ensures a[k] == b[k] {
      LowerAt(s, i + k);
      LowerAt(s[i..j], k);
    }
  }

  /** `k` occurs in `s` starting at index `i`. */
  predicate OccursAt(s: string, k: string, i: nat) {
    i + |k| <= |s| && s[i..i + |k|] == k
  }

  /** `s.includes(k)`: `k` is a prefix of some suffix of `s`. */
  predicate Contains(s: string, k: string)
    ensures Contains(s, k) ==> |k| <= |s|
    decreases |s|
  {
    k <= s || (s != [] && Contains(s[1..], k))
  }

  /** `Contains` holds exactly when `k` occurs at some position of `s`. */
  lemma {:induction false} ContainsIffOccurs(s: string, k: string)
    ensures Contains(s, k) <==> exists i: nat :: OccursAt(s, k, i)
    decreases |s|
  {
    if k <= s {
      assert OccursAt(s, k, 0);
    } else if s == [] {
    } else {
      ContainsIffOccurs(s[1..], k);
      if Contains(s[1..], k) {
        var i: nat :| OccursAt(s[1..], k, i);
        assert s[1..][i..i + |k|] == s[i + 1..i + 1 + |k|];
        assert OccursAt(s, k, i + 1);
      }
      if i: nat :| OccursAt(s, k, i) && i > 0 {
        assert s[1..][i - 1..i - 1 + |k|] == s[i..i + |k|];
        assert OccursAt(s[1..], k, i - 1);
      }
    }
  }

  /** Every string contains the empty string. */
  lemma ContainsEmpty(s: string)
    ensures Contains(s, "")
  {
    assert [] <= s;
  }

  /** A case-sensitive occurrence is also a case-insensitive one. */
  lemma {:induction false} ContainsLowered(s: string, k: string)
    requires Contains(s, k)
    ensures Contains(Lower(s), Lower(k))
    decreases |s|
  {
    if k <= s {
      LowerSlice(s, 0, |k|);
      assert s[..|k|] == k;
      assert Lower(k) <= Lower(s);
    } else {
      ContainsLowered(s[1..], k);
      LowerSlice(s, 1, |s|);
      assert Lower(s)[1..] == Lower(s[1..]);
    }
  }

  /** Lower-casing twice is lower-casing once. */
  lemma LowerIdempotent(s: string)
    ensures Lower(Lower(s)) == Lower(s)
  {
    var a, b := Lower(Lower(s)), Lower(s);
    forall i | 0 <= i < |a| ensures a[i] == b[i] {
      LowerAt(b, i);
      LowerAt(s, i);
    }
  }
}
