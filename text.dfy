/**
 * String tests the repositories rely on. Comparisons are ordinal and
 * case-sensitive: a database collation is not modelled.
 */
module Text {
  import opened Wrappers

  /** `char.IsWhiteSpace`: the Unicode space separators, line and paragraph separators, and the controls U+0009 to U+000D and U+0085. */
  predicate IsWhiteSpace(c: char)
  {
    || c == ' ' || '\t' <= c <= '\r' || c == '\U{0085}' || c == '\U{00A0}'
    || c == '\U{1680}' || '\U{2000}' <= c <= '\U{200A}' || c == '\U{2028}'
    || c == '\U{2029}' || c == '\U{202F}' || c == '\U{205F}' || c == '\U{3000}'
  }

  /** `string.IsNullOrWhiteSpace`: a null string, or one made of white space only (the empty string included). */
  predicate IsNullOrWhiteSpace(s: Option<string>)
  {
    s.None? || forall i :: 0 <= i < |s.value| ==> IsWhiteSpace(s.value[i])
  }

  /** `string.Contains`: `k` occurs in `s`, found by trying each start position in turn. */
  function Contains(s: string, k: string): (r: bool)
    decreases |s|
  {
    k <= s || (s != [] && Contains(s[1..], k))
  }

  /** `Contains` holds exactly when `k` is a prefix of some suffix of `s`. */
  lemma ContainsIffOccurs(s: string, k: string)
    ensures Contains(s, k) <==> exists i :: 0 <= i <= |s| && k <= s[i..]
  {
    if Contains(s, k) {
      var i := ContainsWitness(s, k);
    }
    if exists i :: 0 <= i <= |s| && k <= s[i..] {
      var i :| 0 <= i <= |s| && k <= s[i..];
      OccursContains(s, k, i);
    }
  }

  /** A start position of `k` in `s` when `Contains(s, k)`. */
  lemma {:induction false} ContainsWitness(s: string, k: string) returns (i: nat)
    requires Contains(s, k)
    ensures i <= |s| && k <= s[i..]
    decreases |s|
  {
    if k <= s {
      i := 0;
    } else {
      var j := ContainsWitness(s[1..], k);
      assert s[1..][j..] == s[j + 1..];
      i := j + 1;
    }
  }

  /** `Contains` finds an occurrence of `k` at any start position `i`. */
  lemma {:induction false} OccursContains(s: string, k: string, i: nat)
    requires i <= |s| && k <= s[i..]
    ensures Contains(s, k)
    decreases i
  {
    if i > 0 {
      assert s[1..][i - 1..] == s[i..];
      OccursContains(s[1..], k, i - 1);
    }
  }

  /** Ordinal lexicographic order on strings: `a` comes no later than `b`. */
  predicate OrdinalLe(a: string, b: string)
  {
    a == [] || (b != [] && (a[0] < b[0] || (a[0] == b[0] && OrdinalLe(a[1..], b[1..]))))
  }

  /** Any two strings are ordered one way or the other. */
  lemma {:induction false} OrdinalLeTotal(a: string, b: string)
    ensures OrdinalLe(a, b) || OrdinalLe(b, a)
  {
    if a != [] && b != [] && a[0] == b[0] {
      OrdinalLeTotal(a[1..], b[1..]);
    }
  }

  /** The ordinal order is transitive. */
  lemma {:induction false} OrdinalLeTransitive(a: string, b: string, c: string)
    requires OrdinalLe(a, b) && OrdinalLe(b, c)
    ensures OrdinalLe(a, c)
  {
    if a != [] && a[0] == b[0] && b[0] == c[0] {
      OrdinalLeTransitive(a[1..], b[1..], c[1..]);
    }
  }

  /** Strings that order each other both ways are equal: the order is antisymmetric. */
  lemma {:induction false} OrdinalLeAntisymmetric(a: string, b: string)
    requires OrdinalLe(a, b) && OrdinalLe(b, a)
    ensures a == b
  {
    if a != [] {
      OrdinalLeAntisymmetric(a[1..], b[1..]);
      assert a == [a[0]] + a[1..] && b == [b[0]] + b[1..];
    }
  }
}
