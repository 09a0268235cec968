/** Facts about sequences of distinct elements, shared by every linked structure. */
module Sequences {
  /** No element occurs twice. */
  ghost predicate Distinct<T>(s: seq<T>)
  {
    forall i, j :: 0 <= i < j < |s| ==> s[i] != s[j]
  }

  lemma DistinctSplice<T>(s: seq<T>, i: int, x: T)
    requires Distinct(s) && x !in s && 0 <= i <= |s|
    ensures Distinct(s[..i] + [x] + s[i..])
  {
    var t := s[..i] + [x] + s[i..];
    forall a, b | 0 <= a < b < |t| ensures t[a] != t[b] {
      if b < i || a > i {
      } else if a == i {
        assert t[b] == s[b - 1];
      } else if b == i {
        assert t[a] == s[a];
      } else {
        assert t[a] == s[a] && t[b] == s[b - 1];
      }
    }
  }

  lemma DistinctRemove<T>(s: seq<T>, i: int)
    requires Distinct(s) && 0 <= i < |s|
    ensures Distinct(s[..i] + s[i + 1..]) && s[i] !in s[..i] + s[i + 1..]
  {
    var t := s[..i] + s[i + 1..];
    forall a, b | 0 <= a < b < |t| ensures t[a] != t[b] {
      if b < i {
        assert t[a] == s[a] && t[b] == s[b];
      } else if a >= i {
        assert t[a] == s[a + 1] && t[b] == s[b + 1];
      } else {
        assert t[a] == s[a] && t[b] == s[b + 1];
      }
    }
    forall a | 0 <= a < |t| ensures t[a] != s[i] {
      if a < i {
        assert t[a] == s[a];
      } else {
        assert t[a] == s[a + 1];
      }
    }
  }

  /** Dropping the first element keeps the rest distinct, and the first is not among them. */
  lemma DistinctDropFirst<T>(s: seq<T>)
    requires Distinct(s) && s != []
    ensures Distinct(s[1..]) && s[0] !in s[1..]
  {
    forall a | 0 <= a < |s| - 1 ensures s[1..][a] != s[0] {
      assert s[1..][a] == s[a + 1];
    }
  }
}
