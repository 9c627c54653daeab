/** Facts about sequences shared by the other modules. */
module Collections {

  /** No element occurs twice. */
  predicate Distinct<T(==)>(s: seq<T>) {
    forall i, j :: 0 <= i < j < |s| ==> s[i] != s[j]
  }

  /** A sequence is duplicate-free exactly when its multiset counts every element at most once. */
  lemma {:induction false} DistinctIffCountsAtMostOne<T>(s: seq<T>)
    ensures Distinct(s) <==> forall x :: multiset(s)[x] <= 1
  {
    if s != [] {
      var t := s[1..];
      assert s == [s[0]] + t;
      assert multiset(s) == multiset{s[0]} + multiset(t);
      DistinctIffCountsAtMostOne(t);
      if Distinct(s) {
        assert Distinct(t) by {
          forall i, j | 0 <= i < j < |t| ensures t[i] != t[j] {
            assert t[i] == s[i + 1] && t[j] == s[j + 1];
          }
        }
        assert s[0] !in t by {
          forall j | 0 <= j < |t| ensures t[j] != s[0] {
            assert t[j] == s[j + 1];
          }
        }
        assert multiset(t)[s[0]] == 0;
      }
      if forall x :: multiset(s)[x] <= 1 {
        assert multiset(s)[s[0]] <= 1;
        assert multiset(t)[s[0]] == 0;
        assert s[0] !in t;
        forall x ensures multiset(t)[x] <= 1 {
          assert multiset(s)[x] <= 1;
        }
        assert Distinct(t);
        forall i, j | 0 <= i < j < |s| ensures s[i] != s[j] {
          assert s[j] == t[j - 1];
          if i > 0 {
            assert s[i] == t[i - 1];
          }
        }
      }
    }
  }

  /** Reordering a duplicate-free sequence leaves it duplicate-free. */
  lemma DistinctPermutation<T>(a: seq<T>, b: seq<T>)
    requires multiset(a) == multiset(b)
    requires Distinct(a)
    ensures Distinct(b)
  {
    DistinctIffCountsAtMostOne(a);
    DistinctIffCountsAtMostOne(b);
  }
}
