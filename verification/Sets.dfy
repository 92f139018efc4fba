/** Sizes and differences of finite sets. */
module Sets {
  lemma DisjointSize<T>(a: set<T>, b: set<T>)
    requires a !! b
    ensures |a + b| == |a| + |b|
  {
  }

  lemma SubsetSize<T>(a: set<T>, b: set<T>)
    requires a <= b
    ensures |a| <= |b| && |b - a| == |b| - |a|
  {
    DisjointSize(a, b - a);
    assert a + (b - a) == b;
  }

  lemma SetsApart<T>(a: set<T>, b: set<T>, c: set<T>)
    requires a <= b <= c
    ensures c - a == (b - a) + (c - b) && (b - a) !! (c - b)
  {
  }

  lemma TakenOut<T>(all: set<T>, rest: set<T>, m: T)
    requires m in rest && rest <= all
    ensures all - (rest - {m}) == (all - rest) + {m}
  {
  }
}
