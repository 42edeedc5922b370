/** Sizes of sets of threads. */
module Sets {
  lemma {:induction false} SubsetSize(a: set<nat>, n: nat)
    requires forall t: nat :: t in a ==> t < n
    ensures |a| <= n
  {
    if n > 0 {
      SubsetSize(a - {n - 1}, n - 1);
      assert a <= a - {n - 1} + {n - 1};
    } else {
      assert a == {};
    }
  }

  lemma {:induction false} SupersetSize(a: set<nat>, n: nat)
    requires forall t: nat :: t < n ==> t in a
    ensures |a| >= n
  {
    if n > 0 {
      SupersetSize(a - {n - 1}, n - 1);
    }
  }

  lemma OneMoreOrLess(a: set<nat>, t: nat)
    ensures |a| == 0 <==> a == {}
    ensures |a - {t}| == if t in a then |a| - 1 else |a|
    ensures |a + {t}| == if t in a then |a| else |a| + 1
  {
    if t in a {
      assert a + {t} == a;
    } else {
      assert a - {t} == a;
    }
  }

  lemma OnlyElement(a: set<nat>, t: nat)
    requires |a| <= 1 && t in a
    ensures a == {t}
  {
    assert |a - {t}| == 0;
  }
}
