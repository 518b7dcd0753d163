/**
 `getAverageDelay`: the mean approval delay of the entries, exact (a real
 number rather than a floating-point one), and zero for no entries.
 */
module Average {
  import opened Projects
  import opened Seqs

  /** The delays of the entries summed from the first entry to the last, starting at zero. */
  function TotalDelay(es: seq<Entry>): int
    decreases |es|
  {
    if |es| == 0 then 0 else TotalDelay(es[..|es| - 1]) + es[|es| - 1].delay
  }

  /** The mean delay: zero for no entries, otherwise total over count. */
  function AverageDelay(es: seq<Entry>): (avg: real)
    ensures |es| == 0 ==> avg == 0.0
    ensures |es| > 0 ==> avg * |es| as real == TotalDelay(es) as real
  {
    if |es| == 0 then 0.0 else TotalDelay(es) as real / |es| as real
  }

  /** The total lies between count times the least and the greatest delay. */
  lemma {:induction false} TotalDelayBounds(es: seq<Entry>, lo: int, hi: int)
    requires forall k :: 0 <= k < |es| ==> lo <= es[k].delay <= hi
    ensures |es| * lo <= TotalDelay(es) <= |es| * hi
    decreases |es|
  {
    if |es| > 0 {
      var n := |es|;
      TotalDelayBounds(es[..n - 1], lo, hi);
      assert n * lo == (n - 1) * lo + lo;
      assert n * hi == (n - 1) * hi + hi;
    }
  }

  /** The average lies between the least and the greatest delay. */
  lemma AverageDelayBounds(es: seq<Entry>, lo: int, hi: int)
    requires |es| > 0
    requires forall k :: 0 <= k < |es| ==> lo <= es[k].delay <= hi
    ensures lo as real <= AverageDelay(es) <= hi as real
  {
    TotalDelayBounds(es, lo, hi);
    MeanBounds(TotalDelay(es), |es|, lo, hi, AverageDelay(es));
  }

  /** A mean of `count` numbers between `lo` and `hi` is between them too. */
  lemma MeanBounds(total: int, count: int, lo: int, hi: int, avg: real)
    requires count > 0
    requires count * lo <= total <= count * hi
    requires avg * count as real == total as real
    ensures lo as real <= avg <= hi as real
  {
    var n := count as real;
    assert lo as real * n <= avg * n by {
      CastProduct(count, lo);
    }
    assert avg * n <= hi as real * n by {
      CastProduct(count, hi);
    }
    ScaleBack(lo as real, avg, n);
    ScaleBack(avg, hi as real, n);
  }

  lemma CastProduct(a: int, b: int)
    ensures (a * b) as real == a as real * b as real
  {
  }

  /** Multiplying by a positive number keeps the order. */
  lemma ScaleBack(x: real, y: real, n: real)
    requires n > 0.0
    ensures x * n <= y * n ==> x <= y
  {
    if x > y {
      assert (x - y) * n > 0.0;
    }
  }

  /** The approval delays of lookup records, summed. */
  function TotalApprovalDelay(ps: seq<Project>): int
    decreases |ps|
  {
    if |ps| == 0 then 0 else TotalApprovalDelay(ps[..|ps| - 1]) + (ps[|ps| - 1].approved - ps[|ps| - 1].queued)
  }

  lemma {:induction false} TotalApprovalDelayConcat(a: seq<Project>, b: seq<Project>)
    ensures TotalApprovalDelay(a + b) == TotalApprovalDelay(a) + TotalApprovalDelay(b)
    decreases |b|
  {
    if |b| == 0 {
      assert a + b == a;
    } else {
      var n := |b| - 1;
      assert (a + b)[..|a + b| - 1] == a + b[..n];
      TotalApprovalDelayConcat(a, b[..n]);
    }
  }

  /** Taking one record out of a sequence takes its delay out of the total. */
  lemma TotalApprovalDelayRemove(b: seq<Project>, j: int)
    requires 0 <= j < |b|
    ensures TotalApprovalDelay(b) == TotalApprovalDelay(b[..j] + b[j + 1..]) + (b[j].approved - b[j].queued)
  {
    SplitAt(b, j);
    TotalApprovalDelayMiddle(b[..j], b[j], b[j + 1..]);
  }

  lemma TotalApprovalDelayMiddle(pre: seq<Project>, x: Project, post: seq<Project>)
    ensures TotalApprovalDelay(pre + [x] + post) == TotalApprovalDelay(pre + post) + (x.approved - x.queued)
  {
    assert TotalApprovalDelay([x]) == x.approved - x.queued by {
      assert [x][..0] == [];
    }
    assert TotalApprovalDelay(pre + [x] + post) == TotalApprovalDelay(pre + [x]) + TotalApprovalDelay(post) by {
      TotalApprovalDelayConcat(pre + [x], post);
    }
    assert TotalApprovalDelay(pre + [x]) == TotalApprovalDelay(pre) + TotalApprovalDelay([x]) by {
      TotalApprovalDelayConcat(pre, [x]);
    }
    assert TotalApprovalDelay(pre + post) == TotalApprovalDelay(pre) + TotalApprovalDelay(post) by {
      TotalApprovalDelayConcat(pre, post);
    }
  }

  /** Taking one record out of a sequence takes it out of its multiset. */
  lemma MultisetRemove(b: seq<Project>, j: int)
    requires 0 <= j < |b|
    ensures multiset(b[..j] + b[j + 1..]) == multiset(b) - multiset{b[j]}
  {
    SplitAt(b, j);
  }

  /** The total does not depend on the order of the records. */
  lemma {:induction false} TotalApprovalDelayPermutation(a: seq<Project>, b: seq<Project>)
    requires multiset(a) == multiset(b)
    ensures TotalApprovalDelay(a) == TotalApprovalDelay(b)
    decreases |a|
  {
    if |a| > 0 {
      var n := |a| - 1;
      var x := a[n];
      assert x in multiset(b) by {
        assert a == a[..n] + [x];
      }
      var j :| 0 <= j < |b| && b[j] == x;
      var rest := b[..j] + b[j + 1..];
      assert multiset(a[..n]) == multiset(rest) by {
        MultisetRemove(a, n);
        MultisetRemove(b, j);
        assert a[..n] + a[n + 1..] == a[..n];
      }
      TotalApprovalDelayPermutation(a[..n], rest);
      assert TotalApprovalDelay(a) == TotalApprovalDelay(a[..n]) + (x.approved - x.queued);
      TotalApprovalDelayRemove(b, j);
    } else {
      assert |b| == |multiset(b)|;
    }
  }

  /** Entries whose delays are consistent total as their source records do. */
  lemma {:induction false} TotalDelayOfSources(es: seq<Entry>)
    requires forall k :: 0 <= k < |es| ==> es[k].delay == es[k].approved - es[k].queued
    ensures TotalDelay(es) == TotalApprovalDelay(Sources(es))
    decreases |es|
  {
    if |es| > 0 {
      var n := |es| - 1;
      assert Sources(es)[..n] == Sources(es[..n]);
      TotalDelayOfSources(es[..n]);
    }
  }

  /**
   The average shown on the page is the mean approval delay of the lookup
   records, whatever order the sort put them in.
   */
  lemma AverageOfEnrich(hits: seq<Hit>, projects: seq<Project>)
    requires |projects| > 0
    ensures AverageDelay(Enrich(hits, projects)) == TotalApprovalDelay(projects) as real / |projects| as real
  {
    var es := Enrich(hits, projects);
    TotalDelayOfSources(es);
    TotalApprovalDelayPermutation(Sources(es), projects);
  }

  /** Two delays of one and three seconds average to two seconds. */
  lemma TwoEntriesExample()
    ensures AverageDelay([Entry("a", "A", "", 1000, 0, 1000), Entry("b", "B", "", 3000, 0, 3000)]) == 2000.0
  {
    var es := [Entry("a", "A", "", 1000, 0, 1000), Entry("b", "B", "", 3000, 0, 3000)];
    assert es[..1][..0] == [];
    assert TotalDelay(es) == 4000;
  }
}
