/** Inversion counting, the first half of the 15-puzzle solvability test
    (countInversions). */
module InversionCounting {

  /** The tiles of a board in board order with the blank left out, the
      filtering step of countInversions. */
  function NonBlank(b: seq<int>): (r: seq<int>)
    ensures |r| <= |b|
    ensures 0 !in r
    ensures forall x :: x != 0 ==> multiset(r)[x] == multiset(b)[x]
  {
    if |b| == 0 then []
    else
      assert b == [b[0]] + b[1..];
      if b[0] == 0 then NonBlank(b[1..]) else [b[0]] + NonBlank(b[1..])
  }

  /** Number of entries of `t` smaller than `x`. */
  function Smaller(x: int, t: seq<int>): nat
  {
    if |t| == 0 then 0
    else Smaller(x, t[..|t| - 1]) + (if t[|t| - 1] < x then 1 else 0)
  }

  /** Reference definition: the number of pairs i < j with s[i] > s[j],
      grouped by the left element of the pair. */
  function Inversions(s: seq<int>): nat
  {
    if |s| == 0 then 0 else Smaller(s[0], s[1..]) + Inversions(s[1..])
  }

  /** Every entry is at most every later one. */
  predicate Sorted(s: seq<int>) {
    forall i, j :: 0 <= i < j < |s| ==> s[i] <= s[j]
  }

  /** countInversions: the nested loops over the blank-free sequence.
      countInversions takes a `size` argument it never reads. */
  method CountInversions(arr: seq<int>, size: int) returns (inversions: nat)
    ensures inversions == Inversions(NonBlank(arr))
  {
    var flat := NonBlank(arr);
    inversions := 0;
    var i := 0;
    while i < |flat| - 1
      invariant 0 <= i <= |flat|
      invariant inversions + Inversions(flat[i..]) == Inversions(flat)
    {
      ghost var before := inversions;
      var j := i + 1;
      while j < |flat|
        invariant i + 1 <= j <= |flat|
        invariant inversions == before + Smaller(flat[i], flat[i + 1..j])
      {
        assert flat[i + 1..j + 1][..j - i - 1] == flat[i + 1..j];
        if flat[i] > flat[j] {
          inversions := inversions + 1;
        }
        j := j + 1;
      }
      assert flat[i + 1..j] == flat[i + 1..];
      assert flat[i..][0] == flat[i] && flat[i..][1..] == flat[i + 1..];
      i := i + 1;
    }
    assert |flat[i..]| <= 1;
  }

  lemma {:induction false} SmallerAtMostLength(x: int, t: seq<int>)
    ensures Smaller(x, t) <= |t|
  {
    if |t| > 0 {
      SmallerAtMostLength(x, t[..|t| - 1]);
    }
  }

  /** Among k tiles there are at most k(k-1)/2 inversions. */
  lemma {:induction false} InversionsBound(s: seq<int>)
    ensures 2 * Inversions(s) <= |s| * (|s| - 1)
  {
    if |s| > 0 {
      var k := |s|;
      SmallerAtMostLength(s[0], s[1..]);
      InversionsBound(s[1..]);
      assert (k - 1) * (k - 2) + 2 * (k - 1) == k * (k - 1);
    }
  }

  /** No entry of `t` is smaller than `x` exactly when Smaller counts none. */
  lemma {:induction false} SmallerZero(x: int, t: seq<int>)
    ensures Smaller(x, t) == 0 <==> forall k :: 0 <= k < |t| ==> x <= t[k]
  {
    if |t| > 0 {
      SmallerZero(x, t[..|t| - 1]);
    }
  }

  /** A sequence has no inversion exactly when it is sorted. */
  lemma {:induction false} InversionsZeroIffSorted(s: seq<int>)
    ensures Inversions(s) == 0 <==> Sorted(s)
  {
    if |s| > 0 {
      SmallerZero(s[0], s[1..]);
      InversionsZeroIffSorted(s[1..]);
      if Sorted(s) {
        assert Sorted(s[1..]) by {
          forall i, j | 0 <= i < j < |s| - 1
            ensures s[1..][i] <= s[1..][j]
          {
            assert s[i + 1] <= s[j + 1];
          }
        }
        forall k | 0 <= k < |s[1..]|
          ensures s[0] <= s[1..][k]
        {
          assert s[0] <= s[k + 1];
        }
      }
      if Inversions(s) == 0 {
        forall i, j | 0 <= i < j < |s|
          ensures s[i] <= s[j]
        {
          if i == 0 {
            assert s[1..][j - 1] == s[j];
          } else {
            assert s[1..][i - 1] <= s[1..][j - 1];
          }
        }
      }
    }
  }

  /** The filter on a single cell: a blank disappears, a tile stays. */
  lemma NonBlankSingle(x: int)
    ensures NonBlank([x]) == if x == 0 then [] else [x]
  {
    assert [x][1..] == [];
  }

  /** The filter works cell by cell: filtering a concatenation concatenates
      the filtered parts, so the tiles keep their board order. */
  lemma {:induction false} NonBlankAppend(s: seq<int>, t: seq<int>)
    ensures NonBlank(s + t) == NonBlank(s) + NonBlank(t)
  {
    if |s| == 0 {
      assert s + t == t;
    } else {
      assert (s + t)[0] == s[0] && (s + t)[1..] == s[1..] + t;
      NonBlankAppend(s[1..], t);
    }
  }

  /** A sequence without blanks passes the filter unchanged. */
  lemma {:induction false} NonBlankKeepsTiles(s: seq<int>)
    requires 0 !in s
    ensures NonBlank(s) == s
  {
    if |s| > 0 {
      NonBlankKeepsTiles(s[1..]);
    }
  }

  /** A trailing blank is dropped by the filter. */
  lemma {:induction false} NonBlankDropsTrailingBlank(s: seq<int>)
    ensures NonBlank(s + [0]) == NonBlank(s)
  {
    if |s| > 0 {
      assert (s + [0])[1..] == s[1..] + [0];
      NonBlankDropsTrailingBlank(s[1..]);
    } else {
      assert [0][1..] == [];
    }
  }
}
