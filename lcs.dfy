/** The longest-common-subsequence engine of the line differ: a dynamic
    programming table over all pairs of prefixes, and a backtracking walk that
    reads one longest common subsequence off the table as index pairs. */
module LcsEngine {

  /** A pair of indices, one into each sequence, marking one matched element.
      The indices are plain integers because the diff builder also uses the
      sentinels (-1, -1) and (|a|, |b|). */
  datatype LcsItem = LcsItem(indexA: int, indexB: int)

  /** Equality of two items, compared field by field. */
  function SameItem(x: LcsItem, y: LcsItem): (r: bool)
    ensures r <==> x == y
  {
    x.indexA == y.indexA && x.indexB == y.indexB
  }

  function Max(x: int, y: int): int
  {
    if x < y then y else x
  }

  // ---------------------------------------------------------------------
  // Specification: the length of a longest common subsequence, and what a
  // common subsequence is.
  // ---------------------------------------------------------------------

  /** The length of a longest common subsequence of a[..i] and b[..j], by the
      classic recurrence over prefixes. */
  function LcsLength<T(==)>(a: seq<T>, b: seq<T>, i: nat, j: nat): nat
    requires i <= |a| && j <= |b|
    decreases i + j
  {
    if i == 0 || j == 0 then 0
    else if a[i - 1] == b[j - 1] then LcsLength(a, b, i - 1, j - 1) + 1
    else Max(LcsLength(a, b, i - 1, j), LcsLength(a, b, i, j - 1))
  }

  /** `al` picks out a common subsequence of a[..i] and b[..j]: every pair lies
      inside both prefixes and points at equal elements, and both indices
      strictly increase along `al`. */
  predicate Aligns<T(==)>(al: seq<LcsItem>, a: seq<T>, b: seq<T>, i: nat, j: nat)
    requires i <= |a| && j <= |b|
  {
    && (forall k :: 0 <= k < |al| ==>
          0 <= al[k].indexA < i && 0 <= al[k].indexB < j && a[al[k].indexA] == b[al[k].indexB])
    && (forall k, l :: 0 <= k < l < |al| ==>
          al[k].indexA < al[l].indexA && al[k].indexB < al[l].indexB)
  }

  /** Growing either prefix by one element never shortens the LCS and
      lengthens it by at most one. */
  lemma {:induction false} LcsLengthSteps<T>(a: seq<T>, b: seq<T>, i: nat, j: nat)
    requires i <= |a| && j <= |b|
    ensures i > 0 ==> LcsLength(a, b, i - 1, j) <= LcsLength(a, b, i, j) <= LcsLength(a, b, i - 1, j) + 1
    ensures j > 0 ==> LcsLength(a, b, i, j - 1) <= LcsLength(a, b, i, j) <= LcsLength(a, b, i, j - 1) + 1
    decreases i + j
  {
    if i > 0 && j > 0 {
      LcsLengthSteps(a, b, i - 1, j);
      LcsLengthSteps(a, b, i, j - 1);
    }
  }

  /** The LCS of two prefixes is no longer than either prefix. */
  lemma {:induction false} LcsLengthBound<T>(a: seq<T>, b: seq<T>, i: nat, j: nat)
    requires i <= |a| && j <= |b|
    ensures LcsLength(a, b, i, j) <= i && LcsLength(a, b, i, j) <= j
    decreases i + j
  {
    if i > 0 && j > 0 {
      LcsLengthBound(a, b, i - 1, j - 1);
      LcsLengthBound(a, b, i - 1, j);
      LcsLengthBound(a, b, i, j - 1);
    }
  }

  /** A sequence compared with itself has an LCS as long as the sequence. */
  lemma {:induction false} LcsLengthSelf<T>(a: seq<T>, i: nat)
    requires i <= |a|
    ensures LcsLength(a, a, i, i) == i
  {
    if i > 0 {
      LcsLengthSelf(a, i - 1);
    }
  }

  /** Prefixes with no element in common have an empty LCS. */
  lemma {:induction false} LcsLengthDisjoint<T>(a: seq<T>, b: seq<T>, i: nat, j: nat)
    requires i <= |a| && j <= |b|
    requires forall x, y :: 0 <= x < i && 0 <= y < j ==> a[x] != b[y]
    ensures LcsLength(a, b, i, j) == 0
    decreases i + j
  {
    if i > 0 && j > 0 {
      LcsLengthDisjoint(a, b, i - 1, j);
      LcsLengthDisjoint(a, b, i, j - 1);
    }
  }

  /** Optimality: no common subsequence of a[..i] and b[..j] is longer than
      LcsLength(a, b, i, j). */
  lemma {:induction false} AlignsBound<T>(al: seq<LcsItem>, a: seq<T>, b: seq<T>, i: nat, j: nat)
    requires i <= |a| && j <= |b|
    requires Aligns(al, a, b, i, j)
    ensures |al| <= LcsLength(a, b, i, j)
    decreases i + j
  {
    if |al| > 0 {
      var n := |al| - 1;
      var last := al[n];
      assert forall k :: 0 <= k < n ==> al[k].indexA < last.indexA && al[k].indexB < last.indexB;
      LcsLengthSteps(a, b, i, j);
      if last.indexA < i - 1 {
        assert Aligns(al, a, b, i - 1, j);
        AlignsBound(al, a, b, i - 1, j);
      } else if last.indexB < j - 1 {
        assert Aligns(al, a, b, i, j - 1);
        AlignsBound(al, a, b, i, j - 1);
      } else {
        var init := al[..n];
        assert Aligns(init, a, b, i - 1, j - 1);
        AlignsBound(init, a, b, i - 1, j - 1);
      }
    }
  }

  // ---------------------------------------------------------------------
  // The backtracking walk and the alignment it produces.
  // ---------------------------------------------------------------------

  /** The pairs the backtracking walk collects from cell (r, c), in the order
      it collects them: on equal elements the diagonal pair, otherwise a step
      "up" when that keeps the LCS length and a step "left" when it does not. */
  function Trace<T(==)>(a: seq<T>, b: seq<T>, r: nat, c: nat): seq<LcsItem>
    requires r <= |a| && c <= |b|
    decreases r + c
  {
    if r == 0 || c == 0 then []
    else if a[r - 1] == b[c - 1] then [LcsItem(r - 1, c - 1)] + Trace(a, b, r - 1, c - 1)
    else if LcsLength(a, b, r, c) == LcsLength(a, b, r - 1, c) then Trace(a, b, r - 1, c)
    else Trace(a, b, r, c - 1)
  }

  /** The walk from (r, c) collects exactly LcsLength(a, b, r, c) pairs. */
  lemma {:induction false} TraceLength<T>(a: seq<T>, b: seq<T>, r: nat, c: nat)
    requires r <= |a| && c <= |b|
    ensures |Trace(a, b, r, c)| == LcsLength(a, b, r, c)
    decreases r + c
  {
    if r == 0 || c == 0 {
    } else if a[r - 1] == b[c - 1] {
      TraceLength(a, b, r - 1, c - 1);
    } else if LcsLength(a, b, r, c) == LcsLength(a, b, r - 1, c) {
      TraceLength(a, b, r - 1, c);
    } else {
      TraceLength(a, b, r, c - 1);
    }
  }

  /** Every pair the walk from (r, c) collects lies inside a[..r] and b[..c]
      and points at equal elements. */
  lemma {:induction false} TraceInBounds<T>(a: seq<T>, b: seq<T>, r: nat, c: nat)
    requires r <= |a| && c <= |b|
    ensures forall k :: 0 <= k < |Trace(a, b, r, c)| ==>
      && 0 <= Trace(a, b, r, c)[k].indexA < r && 0 <= Trace(a, b, r, c)[k].indexB < c
      && a[Trace(a, b, r, c)[k].indexA] == b[Trace(a, b, r, c)[k].indexB]
    decreases r + c
  {
    if r == 0 || c == 0 {
    } else if a[r - 1] == b[c - 1] {
      TraceInBounds(a, b, r - 1, c - 1);
      var rest := Trace(a, b, r - 1, c - 1);
      var t := Trace(a, b, r, c);
      assert t == [LcsItem(r - 1, c - 1)] + rest;
      forall k | 0 <= k < |t|
        ensures 0 <= t[k].indexA < r && 0 <= t[k].indexB < c && a[t[k].indexA] == b[t[k].indexB]
      {
        if k > 0 {
          assert t[k] == rest[k - 1];
        }
      }
    } else if LcsLength(a, b, r, c) == LcsLength(a, b, r - 1, c) {
      TraceInBounds(a, b, r - 1, c);
    } else {
      TraceInBounds(a, b, r, c - 1);
    }
  }

  /** Both indices strictly decrease along the walk. */
  lemma {:induction false} TraceDecreasing<T>(a: seq<T>, b: seq<T>, r: nat, c: nat)
    requires r <= |a| && c <= |b|
    ensures forall k, l :: 0 <= k < l < |Trace(a, b, r, c)| ==>
      Trace(a, b, r, c)[k].indexA > Trace(a, b, r, c)[l].indexA && Trace(a, b, r, c)[k].indexB > Trace(a, b, r, c)[l].indexB
    decreases r + c
  {
    if r == 0 || c == 0 {
    } else if a[r - 1] == b[c - 1] {
      TraceDecreasing(a, b, r - 1, c - 1);
      TraceInBounds(a, b, r - 1, c - 1);
      var rest := Trace(a, b, r - 1, c - 1);
      var t := Trace(a, b, r, c);
      assert t == [LcsItem(r - 1, c - 1)] + rest;
      forall k, l | 0 <= k < l < |t|
        ensures t[k].indexA > t[l].indexA && t[k].indexB > t[l].indexB
      {
        assert t[l] == rest[l - 1];
        if k > 0 {
          assert t[k] == rest[k - 1];
        }
      }
    } else if LcsLength(a, b, r, c) == LcsLength(a, b, r - 1, c) {
      TraceDecreasing(a, b, r - 1, c);
    } else {
      TraceDecreasing(a, b, r, c - 1);
    }
  }

  /** s in reverse order (the source reverses the collected pairs in place). */
  function Reversed<X>(s: seq<X>): (r: seq<X>)
    ensures |r| == |s|
    ensures forall k :: 0 <= k < |s| ==> r[k] == s[|s| - 1 - k]
  {
    if |s| == 0 then [] else [s[|s| - 1]] + Reversed(s[..|s| - 1])
  }

  /** The alignment lcs returns: the walk from (|a|, |b|), reversed. */
  function Alignment<T(==)>(a: seq<T>, b: seq<T>): seq<LcsItem>
  {
    Reversed(Trace(a, b, |a|, |b|))
  }

  /** The returned alignment is a common subsequence of a and b, and it is as
      long as LcsLength says. */
  lemma AlignmentAligns<T>(a: seq<T>, b: seq<T>)
    ensures Aligns(Alignment(a, b), a, b, |a|, |b|)
    ensures |Alignment(a, b)| == LcsLength(a, b, |a|, |b|)
  {
    TraceLength(a, b, |a|, |b|);
    TraceInBounds(a, b, |a|, |b|);
    TraceDecreasing(a, b, |a|, |b|);
    var t := Trace(a, b, |a|, |b|);
    var res := Alignment(a, b);
    forall k | 0 <= k < |res|
      ensures 0 <= res[k].indexA < |a| && 0 <= res[k].indexB < |b|
      ensures a[res[k].indexA] == b[res[k].indexB]
    {
      assert res[k] == t[|t| - 1 - k];
    }
    forall k, l | 0 <= k < l < |res|
      ensures res[k].indexA < res[l].indexA && res[k].indexB < res[l].indexB
    {
      assert res[k] == t[|t| - 1 - k] && res[l] == t[|t| - 1 - l];
    }
  }

  /** No common subsequence of a and b is longer than the returned alignment. */
  lemma AlignmentIsLongest<T>(a: seq<T>, b: seq<T>, al: seq<LcsItem>)
    requires Aligns(al, a, b, |a|, |b|)
    ensures |al| <= |Alignment(a, b)|
  {
    AlignmentAligns(a, b);
    AlignsBound(al, a, b, |a|, |b|);
  }

  /** When either input is empty the alignment is empty. */
  lemma EmptyInputAlignment<T>(a: seq<T>, b: seq<T>)
    requires a == [] || b == []
    ensures Alignment(a, b) == []
  {
    AlignmentAligns(a, b);
    LcsLengthBound(a, b, |a|, |b|);
  }

  /** The recurrence evaluated on the library's own example words. */
  lemma ScienceIncentiveLength()
    ensures LcsLength("science", "incentive", 7, 9) == 4
  {
  }

  /** The library's own example: "science" and "incentive" share a longest
      common subsequence of four letters, and every pair of the alignment
      points at equal letters. */
  lemma ScienceIncentive()
    ensures |Alignment("science", "incentive")| == 4
    ensures Aligns(Alignment("science", "incentive"), "science", "incentive", 7, 9)
  {
    AlignmentAligns("science", "incentive");
    ScienceIncentiveLength();
  }

  // ---------------------------------------------------------------------
  // The imperative algorithm.
  // ---------------------------------------------------------------------

  /** Fill the (|a|+1) x (|b|+1) table row by row with the recurrence; row 0
      and column 0 keep their initial 0. */
  method FillTable<T(==)>(a: seq<T>, b: seq<T>) returns (dp: array2<int>)
    ensures fresh(dp)
    ensures dp.Length0 == |a| + 1 && dp.Length1 == |b| + 1
    ensures forall i, j {:trigger dp[i, j]} :: 0 <= i <= |a| && 0 <= j <= |b| ==> dp[i, j] == LcsLength(a, b, i, j)
    ensures forall i, j {:trigger dp[i, j]} :: 0 <= i <= |a| && 0 <= j <= |b| ==> 0 <= dp[i, j] <= i && dp[i, j] <= j
  {
    dp := new int[|a| + 1, |b| + 1]((i, j) => 0);
    for i := 1 to |a| + 1
      invariant forall i', j' {:trigger dp[i', j']} :: 0 <= i' < i && 0 <= j' <= |b| ==> dp[i', j'] == LcsLength(a, b, i', j')
      invariant forall i' {:trigger dp[i', 0]} :: i <= i' <= |a| ==> dp[i', 0] == 0
    {
      for j := 1 to |b| + 1
        invariant forall i', j' {:trigger dp[i', j']} :: 0 <= i' < i && 0 <= j' <= |b| ==> dp[i', j'] == LcsLength(a, b, i', j')
        invariant forall j' {:trigger dp[i, j']} :: 0 <= j' < j ==> dp[i, j'] == LcsLength(a, b, i, j')
        invariant forall i' {:trigger dp[i', 0]} :: i < i' <= |a| ==> dp[i', 0] == 0
      {
        if a[i - 1] == b[j - 1] {
          dp[i, j] := dp[i - 1, j - 1] + 1;
        } else {
          dp[i, j] := Max(dp[i - 1, j], dp[i, j - 1]);
        }
        assert dp[i, j] == LcsLength(a, b, i, j);
      }
    }
    forall i, j | 0 <= i <= |a| && 0 <= j <= |b|
      ensures dp[i, j] <= i && dp[i, j] <= j
    {
      LcsLengthBound(a, b, i, j);
    }
  }

  /** Walk back from the bottom-right cell of a filled table, collecting the
      pairs of the walk that Trace describes. */
  method Backtrack<T(==)>(a: seq<T>, b: seq<T>, dp: array2<int>) returns (res: seq<LcsItem>)
    requires dp.Length0 == |a| + 1 && dp.Length1 == |b| + 1
    requires forall i, j {:trigger dp[i, j]} :: 0 <= i <= |a| && 0 <= j <= |b| ==> dp[i, j] == LcsLength(a, b, i, j)
    ensures res == Trace(a, b, |a|, |b|)
  {
    var r, c := |a|, |b|;
    res := [];
    while r > 0 && c > 0
      invariant 0 <= r <= |a| && 0 <= c <= |b|
      invariant res + Trace(a, b, r, c) == Trace(a, b, |a|, |b|)
      decreases r + c
    {
      if a[r - 1] == b[c - 1] {
        assert Trace(a, b, r, c) == [LcsItem(r - 1, c - 1)] + Trace(a, b, r - 1, c - 1);
        res := res + [LcsItem(r - 1, c - 1)];
        r, c := r - 1, c - 1;
      } else if dp[r, c] == dp[r - 1, c] {
        r := r - 1;
      } else {
        c := c - 1;
      }
    }
    assert res + [] == res;
  }

  /** Compute one longest common subsequence of a and b as index pairs in
      ascending order, breaking ties by stepping "up" first. */
  method Lcs<T(==)>(a: seq<T>, b: seq<T>) returns (res: seq<LcsItem>)
    ensures res == Alignment(a, b)
    ensures Aligns(res, a, b, |a|, |b|)
    ensures |res| == LcsLength(a, b, |a|, |b|)
    ensures forall al :: Aligns(al, a, b, |a|, |b|) ==> |al| <= |res|
    ensures a == [] || b == [] ==> res == []
  {
    var dp := FillTable(a, b);
    res := Backtrack(a, b, dp);
    res := Reversed(res);
    AlignmentAligns(a, b);
    forall al | Aligns(al, a, b, |a|, |b|)
      ensures |al| <= |res|
    {
      AlignmentIsLongest(a, b, al);
    }
    if a == [] || b == [] {
      EmptyInputAlignment(a, b);
    }
  }
}
