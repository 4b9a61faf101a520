/** The diff builder: walks the alignment produced by the LCS engine, framed
    by two sentinels, and classifies every line of both inputs as deleted,
    inserted or unchanged, in the inputs' order. */
module DiffBuilder {
  import opened LcsEngine

  /** How a line of the diff relates the old sequence to the new one. */
  datatype EditType = Insert | Delete | Nil

  /** One line of the diff, carrying a copy of the element it annotates. */
  datatype DeltaLine<T> = DeltaLine(editType: EditType, line: T)

  /** Every element of s, in order, tagged with the edit type e. */
  function Tagged<T>(e: EditType, s: seq<T>): (d: seq<DeltaLine<T>>)
    ensures |d| == |s|
  {
    seq(|s|, k requires 0 <= k < |s| => DeltaLine(e, s[k]))
  }

  /** The lines of d, in order, leaving out the entries of type `dropped`.
      Keep(d, Insert) is the old side of a diff, Keep(d, Delete) the new side. */
  function Keep<T>(d: seq<DeltaLine<T>>, dropped: EditType): seq<T>
  {
    if |d| == 0 then []
    else Keep(d[..|d| - 1], dropped)
         + (if d[|d| - 1].editType == dropped then [] else [d[|d| - 1].line])
  }

  /** The number of entries of d of type e. */
  function Count<T>(d: seq<DeltaLine<T>>, e: EditType): nat
  {
    if |d| == 0 then 0
    else Count(d[..|d| - 1], e) + (if d[|d| - 1].editType == e then 1 else 0)
  }

  /** Within every gap between unchanged lines, deletions come before
      insertions: no DELETE entry directly follows an INSERT entry. */
  predicate GapsOrdered<T>(d: seq<DeltaLine<T>>)
  {
    forall t :: 0 < t < |d| && d[t - 1].editType == Insert ==> d[t].editType != Delete
  }

  // ---------------------------------------------------------------------
  // Facts about Keep and Count.
  // ---------------------------------------------------------------------

  lemma {:induction false} KeepAppend<T>(x: seq<DeltaLine<T>>, y: seq<DeltaLine<T>>, dropped: EditType)
    ensures Keep(x + y, dropped) == Keep(x, dropped) + Keep(y, dropped)
    ensures Count(x + y, dropped) == Count(x, dropped) + Count(y, dropped)
    decreases |y|
  {
    if |y| == 0 {
      assert x + y == x;
    } else {
      var y' := y[..|y| - 1];
      assert (x + y)[..|x + y| - 1] == x + y';
      KeepAppend(x, y', dropped);
    }
  }

  /** Tagging one more element of s extends the tagged run by one entry. */
  lemma TaggedSnoc<T>(e: EditType, s: seq<T>, i: int, j: int)
    requires 0 <= i <= j < |s|
    ensures Tagged(e, s[i .. j + 1]) == Tagged(e, s[i .. j]) + [DeltaLine(e, s[j])]
  {
  }

  /** Tagging s with e and keeping the entries not of type `dropped` gives s
      back when e is kept, and nothing when e is dropped. */
  lemma {:induction false} KeepTagged<T>(e: EditType, s: seq<T>, dropped: EditType)
    ensures Keep(Tagged(e, s), dropped) == if e == dropped then [] else s
    ensures Count(Tagged(e, s), dropped) == if e == dropped then |s| else 0
    decreases |s|
  {
    if |s| > 0 {
      var s' := s[..|s| - 1];
      assert Tagged(e, s)[..|s| - 1] == Tagged(e, s');
      KeepTagged(e, s', dropped);
    }
  }

  /** Every entry of d that is not dropped contributes one line to Keep. */
  lemma {:induction false} KeepLength<T>(d: seq<DeltaLine<T>>, dropped: EditType)
    ensures |Keep(d, dropped)| + Count(d, dropped) == |d|
    decreases |d|
  {
    if |d| > 0 {
      KeepLength(d[..|d| - 1], dropped);
    }
  }

  /** Every entry has one of the three types. */
  lemma {:induction false} CountTotal<T>(d: seq<DeltaLine<T>>)
    ensures Count(d, Insert) + Count(d, Delete) + Count(d, Nil) == |d|
    decreases |d|
  {
    if |d| > 0 {
      CountTotal(d[..|d| - 1]);
    }
  }

  /** A diff with no DELETE and no INSERT entry is its old side, all NIL. */
  lemma {:induction false} AllNil<T>(d: seq<DeltaLine<T>>)
    requires Count(d, Delete) == 0 && Count(d, Insert) == 0
    ensures d == Tagged(Nil, Keep(d, Insert))
    decreases |d|
  {
    if |d| > 0 {
      var d' := d[..|d| - 1];
      AllNil(d');
      assert d == d' + [d[|d| - 1]];
    }
  }

  // ---------------------------------------------------------------------
  // The framed alignment and the output it determines.
  // ---------------------------------------------------------------------

  /** The alignment with the builder's sentinels: (-1, -1) in front and
      (|a|, |b|) at the end. */
  function Framed<T>(a: seq<T>, b: seq<T>, al: seq<LcsItem>): (f: seq<LcsItem>)
  {
    [LcsItem(-1, -1)] + al + [LcsItem(|a|, |b|)]
  }

  /** f starts with (-1, -1), ends with (|a|, |b|), its inner entries match
      equal elements of a and b, and both indices strictly increase, so every
      gap between consecutive entries is a well-formed range. */
  predicate WellFramed<T(==)>(a: seq<T>, b: seq<T>, f: seq<LcsItem>)
  {
    && |f| >= 2
    && f[0] == LcsItem(-1, -1)
    && f[|f| - 1] == LcsItem(|a|, |b|)
    && (forall k :: 0 < k < |f| - 1 ==>
          0 <= f[k].indexA < |a| && 0 <= f[k].indexB < |b| && a[f[k].indexA] == b[f[k].indexB])
    && (forall k, l :: 0 <= k < l < |f| ==> f[k].indexA < f[l].indexA && f[k].indexB < f[l].indexB)
  }

  /** Framing a common subsequence of a and b gives a well-framed sequence. */
  lemma FramedAlignment<T>(a: seq<T>, b: seq<T>, al: seq<LcsItem>)
    requires Aligns(al, a, b, |a|, |b|)
    ensures WellFramed(a, b, Framed(a, b, al))
  {
    var f := Framed(a, b, al);
    forall k | 0 < k < |f| - 1
      ensures 0 <= f[k].indexA < |a| && 0 <= f[k].indexB < |b| && a[f[k].indexA] == b[f[k].indexB]
    {
      assert f[k] == al[k - 1];
    }
    forall k, l | 0 <= k < l < |f|
      ensures f[k].indexA < f[l].indexA && f[k].indexB < f[l].indexB
    {
      if 0 < k && l < |f| - 1 {
        assert f[k] == al[k - 1] && f[l] == al[l - 1];
      } else if 0 < k {
        assert f[k] == al[k - 1];
      } else if l < |f| - 1 {
        assert f[l] == al[l - 1];
      }
    }
  }

  /** The entries the builder emits for entry k of the framed alignment: the
      A-lines strictly between f[k-1] and f[k] as DELETE, then the B-lines
      strictly between them as INSERT, then the matched line as NIL unless
      f[k] is the terminal sentinel. */
  function Step<T(==)>(a: seq<T>, b: seq<T>, f: seq<LcsItem>, k: nat): seq<DeltaLine<T>>
    requires WellFramed(a, b, f) && 0 < k < |f|
  {
    assert f[k - 1].indexA >= -1 && f[k - 1].indexB >= -1 by {
      if k > 1 {
        assert 0 < k - 1 < |f| - 1;
      }
    }
    Tagged(Delete, a[f[k - 1].indexA + 1 .. f[k].indexA])
    + Tagged(Insert, b[f[k - 1].indexB + 1 .. f[k].indexB])
    + Tagged(Nil, if k < |f| - 1 then [a[f[k].indexA]] else [])
  }

  /** The output after the builder has handled entries 1..k of f. */
  function Annotated<T(==)>(a: seq<T>, b: seq<T>, f: seq<LcsItem>, k: nat): seq<DeltaLine<T>>
    requires WellFramed(a, b, f) && k < |f|
  {
    if k == 0 then [] else Annotated(a, b, f, k - 1) + Step(a, b, f, k)
  }

  /** The diff of a and b, as the builder produces it from lcs(a, b). */
  function DiffOf<T(==)>(a: seq<T>, b: seq<T>): seq<DeltaLine<T>>
  {
    var al := Alignment(a, b);
    AlignmentAligns(a, b);
    FramedAlignment(a, b, al);
    Annotated(a, b, Framed(a, b, al), |al| + 1)
  }

  // ---------------------------------------------------------------------
  // What the output is: coverage of both inputs, counts, gap order.
  // ---------------------------------------------------------------------

  /** One gap read from the old side: the deleted lines s, then the matched
      line m (if any); the inserted lines t drop out. */
  lemma GapOldSide<T>(s: seq<T>, t: seq<T>, m: seq<T>)
    ensures Keep(Tagged(Delete, s) + Tagged(Insert, t) + Tagged(Nil, m), Insert) == s + m
  {
    var x, y, z := Tagged(Delete, s), Tagged(Insert, t), Tagged(Nil, m);
    KeepAppend(x, y, Insert);
    KeepAppend(x + y, z, Insert);
    KeepTagged(Delete, s, Insert);
    KeepTagged(Insert, t, Insert);
    KeepTagged(Nil, m, Insert);
    assert Keep(x + y, Insert) == s;
  }

  /** One gap read from the new side: the inserted lines t, then the matched
      line m (if any); the deleted lines s drop out. */
  lemma GapNewSide<T>(s: seq<T>, t: seq<T>, m: seq<T>)
    ensures Keep(Tagged(Delete, s) + Tagged(Insert, t) + Tagged(Nil, m), Delete) == t + m
  {
    var x, y, z := Tagged(Delete, s), Tagged(Insert, t), Tagged(Nil, m);
    KeepAppend(x, y, Delete);
    KeepAppend(x + y, z, Delete);
    KeepTagged(Delete, s, Delete);
    KeepTagged(Insert, t, Delete);
    KeepTagged(Nil, m, Delete);
    assert Keep(x + y, Delete) == t;
  }

  /** One gap holds one NIL line per matched line. */
  lemma GapNilCount<T>(s: seq<T>, t: seq<T>, m: seq<T>)
    ensures Count(Tagged(Delete, s) + Tagged(Insert, t) + Tagged(Nil, m), Nil) == |m|
  {
    var x, y, z := Tagged(Delete, s), Tagged(Insert, t), Tagged(Nil, m);
    KeepAppend(x, y, Nil);
    KeepAppend(x + y, z, Nil);
    KeepTagged(Delete, s, Nil);
    KeepTagged(Insert, t, Nil);
    KeepTagged(Nil, m, Nil);
    assert Count(x + y, Nil) == 0;
  }

  /** A prefix of s split at i and j, followed by the element at j when the
      prefix extends past j. */
  lemma PrefixSplit<X>(s: seq<X>, i: int, j: int, end: int, m: seq<X>)
    requires 0 <= i <= j <= |s|
    requires (j < |s| && end == j + 1 && m == [s[j]]) || (j == end == |s| && m == [])
    ensures s[..end] == s[..i] + (s[i..j] + m)
  {
  }

  /** Appending a step extends the kept lines by the step's kept lines. */
  lemma KeepExtend<T>(d: seq<DeltaLine<T>>, before: seq<DeltaLine<T>>, step: seq<DeltaLine<T>>,
                      dropped: EditType, prefix: seq<T>, gap: seq<T>, whole: seq<T>)
    requires d == before + step
    requires Keep(before, dropped) == prefix && Keep(step, dropped) == gap && whole == prefix + gap
    ensures Keep(d, dropped) == whole
  {
    KeepAppend(before, step, dropped);
  }

  /** The gap before entry k of f is a well-formed range on both sides; only
      the last entry is the terminal sentinel. */
  lemma GapBounds<T>(a: seq<T>, b: seq<T>, f: seq<LcsItem>, k: nat)
    requires WellFramed(a, b, f) && 0 < k < |f|
    ensures 0 <= f[k - 1].indexA + 1 <= f[k].indexA <= |a|
    ensures 0 <= f[k - 1].indexB + 1 <= f[k].indexB <= |b|
    ensures k == |f| - 1 ==> f[k].indexA == |a| && f[k].indexB == |b|
    ensures k < |f| - 1 ==> f[k].indexA < |a| && f[k].indexB < |b|
  {
    if k > 1 {
      assert 0 < k - 1 < |f| - 1;
    }
  }

  /** Entry k's step read from the old side: the A-lines of its gap, then the
      matched line unless f[k] is the terminal sentinel. */
  lemma StepOldSide<T>(a: seq<T>, b: seq<T>, f: seq<LcsItem>, k: nat)
    requires WellFramed(a, b, f) && 0 < k < |f|
    ensures 0 <= f[k - 1].indexA + 1 <= f[k].indexA <= |a|
    ensures k == |f| - 1 ==> f[k].indexA == |a|
    ensures Keep(Step(a, b, f, k), Insert) == a[f[k - 1].indexA + 1 .. f[k].indexA]
      + (if k < |f| - 1 then [a[f[k].indexA]] else [])
  {
    GapBounds(a, b, f, k);
    GapOldSide(a[f[k - 1].indexA + 1 .. f[k].indexA], b[f[k - 1].indexB + 1 .. f[k].indexB],
            if k < |f| - 1 then [a[f[k].indexA]] else []);
  }

  /** Entry k's step read from the new side: the B-lines of its gap, then the
      matched line (equal to b's element) unless f[k] is the terminal sentinel. */
  lemma StepNewSide<T>(a: seq<T>, b: seq<T>, f: seq<LcsItem>, k: nat)
    requires WellFramed(a, b, f) && 0 < k < |f|
    ensures 0 <= f[k - 1].indexB + 1 <= f[k].indexB <= |b|
    ensures k == |f| - 1 ==> f[k].indexB == |b|
    ensures Keep(Step(a, b, f, k), Delete) == b[f[k - 1].indexB + 1 .. f[k].indexB]
      + (if k < |f| - 1 then [b[f[k].indexB]] else [])
  {
    GapBounds(a, b, f, k);
    var m := if k < |f| - 1 then [a[f[k].indexA]] else [];
    GapNewSide(a[f[k - 1].indexA + 1 .. f[k].indexA], b[f[k - 1].indexB + 1 .. f[k].indexB], m);
    if k < |f| - 1 {
      assert m == [b[f[k].indexB]];
    }
  }

  /** Entry k's step holds one NIL line unless f[k] is the terminal sentinel. */
  lemma StepNilCount<T>(a: seq<T>, b: seq<T>, f: seq<LcsItem>, k: nat)
    requires WellFramed(a, b, f) && 0 < k < |f|
    ensures Count(Step(a, b, f, k), Nil) == if k < |f| - 1 then 1 else 0
  {
    GapBounds(a, b, f, k);
    GapNilCount(a[f[k - 1].indexA + 1 .. f[k].indexA], b[f[k - 1].indexB + 1 .. f[k].indexB],
            if k < |f| - 1 then [a[f[k].indexA]] else []);
  }

  /** The part of a that the old side covers after entry k: up to and
      including its matched line, or all of a after the terminal sentinel. */
  function OldCovered<T(==)>(a: seq<T>, b: seq<T>, f: seq<LcsItem>, k: nat): seq<T>
    requires WellFramed(a, b, f) && k < |f|
  {
    if k < |f| - 1 then a[..f[k].indexA + 1] else a
  }

  /** The part of b that the new side covers after entry k. */
  function NewCovered<T(==)>(a: seq<T>, b: seq<T>, f: seq<LcsItem>, k: nat): seq<T>
    requires WellFramed(a, b, f) && k < |f|
  {
    if k < |f| - 1 then b[..f[k].indexB + 1] else b
  }

  /** An iteration for a real pair extends the old side by the lines of
      its gap and its matched line. */
  lemma {:induction false} OldSideInner<T>(a: seq<T>, b: seq<T>, f: seq<LcsItem>, k: nat)
    requires WellFramed(a, b, f) && 0 < k < |f| - 1
    requires Keep(Annotated(a, b, f, k - 1), Insert) == OldCovered(a, b, f, k - 1)
    ensures Keep(Annotated(a, b, f, k), Insert) == OldCovered(a, b, f, k)
  {
    StepOldSide(a, b, f, k);
    var p, c := f[k - 1].indexA, f[k].indexA;
    PrefixSplit(a, p + 1, c, c + 1, [a[c]]);
    KeepExtend(Annotated(a, b, f, k), Annotated(a, b, f, k - 1), Step(a, b, f, k), Insert, a[..p + 1], a[p + 1 .. c] + [a[c]], a[..c + 1]);
  }

  /** The iteration for the terminal sentinel completes the old side. */
  lemma {:induction false} OldSideLast<T>(a: seq<T>, b: seq<T>, f: seq<LcsItem>, k: nat)
    requires WellFramed(a, b, f) && 0 < k == |f| - 1
    requires Keep(Annotated(a, b, f, k - 1), Insert) == OldCovered(a, b, f, k - 1)
    ensures Keep(Annotated(a, b, f, k), Insert) == OldCovered(a, b, f, k)
  {
    StepOldSide(a, b, f, k);
    var p := f[k - 1].indexA;
    assert OldCovered(a, b, f, k - 1) == a[..p + 1];
    PrefixSplit(a, p + 1, f[k].indexA, |a|, []);
    KeepExtend(Annotated(a, b, f, k), Annotated(a, b, f, k - 1), Step(a, b, f, k), Insert, a[..p + 1], a[p + 1 .. f[k].indexA] + [], a[..|a|]);
    assert OldCovered(a, b, f, k) == a[..|a|];
  }

  /** Before the first iteration both sides are empty. */
  lemma SidesBase<T>(a: seq<T>, b: seq<T>, f: seq<LcsItem>)
    requires WellFramed(a, b, f)
    ensures Keep(Annotated(a, b, f, 0), Insert) == OldCovered(a, b, f, 0)
    ensures Keep(Annotated(a, b, f, 0), Delete) == NewCovered(a, b, f, 0)
  {
  }
  /** After k entries, the DELETE and NIL lines spell a up to and including
      the k-th matched line; after the terminal sentinel they spell all of a. */
  lemma {:induction false} AnnotatedOldSide<T>(a: seq<T>, b: seq<T>, f: seq<LcsItem>, k: nat)
    requires WellFramed(a, b, f) && k < |f|
    ensures Keep(Annotated(a, b, f, k), Insert) == OldCovered(a, b, f, k)
  {
    if k > 0 {
      AnnotatedOldSide(a, b, f, k - 1);
      if k < |f| - 1 {
        OldSideInner(a, b, f, k);
      } else {
        OldSideLast(a, b, f, k);
      }
    } else {
      SidesBase(a, b, f);
    }
  }

  /** An iteration for a real pair extends the new side by the lines of
      its gap and its matched line. */
  lemma {:induction false} NewSideInner<T>(a: seq<T>, b: seq<T>, f: seq<LcsItem>, k: nat)
    requires WellFramed(a, b, f) && 0 < k < |f| - 1
    requires Keep(Annotated(a, b, f, k - 1), Delete) == NewCovered(a, b, f, k - 1)
    ensures Keep(Annotated(a, b, f, k), Delete) == NewCovered(a, b, f, k)
  {
    StepNewSide(a, b, f, k);
    var p, c := f[k - 1].indexB, f[k].indexB;
    PrefixSplit(b, p + 1, c, c + 1, [b[c]]);
    KeepExtend(Annotated(a, b, f, k), Annotated(a, b, f, k - 1), Step(a, b, f, k), Delete, b[..p + 1], b[p + 1 .. c] + [b[c]], b[..c + 1]);
  }

  /** The iteration for the terminal sentinel completes the new side. */
  lemma {:induction false} NewSideLast<T>(a: seq<T>, b: seq<T>, f: seq<LcsItem>, k: nat)
    requires WellFramed(a, b, f) && 0 < k == |f| - 1
    requires Keep(Annotated(a, b, f, k - 1), Delete) == NewCovered(a, b, f, k - 1)
    ensures Keep(Annotated(a, b, f, k), Delete) == NewCovered(a, b, f, k)
  {
    StepNewSide(a, b, f, k);
    var p := f[k - 1].indexB;
    assert NewCovered(a, b, f, k - 1) == b[..p + 1];
    PrefixSplit(b, p + 1, f[k].indexB, |b|, []);
    KeepExtend(Annotated(a, b, f, k), Annotated(a, b, f, k - 1), Step(a, b, f, k), Delete, b[..p + 1], b[p + 1 .. f[k].indexB] + [], b[..|b|]);
    assert NewCovered(a, b, f, k) == b[..|b|];
  }

  /** After k entries, the INSERT and NIL lines spell b up to and including
      the k-th matched line; after the terminal sentinel they spell all of b. */
  lemma {:induction false} AnnotatedNewSide<T>(a: seq<T>, b: seq<T>, f: seq<LcsItem>, k: nat)
    requires WellFramed(a, b, f) && k < |f|
    ensures Keep(Annotated(a, b, f, k), Delete) == NewCovered(a, b, f, k)
  {
    if k > 0 {
      AnnotatedNewSide(a, b, f, k - 1);
      if k < |f| - 1 {
        NewSideInner(a, b, f, k);
      } else {
        NewSideLast(a, b, f, k);
      }
    } else {
      SidesBase(a, b, f);
    }
  }

  /** After k entries the output holds one NIL line per real alignment entry
      handled so far. */
  lemma {:induction false} AnnotatedNilCount<T>(a: seq<T>, b: seq<T>, f: seq<LcsItem>, k: nat)
    requires WellFramed(a, b, f) && k < |f|
    ensures Count(Annotated(a, b, f, k), Nil) == if k < |f| - 1 then k else k - 1
  {
    if k > 0 {
      AnnotatedNilCount(a, b, f, k - 1);
      StepNilCount(a, b, f, k);
      KeepAppend(Annotated(a, b, f, k - 1), Step(a, b, f, k), Nil);
    }
  }

  /** Gluing two gap-ordered outputs keeps the order when the first does not
      end with an insertion. */
  lemma GapsOrderedAppend<T>(x: seq<DeltaLine<T>>, y: seq<DeltaLine<T>>)
    requires GapsOrdered(x) && GapsOrdered(y)
    requires |x| == 0 || x[|x| - 1].editType != Insert
    ensures GapsOrdered(x + y)
  {
    var d := x + y;
    forall t | 0 < t < |d| && d[t - 1].editType == Insert
      ensures d[t].editType != Delete
    {
      if t < |x| {
        assert d[t - 1] == x[t - 1] && d[t] == x[t];
      } else if t > |x| {
        assert d[t - 1] == y[t - 1 - |x|] && d[t] == y[t - |x|];
      }
    }
  }

  /** One gap is ordered: its deletions, then its insertions, then the
      matched line, which ends the gap when there is one. */
  lemma GapOrdered<T>(s: seq<T>, t: seq<T>, m: seq<T>)
    ensures GapsOrdered(Tagged(Delete, s) + Tagged(Insert, t) + Tagged(Nil, m))
    ensures |m| == 1 ==>
      (Tagged(Delete, s) + Tagged(Insert, t) + Tagged(Nil, m))[|s| + |t|] == DeltaLine(Nil, m[0])
  {
    var d := Tagged(Delete, s) + Tagged(Insert, t) + Tagged(Nil, m);
    forall i | 0 < i < |d| && d[i - 1].editType == Insert
      ensures d[i].editType != Delete
    {
      if |s| <= i < |s| + |t| {
        assert d[i] == DeltaLine(Insert, t[i - |s|]);
      } else if |s| + |t| <= i {
        assert d[i] == DeltaLine(Nil, m[i - |s| - |t|]);
      }
    }
  }

  /** Entry k's step is gap-ordered, and ends with the matched line unless
      f[k] is the terminal sentinel. */
  lemma StepGapsOrdered<T>(a: seq<T>, b: seq<T>, f: seq<LcsItem>, k: nat)
    requires WellFramed(a, b, f) && 0 < k < |f|
    ensures GapsOrdered(Step(a, b, f, k))
    ensures k < |f| - 1 ==>
      && 0 <= f[k].indexA < |a| && |Step(a, b, f, k)| > 0
      && Step(a, b, f, k)[|Step(a, b, f, k)| - 1] == DeltaLine(Nil, a[f[k].indexA])
  {
    GapBounds(a, b, f, k);
    GapOrdered(a[f[k - 1].indexA + 1 .. f[k].indexA], b[f[k - 1].indexB + 1 .. f[k].indexB],
               if k < |f| - 1 then [a[f[k].indexA]] else []);
  }

  /** Deletions come before insertions in every gap, and the output after a
      real alignment entry ends with that entry's NIL line. */
  lemma {:induction false} AnnotatedGapsOrdered<T>(a: seq<T>, b: seq<T>, f: seq<LcsItem>, k: nat)
    requires WellFramed(a, b, f) && k < |f|
    ensures GapsOrdered(Annotated(a, b, f, k))
    ensures 0 < k < |f| - 1 ==> Annotated(a, b, f, k)[|Annotated(a, b, f, k)| - 1] == DeltaLine(Nil, a[f[k].indexA])
  {
    if k > 0 {
      AnnotatedGapsOrdered(a, b, f, k - 1);
      StepGapsOrdered(a, b, f, k);
      var before, step := Annotated(a, b, f, k - 1), Step(a, b, f, k);
      GapsOrderedAppend(before, step);
      if k < |f| - 1 {
        assert (before + step)[|before + step| - 1] == step[|step| - 1];
      }
    }
  }

  /** The diff's DELETE and NIL lines spell a and its INSERT and NIL lines
      spell b; with k the LCS length there are k NIL, |a| - k DELETE and
      |b| - k INSERT lines, and within every gap deletions precede insertions. */
  lemma DiffOfProperties<T>(a: seq<T>, b: seq<T>)
    ensures Keep(DiffOf(a, b), Insert) == a
    ensures Keep(DiffOf(a, b), Delete) == b
    ensures Count(DiffOf(a, b), Nil) == LcsLength(a, b, |a|, |b|)
    ensures Count(DiffOf(a, b), Delete) == |a| - LcsLength(a, b, |a|, |b|)
    ensures Count(DiffOf(a, b), Insert) == |b| - LcsLength(a, b, |a|, |b|)
    ensures GapsOrdered(DiffOf(a, b))
  {
    var al := Alignment(a, b);
    AlignmentAligns(a, b);
    FramedAlignment(a, b, al);
    var f := Framed(a, b, al);
    var d := DiffOf(a, b);
    AnnotatedOldSide(a, b, f, |al| + 1);
    AnnotatedNewSide(a, b, f, |al| + 1);
    AnnotatedNilCount(a, b, f, |al| + 1);
    AnnotatedGapsOrdered(a, b, f, |al| + 1);
    KeepLength(d, Insert);
    KeepLength(d, Delete);
    CountTotal(d);
  }

  /** When a and b share no element, the diff deletes all of a and then
      inserts all of b. */
  lemma DiffOfDisjoint<T>(a: seq<T>, b: seq<T>)
    requires forall i, j :: 0 <= i < |a| && 0 <= j < |b| ==> a[i] != b[j]
    ensures DiffOf(a, b) == Tagged(Delete, a) + Tagged(Insert, b)
  {
    var al := Alignment(a, b);
    AlignmentAligns(a, b);
    LcsLengthDisjoint(a, b, |a|, |b|);
    FramedAlignment(a, b, al);
    var f := Framed(a, b, al);
    assert f == [LcsItem(-1, -1), LcsItem(|a|, |b|)];
    assert a[0..|a|] == a && b[0..|b|] == b;
    assert DiffOf(a, b) == Annotated(a, b, f, 1) == [] + Step(a, b, f, 1);
  }

  /** An empty old side makes every line of b an insertion, and an empty new
      side makes every line of a a deletion. */
  lemma DiffOfEmpty<T>(a: seq<T>, b: seq<T>)
    ensures a == [] ==> DiffOf(a, b) == Tagged(Insert, b)
    ensures b == [] ==> DiffOf(a, b) == Tagged(Delete, a)
  {
    if a == [] || b == [] {
      DiffOfDisjoint(a, b);
      assert Tagged(Delete, a) + Tagged(Insert, b) == if a == [] then Tagged(Insert, b) else Tagged(Delete, a);
    }
  }

  /** Comparing a sequence with itself marks every line unchanged, in order. */
  lemma DiffOfIdentity<T>(a: seq<T>)
    ensures DiffOf(a, a) == Tagged(Nil, a)
  {
    DiffOfProperties(a, a);
    LcsLengthSelf(a, |a|);
    AllNil(DiffOf(a, a));
  }

  /** The walk on a one-line change matches the first and the last lines. */
  lemma ExampleAlignment()
    ensures Alignment(["a", "b", "c"], ["a", "x", "c"]) == [LcsItem(0, 0), LcsItem(2, 2)]
  {
    var a, b := ["a", "b", "c"], ["a", "x", "c"];
    assert Trace(a, b, 1, 1) == [LcsItem(0, 0)];
    assert LcsLength(a, b, 1, 2) == 1 && LcsLength(a, b, 0, 2) == 0;
    assert LcsLength(a, b, 2, 2) == 1;
    assert Trace(a, b, 3, 3) == [LcsItem(2, 2), LcsItem(0, 0)];
  }

  /** A one-line change: the shared first and last lines are unchanged, and
      the replaced middle line is deleted before its replacement is inserted. */
  lemma DiffExample()
    ensures DiffOf(["a", "b", "c"], ["a", "x", "c"])
      == [DeltaLine(Nil, "a"), DeltaLine(Delete, "b"), DeltaLine(Insert, "x"), DeltaLine(Nil, "c")]
  {
    var a, b := ["a", "b", "c"], ["a", "x", "c"];
    ExampleAlignment();
    var al := Alignment(a, b);
    AlignmentAligns(a, b);
    FramedAlignment(a, b, al);
    var f := Framed(a, b, al);
    assert f == [LcsItem(-1, -1), LcsItem(0, 0), LcsItem(2, 2), LcsItem(3, 3)];
    assert Step(a, b, f, 1) == [DeltaLine(Nil, "a")];
    assert Step(a, b, f, 2) == [DeltaLine(Delete, "b"), DeltaLine(Insert, "x"), DeltaLine(Nil, "c")];
  }

  // ---------------------------------------------------------------------
  // The imperative builder.
  // ---------------------------------------------------------------------

  /** Append the elements s[lo..hi], in order, tagged with e. */
  method PushRun<T>(acc: seq<DeltaLine<T>>, e: EditType, s: seq<T>, lo: int, hi: int)
    returns (res: seq<DeltaLine<T>>)
    requires 0 <= lo <= hi <= |s|
    ensures res == acc + Tagged(e, s[lo .. hi])
  {
    res := acc;
    for x := lo to hi
      invariant res == acc + Tagged(e, s[lo .. x])
    {
      TaggedSnoc(e, s, lo, x);
      res := res + [DeltaLine(e, s[x])];
    }
  }

  /** Append the entries for entry i of the framed alignment f: the deleted
      lines of the gap, its inserted lines, then the matched line unless f[i]
      is the terminal sentinel. */
  method PushStep<T(==)>(acc: seq<DeltaLine<T>>, a: seq<T>, b: seq<T>, f: seq<LcsItem>, i: int)
    returns (res: seq<DeltaLine<T>>)
    requires WellFramed(a, b, f) && 0 < i < |f|
    ensures res == acc + Step(a, b, f, i)
  {
    res := acc;
    GapBounds(a, b, f, i);
    var prev, cur := f[i - 1], f[i];
    if cur.indexA != prev.indexA {
      // Deletions
      res := PushRun(res, Delete, a, prev.indexA + 1, cur.indexA);
    }
    if cur.indexB != prev.indexB {
      // Insertions
      res := PushRun(res, Insert, b, prev.indexB + 1, cur.indexB);
    }
    ghost var inserted := res;
    if i < |f| - 1 {
      res := res + [DeltaLine(Nil, a[cur.indexA])];
    }
    assert res == inserted + Tagged(Nil, if i < |f| - 1 then [a[cur.indexA]] else []);
  }

  /** Walk the framed alignment f from its first gap to its last, emitting
      each gap and matched line in turn. */
  method Annotate<T(==)>(a: seq<T>, b: seq<T>, f: seq<LcsItem>) returns (res: seq<DeltaLine<T>>)
    requires WellFramed(a, b, f)
    ensures res == Annotated(a, b, f, |f| - 1)
  {
    res := [];
    for i := 0 to |f| - 1
      invariant res == Annotated(a, b, f, i)
    {
      res := PushStep(res, a, b, f, i + 1);
    }
  }

  /** Build the annotated diff of a and b from their LCS alignment. */
  method Diff<T(==)>(a: seq<T>, b: seq<T>) returns (res: seq<DeltaLine<T>>)
    ensures res == DiffOf(a, b)
    ensures Keep(res, Insert) == a && Keep(res, Delete) == b
    ensures Count(res, Nil) == LcsLength(a, b, |a|, |b|)
    ensures Count(res, Delete) == |a| - LcsLength(a, b, |a|, |b|)
    ensures Count(res, Insert) == |b| - LcsLength(a, b, |a|, |b|)
    ensures GapsOrdered(res)
    ensures a == [] ==> res == Tagged(Insert, b)
    ensures b == [] ==> res == Tagged(Delete, a)
    ensures a == b ==> res == Tagged(Nil, a)
    ensures (forall i, j :: 0 <= i < |a| && 0 <= j < |b| ==> a[i] != b[j]) ==>
              res == Tagged(Delete, a) + Tagged(Insert, b)
  {
    var lcs := Lcs(a, b);
    FramedAlignment(a, b, lcs);
    lcs := [LcsItem(-1, -1)] + lcs;
    lcs := lcs + [LcsItem(|a|, |b|)];
    res := Annotate(a, b, lcs);
    DiffOfProperties(a, b);
    DiffOfEmpty(a, b);
    if a == b {
      DiffOfIdentity(a);
    }
    if forall i, j :: 0 <= i < |a| && 0 <= j < |b| ==> a[i] != b[j] {
      DiffOfDisjoint(a, b);
    }
  }
}
