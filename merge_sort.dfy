// Parallel merge sort (3_8_merge_sort_paralelo.cpp): the root rounds n
// down to a multiple of p and scatters the data, every rank sorts its
// chunk with a top-down merge sort working in place on an array, and
// the root merges the sorted chunks into its result one rank at a time.
// The random input is a parameter: `draw(i)` is the i-th value drawn.

module MergeSort {
  import opened Arith
  import opened Collectives
  import opened Outcome

  predicate Sorted(s: seq<int>)
  {
    forall i, j :: 0 <= i < j < |s| ==> s[i] <= s[j]
  }

  /** The merge of two runs both loops of the program perform: repeatedly
      take the smaller front element, the left one on ties, then append
      what is left of the other run. */
  function MergeSeq(a: seq<int>, b: seq<int>): (r: seq<int>)
    ensures |r| == |a| + |b|
    decreases |a| + |b|
  {
    if a == [] then b
    else if b == [] then a
    else if a[0] <= b[0] then [a[0]] + MergeSeq(a[1..], b)
    else [b[0]] + MergeSeq(a, b[1..])
  }

  /** The merge is a permutation of its two runs together. */
  lemma {:induction false} MergePermutation(a: seq<int>, b: seq<int>)
    ensures multiset(MergeSeq(a, b)) == multiset(a) + multiset(b)
    decreases |a| + |b|
  {
    if a != [] && b != [] {
      if a[0] <= b[0] {
        MergePermutation(a[1..], b);
        assert a == [a[0]] + a[1..];
        assert multiset(a) == multiset{a[0]} + multiset(a[1..]);
        assert multiset(MergeSeq(a, b)) == multiset{a[0]} + multiset(MergeSeq(a[1..], b));
      } else {
        MergePermutation(a, b[1..]);
        assert b == [b[0]] + b[1..];
        assert multiset(b) == multiset{b[0]} + multiset(b[1..]);
        assert multiset(MergeSeq(a, b)) == multiset{b[0]} + multiset(MergeSeq(a, b[1..]));
      }
    }
  }

  /** Merging two sorted runs gives a sorted run. */
  lemma {:induction false} MergeSorted(a: seq<int>, b: seq<int>)
    requires Sorted(a) && Sorted(b)
    ensures Sorted(MergeSeq(a, b))
    decreases |a| + |b|
  {
    if a != [] && b != [] {
      SortedHead(a);
      SortedHead(b);
      if a[0] <= b[0] {
        MergeSorted(a[1..], b);
        MergePermutation(a[1..], b);
        BoundedMembers(MergeSeq(a[1..], b), a[1..], b, a[0]);
      } else {
        MergeSorted(a, b[1..]);
        MergePermutation(a, b[1..]);
        BoundedMembers(MergeSeq(a, b[1..]), a, b[1..], b[0]);
      }
    }
  }

  /** The first element of a sorted run is its least. */
  lemma SortedHead(a: seq<int>)
    requires Sorted(a) && a != []
    ensures forall y :: y in a ==> a[0] <= y
    ensures forall y :: y in a[1..] ==> a[0] <= y
  {
  }

  /** A lower bound of the elements of a and b bounds every entry of a
      permutation of a and b together. */
  lemma BoundedMembers(s: seq<int>, a: seq<int>, b: seq<int>, x: int)
    requires multiset(s) == multiset(a) + multiset(b)
    requires forall y :: y in a ==> x <= y
    requires forall y :: y in b ==> x <= y
    ensures forall k :: 0 <= k < |s| ==> x <= s[k]
  {
    forall k | 0 <= k < |s|
      ensures x <= s[k]
    {
      assert s[k] in multiset(s);
      if s[k] in multiset(a) {
        assert s[k] in a;
      } else {
        assert s[k] in multiset(b);
        assert s[k] in b;
      }
    }
  }

  /** Which run each element of MergeSeq(a, b) is taken from: true for
      the left run, false for the right one. */
  function MergeOrigins(a: seq<int>, b: seq<int>): (o: seq<bool>)
    ensures |o| == |a| + |b|
    decreases |a| + |b|
  {
    if a == [] then seq(|b|, _ => false)
    else if b == [] then seq(|a|, _ => true)
    else if a[0] <= b[0] then [true] + MergeOrigins(a[1..], b)
    else [false] + MergeOrigins(a, b[1..])
  }

  /** The entries of r whose origin flag is `flag`, in order. */
  function Pick(r: seq<int>, o: seq<bool>, flag: bool): seq<int>
    requires |r| == |o|
  {
    if r == [] then [] else (if o[0] == flag then [r[0]] else []) + Pick(r[1..], o[1..], flag)
  }

  lemma {:induction false} PickUniform(r: seq<int>, flag: bool)
    ensures Pick(r, seq(|r|, _ => flag), flag) == r
    ensures Pick(r, seq(|r|, _ => flag), !flag) == []
  {
    if r != [] {
      assert seq(|r|, _ => flag)[1..] == seq(|r| - 1, _ => flag);
      PickUniform(r[1..], flag);
    }
  }

  /** Stability, first half: the merge takes the elements of each run in
      their original order, so picking the entries taken from the left
      (right) run gives back that run. */
  lemma {:induction false} MergeKeepsRunOrder(a: seq<int>, b: seq<int>)
    ensures Pick(MergeSeq(a, b), MergeOrigins(a, b), true) == a
    ensures Pick(MergeSeq(a, b), MergeOrigins(a, b), false) == b
    decreases |a| + |b|
  {
    if a == [] {
      PickUniform(b, false);
    } else if b == [] {
      PickUniform(a, true);
    } else if a[0] <= b[0] {
      MergeKeepsRunOrder(a[1..], b);
      PickCons(a[0], true, MergeSeq(a[1..], b), MergeOrigins(a[1..], b));
      assert [a[0]] + a[1..] == a;
    } else {
      MergeKeepsRunOrder(a, b[1..]);
      PickCons(b[0], false, MergeSeq(a, b[1..]), MergeOrigins(a, b[1..]));
      assert [b[0]] + b[1..] == b;
    }
  }

  lemma PickCons(x: int, t: bool, r: seq<int>, o: seq<bool>)
    requires |r| == |o|
    ensures Pick([x] + r, [t] + o, t) == [x] + Pick(r, o, t)
    ensures Pick([x] + r, [t] + o, !t) == Pick(r, o, !t)
  {
    assert ([x] + r)[1..] == r && ([t] + o)[1..] == o;
  }

  /** Every entry of the merge comes from the run its origin flag names. */
  lemma {:induction false} MergeOriginMembers(a: seq<int>, b: seq<int>)
    ensures forall k :: 0 <= k < |a| + |b| && MergeOrigins(a, b)[k] ==> MergeSeq(a, b)[k] in a
    ensures forall k :: 0 <= k < |a| + |b| && !MergeOrigins(a, b)[k] ==> MergeSeq(a, b)[k] in b
    decreases |a| + |b|
  {
    if a != [] && b != [] {
      if a[0] <= b[0] {
        MergeOriginMembers(a[1..], b);
        assert forall x :: x in a[1..] ==> x in a;
      } else {
        MergeOriginMembers(a, b[1..]);
        assert forall x :: x in b[1..] ==> x in b;
      }
    }
  }

  /** Of two equal entries of r, one flagged as taken from the right run
      is never followed by one flagged as taken from the left run. */
  predicate LeftFirstOnTies(r: seq<int>, o: seq<bool>)
    requires |r| == |o|
  {
    forall k, k' :: 0 <= k < k' < |r| && !o[k] && r[k] == r[k'] ==> !o[k']
  }

  /** Putting x in front keeps the ties in order when x is taken from the
      left run, or when no entry equal to x is taken from the left run. */
  lemma LeftFirstOnTiesCons(x: int, t: bool, r: seq<int>, o: seq<bool>)
    requires |r| == |o| && LeftFirstOnTies(r, o)
    requires !t ==> forall k :: 0 <= k < |r| && o[k] ==> r[k] != x
    ensures LeftFirstOnTies([x] + r, [t] + o)
  {
    var r', o' := [x] + r, [t] + o;
    forall k, k' | 0 <= k < k' < |r'| && !o'[k] && r'[k] == r'[k']
      ensures !o'[k']
    {
      if k > 0 {
        assert r'[k] == r[k - 1] && r'[k'] == r[k' - 1] && o'[k] == o[k - 1];
      } else {
        assert r'[k'] == r[k' - 1];
      }
    }
  }

  /** Stability, second half: in the merge of two sorted runs, equal
      elements of the left run come before those of the right run. */
  lemma {:induction false} MergeStable(a: seq<int>, b: seq<int>)
    requires Sorted(a) && Sorted(b)
    ensures LeftFirstOnTies(MergeSeq(a, b), MergeOrigins(a, b))
    decreases |a| + |b|
  {
    if a == [] || b == [] {
      var r, o := MergeSeq(a, b), MergeOrigins(a, b);
      assert forall k :: 0 <= k < |o| ==> o[k] == (a != []);
    } else if a[0] <= b[0] {
      MergeStable(a[1..], b);
      LeftFirstOnTiesCons(a[0], true, MergeSeq(a[1..], b), MergeOrigins(a[1..], b));
    } else {
      MergeStable(a, b[1..]);
      MergeOriginMembers(a, b[1..]);
      SortedHead(a);
      LeftFirstOnTiesCons(b[0], false, MergeSeq(a, b[1..]), MergeOrigins(a, b[1..]));
    }
  }

  /** merge(arr, izq, medio, der): the runs arr[izq..medio] and
      arr[medio+1..der] (inclusive bounds) are copied out and merged back
      into arr[izq..der]; the rest of arr is untouched. The first loop
      takes from both copies while both have elements left, the second
      and the third copy what is left of the left and of the right run. */
  method Merge(arr: array<int>, izq: int, medio: int, der: int)
    requires 0 <= izq <= medio + 1 <= der + 1 <= arr.Length
    modifies arr
    ensures arr[izq..der + 1] == MergeSeq(old(arr[izq..medio + 1]), old(arr[medio + 1..der + 1]))
    ensures forall t :: 0 <= t < izq || der < t < arr.Length ==> arr[t] == old(arr[t])
  {
    var n1 := medio - izq + 1;
    var n2 := der - medio;
    ghost var s0 := arr[..];
    var izquierda := CopyRun(arr, izq, n1);
    var derecha := CopyRun(arr, medio + 1, n2);
    var i, j, k;
    ghost var hecho;
    i, j, k, hecho := MergeWhileBoth(arr, izquierda, derecha, izq);
    ghost var s1 := arr[..];
    var k'' := CopyRests(arr, izquierda, derecha, i, j, k);
    MergeComplete(s0, s1, arr[..], izquierda, derecha, hecho, i, j, izq, medio, der, k);
  }

  /** The states of Merge put together: the runs copied from s0, the
      first loop's output in s1 and the tail loops' output in s2 make
      s2[izq..der] the merge of the two runs of s0, and nothing else
      changes. */
  lemma MergeComplete(s0: seq<int>, s1: seq<int>, s2: seq<int>, izquierda: seq<int>, derecha: seq<int>,
                      hecho: seq<int>, i: nat, j: nat, izq: nat, medio: int, der: int, k: nat)
    requires izq <= medio + 1 <= der + 1 <= |s0| == |s1| == |s2|
    requires izquierda == s0[izq..medio + 1] && derecha == s0[medio + 1..der + 1]
    requires i <= |izquierda| && j <= |derecha| && (i == |izquierda| || j == |derecha|)
    requires k == izq + i + j && |hecho| == i + j
    requires forall t :: izq <= t < k ==> s1[t] == hecho[t - izq]
    requires MergeAcc(izquierda, derecha, i, j, hecho) == MergeAcc(izquierda, derecha, 0, 0, [])
    requires forall t :: 0 <= t < izq || k <= t < |s0| ==> s1[t] == s0[t]
    requires s2[k..der + 1] == izquierda[i..] + derecha[j..]
    requires forall t :: 0 <= t < k || der + 1 <= t < |s1| ==> s2[t] == s1[t]
    ensures s2[izq..der + 1] == MergeSeq(s0[izq..medio + 1], s0[medio + 1..der + 1])
    ensures forall t :: 0 <= t < izq || der < t < |s0| ==> s2[t] == s0[t]
  {
    assert s2[izq..k] == hecho;
    SliceSplit(s2, izq, k, der + 1);
    assert hecho + (izquierda[i..] + derecha[j..]) == hecho + izquierda[i..] + derecha[j..];
    MergeAccDone(izquierda, derecha, i, j, hecho);
  }

  /** A slice is the concatenation of its two parts. */
  lemma SliceSplit(s: seq<int>, lo: nat, mid: nat, hi: nat)
    requires lo <= mid <= hi <= |s|
    ensures s[lo..hi] == s[lo..mid] + s[mid..hi]
  {
    forall t | 0 <= t < hi - lo
      ensures s[lo..hi][t] == (s[lo..mid] + s[mid..hi])[t]
    {
      if t >= mid - lo {
        assert (s[lo..mid] + s[mid..hi])[t] == s[mid..hi][t - (mid - lo)];
      }
    }
  }

  /** The two tail loops together: what is left of the left run, then
      what is left of the right run, is copied to arr[k..]. */
  method CopyRests(arr: array<int>, izquierda: seq<int>, derecha: seq<int>, i: nat, j: nat, k: nat)
    returns (k'': nat)
    requires i <= |izquierda| && j <= |derecha| && k + (|izquierda| - i) + (|derecha| - j) <= arr.Length
    modifies arr
    ensures k'' == k + (|izquierda| - i) + (|derecha| - j)
    ensures arr[k..k''] == izquierda[i..] + derecha[j..]
    ensures forall t :: 0 <= t < k || k'' <= t < arr.Length ==> arr[t] == old(arr[t])
  {
    var k' := CopyRest(arr, izquierda, i, k);
    k'' := CopyRest(arr, derecha, j, k');
    MergeAssembled(arr[..], [], izquierda, derecha, i, j, k, k, k', k'');
    assert arr[k..k''] == arr[..][k..k''];
  }

  /** The three merge loops together: what the first loop wrote, then the
      rest of the left run, then the rest of the right run. */
  lemma MergeAssembled(out: seq<int>, hecho: seq<int>, a: seq<int>, b: seq<int>, i: nat, j: nat,
                       izq: nat, k: nat, k': nat, k'': nat)
    requires i <= |a| && j <= |b| && k == izq + |hecho| && k' == k + |a| - i && k'' == k' + |b| - j <= |out|
    requires forall t :: izq <= t < k ==> out[t] == hecho[t - izq]
    requires forall t :: k <= t < k' ==> out[t] == a[t - k + i]
    requires forall t :: k' <= t < k'' ==> out[t] == b[t - k' + j]
    ensures out[izq..k''] == hecho + a[i..] + b[j..]
  {
    var whole := hecho + a[i..] + b[j..];
    forall u | 0 <= u < |whole|
      ensures out[izq..k''][u] == whole[u]
    {
      var t := izq + u;
      if k <= t < k' {
        assert whole[u] == a[i..][t - k];
      } else if k' <= t {
        assert whole[u] == b[j..][t - k'];
      }
    }
  }

  /** The first merge loop: while both runs have elements left, the
      smaller front element (the left one on ties) is written at arr[k].
      On exit one run is used up; `hecho` is what was written, and the
      merge continued from there is the merge of both runs. */
  method MergeWhileBoth(arr: array<int>, izquierda: seq<int>, derecha: seq<int>, izq: nat)
    returns (i: nat, j: nat, k: nat, ghost hecho: seq<int>)
    requires izq + |izquierda| + |derecha| <= arr.Length
    modifies arr
    ensures i <= |izquierda| && j <= |derecha| && (i == |izquierda| || j == |derecha|)
    ensures k == izq + i + j && |hecho| == i + j
    ensures forall t :: izq <= t < k ==> arr[t] == hecho[t - izq]
    ensures MergeAcc(izquierda, derecha, i, j, hecho) == MergeAcc(izquierda, derecha, 0, 0, [])
    ensures forall t :: 0 <= t < izq || k <= t < arr.Length ==> arr[t] == old(arr[t])
  {
    i, j, k := 0, 0, izq;
    hecho := [];
    while i < |izquierda| && j < |derecha|
      invariant i <= |izquierda| && j <= |derecha| && k == izq + i + j
      invariant forall t :: 0 <= t < izq || k <= t < arr.Length ==> arr[t] == old(arr[t])
      invariant |hecho| == k - izq && forall t :: izq <= t < k ==> arr[t] == hecho[t - izq]
      invariant MergeAcc(izquierda, derecha, i, j, hecho) == MergeAcc(izquierda, derecha, 0, 0, [])
    {
      if izquierda[i] <= derecha[j] {
        arr[k] := izquierda[i];
        hecho := hecho + [izquierda[i]];
        i := i + 1;
      } else {
        arr[k] := derecha[j];
        hecho := hecho + [derecha[j]];
        j := j + 1;
      }
      k := k + 1;
    }
  }

  /** The second and third merge loops: the rest run[i..] of one run is
      copied to arr[k..]; the returned k is one past the last write. */
  method CopyRest(arr: array<int>, run: seq<int>, i: nat, k: nat) returns (k': nat)
    requires i <= |run| && k + |run| - i <= arr.Length
    modifies arr
    ensures k' == k + |run| - i
    ensures forall t :: k <= t < k' ==> arr[t] == run[t - k + i]
    ensures forall t :: 0 <= t < k || k' <= t < arr.Length ==> arr[t] == old(arr[t])
  {
    var i' := i;
    k' := k;
    while i' < |run|
      invariant i <= i' <= |run| && k' == k + i' - i
      invariant forall t :: 0 <= t < k || k' <= t < arr.Length ==> arr[t] == old(arr[t])
      invariant forall t :: k <= t < k' ==> arr[t] == run[t - k + i]
    {
      arr[k'] := run[i'];
      i' := i' + 1;
      k' := k' + 1;
    }
  }

  /** Once one run is used up, the loops append what is left of the
      other run. */
  lemma MergeAccRest(a: seq<int>, b: seq<int>, i: nat, j: nat, acc: seq<int>)
    requires i <= |a| && j <= |b| && (i == |a| || j == |b|)
    ensures MergeAcc(a, b, i, j, acc) == acc + a[i..] + b[j..]
  {
    MergeAccSuffixes(a, b, i, j, acc);
    if i == |a| {
      assert a[i..] == [];
    } else {
      assert b[j..] == [];
    }
  }

  /** When the first loop stops, what it appended followed by the rest
      of both runs is the merge of the two runs. */
  lemma MergeAccDone(a: seq<int>, b: seq<int>, i: nat, j: nat, acc: seq<int>)
    requires i <= |a| && j <= |b| && (i == |a| || j == |b|)
    requires MergeAcc(a, b, i, j, acc) == MergeAcc(a, b, 0, 0, [])
    ensures acc + a[i..] + b[j..] == MergeSeq(a, b)
  {
    MergeAccRest(a, b, i, j, acc);
    MergeAccSuffixes(a, b, 0, 0, []);
    assert a[0..] == a && b[0..] == b;
    assert [] + MergeSeq(a, b) == MergeSeq(a, b);
  }

  /** The copy of the run arr[from .. from + len) into a new vector,
      which the merge only reads. */
  method CopyRun(arr: array<int>, from: nat, len: nat) returns (run: seq<int>)
    requires from + len <= arr.Length
    ensures run == arr[from..from + len]
  {
    var copia := new int[len];
    for i := 0 to len
      invariant copia[..i] == arr[from..from + i]
    {
      copia[i] := arr[from + i];
      assert copia[..i + 1] == copia[..i] + [copia[i]];
    }
    run := copia[..];
  }

  /** merge_sort_secuencial(arr, izq, der): sorts arr[izq..der] (inclusive
      bounds; der = izq - 1 is the empty range) in place, leaving the rest
      of arr untouched. Both halves izq..medio and medio+1..der are
      shorter than the range, since izq <= medio < der. */
  method MergeSortRange(arr: array<int>, izq: int, der: int)
    requires 0 <= izq <= der + 1 <= arr.Length
    modifies arr
    ensures Sorted(arr[izq..der + 1])
    ensures multiset(arr[izq..der + 1]) == multiset(old(arr[izq..der + 1]))
    ensures arr[..izq] == old(arr[..izq]) && arr[der + 1..] == old(arr[der + 1..])
    decreases der - izq
  {
    if izq < der {
      var medio := izq + (der - izq) / 2;
      ghost var s0 := arr[..];
      MergeSortRange(arr, izq, medio);
      ghost var s1 := arr[..];
      MergeSortRange(arr, medio + 1, der);
      ghost var s2 := arr[..];
      Merge(arr, izq, medio, der);
      ghost var s3 := arr[..];
      assert s3[..izq] == s2[..izq] && s3[der + 1..] == s2[der + 1..];
      SortedHalvesMerged(s0, s1, s2, s3, izq, medio, der);
      assert arr[izq..der + 1] == s3[izq..der + 1];
    }
  }

  /** The bookkeeping of one level of the recursive sort, on snapshots of
      the array: s0 at entry, s1 after sorting the left half, s2 after
      sorting the right half, s3 after merging them. */
  lemma SortedHalvesMerged(s0: seq<int>, s1: seq<int>, s2: seq<int>, s3: seq<int>, izq: nat, medio: nat, der: nat)
    requires izq <= medio < der < |s0| && |s1| == |s0| && |s2| == |s0| && |s3| == |s0|
    requires Sorted(s1[izq..medio + 1]) && multiset(s1[izq..medio + 1]) == multiset(s0[izq..medio + 1])
    requires s1[..izq] == s0[..izq] && s1[medio + 1..] == s0[medio + 1..]
    requires Sorted(s2[medio + 1..der + 1]) && multiset(s2[medio + 1..der + 1]) == multiset(s1[medio + 1..der + 1])
    requires s2[..medio + 1] == s1[..medio + 1] && s2[der + 1..] == s1[der + 1..]
    requires s3[izq..der + 1] == MergeSeq(s2[izq..medio + 1], s2[medio + 1..der + 1])
    requires s3[..izq] == s2[..izq] && s3[der + 1..] == s2[der + 1..]
    ensures Sorted(s3[izq..der + 1])
    ensures multiset(s3[izq..der + 1]) == multiset(s0[izq..der + 1])
    ensures s3[..izq] == s0[..izq] && s3[der + 1..] == s0[der + 1..]
  {
    var left, right := s2[izq..medio + 1], s2[medio + 1..der + 1];
    PrefixSlices(s2, s1, medio + 1, izq, medio + 1);
    assert left == s1[izq..medio + 1] && s2[..izq] == s1[..izq];
    SuffixSlices(s1, s0, medio + 1, medio + 1, der + 1);
    assert s1[medio + 1..der + 1] == s0[medio + 1..der + 1] && s1[der + 1..] == s0[der + 1..];
    MergeSorted(left, right);
    MergePermutation(left, right);
    assert multiset(s3[izq..der + 1]) == multiset(s0[izq..medio + 1]) + multiset(s0[medio + 1..der + 1]);
    assert s0[izq..der + 1] == s0[izq..medio + 1] + s0[medio + 1..der + 1];
  }

  /** Two sequences that agree up to m agree on every slice below m. */
  lemma PrefixSlices(s: seq<int>, t: seq<int>, m: nat, lo: nat, hi: nat)
    requires |s| == |t| && lo <= hi <= m <= |s| && s[..m] == t[..m]
    ensures s[lo..hi] == t[lo..hi] && s[..lo] == t[..lo]
  {
    assert s[lo..hi] == s[..m][lo..hi] && t[lo..hi] == t[..m][lo..hi];
    assert s[..lo] == s[..m][..lo] && t[..lo] == t[..m][..lo];
  }

  /** Two sequences that agree from m on agree on every slice above m. */
  lemma SuffixSlices(s: seq<int>, t: seq<int>, m: nat, lo: nat, hi: nat)
    requires |s| == |t| && m <= lo <= hi <= |s| && s[m..] == t[m..]
    ensures s[lo..hi] == t[lo..hi] && s[hi..] == t[hi..]
  {
    forall k | m <= k < |s|
      ensures s[k] == t[k]
    {
      assert s[k] == s[m..][k - m] && t[k] == t[m..][k - m];
    }
    assert s[lo..hi] == t[lo..hi];
  }

  /** One rank's local sort of its chunk. */
  method SortChunk(mi_porcion: seq<int>) returns (ordenada: seq<int>)
    ensures Sorted(ordenada)
    ensures multiset(ordenada) == multiset(mi_porcion)
  {
    var arr := new int[|mi_porcion|](i requires 0 <= i < |mi_porcion| => mi_porcion[i]);
    assert arr[..] == mi_porcion;
    assert arr[0..|mi_porcion|] == arr[..];
    MergeSortRange(arr, 0, |mi_porcion| - 1);
    assert arr[0..|mi_porcion|] == arr[..];
    ordenada := arr[..];
  }

  /** merge_dos_vectores: the merge of two vectors, built by appending. */
  method MergeVectors(vec1: seq<int>, vec2: seq<int>) returns (resultado: seq<int>)
    ensures resultado == MergeSeq(vec1, vec2)
  {
    var i, j;
    resultado, i, j := AppendWhileBoth(vec1, vec2);
    ghost var hecho := resultado;
    resultado := AppendRest(resultado, vec1, i);
    resultado := AppendRest(resultado, vec2, j);
    MergeAccDone(vec1, vec2, i, j, hecho);
  }

  /** The first loop of merge_dos_vectores: append the smaller front
      element (the left one on ties) while both vectors have elements
      left. The merge continued from there is the merge of both. */
  method AppendWhileBoth(vec1: seq<int>, vec2: seq<int>) returns (resultado: seq<int>, i: nat, j: nat)
    ensures i <= |vec1| && j <= |vec2| && (i == |vec1| || j == |vec2|)
    ensures MergeAcc(vec1, vec2, i, j, resultado) == MergeAcc(vec1, vec2, 0, 0, [])
  {
    resultado := [];
    i, j := 0, 0;
    while i < |vec1| && j < |vec2|
      invariant i <= |vec1| && j <= |vec2|
      invariant MergeAcc(vec1, vec2, i, j, resultado) == MergeAcc(vec1, vec2, 0, 0, [])
    {
      if vec1[i] <= vec2[j] {
        resultado := resultado + [vec1[i]];
        i := i + 1;
      } else {
        resultado := resultado + [vec2[j]];
        j := j + 1;
      }
    }
  }

  /** The second and third loops of merge_dos_vectores: append what is
      left of one vector, from position i on. */
  method AppendRest(resultado: seq<int>, vec: seq<int>, i: nat) returns (r: seq<int>)
    requires i <= |vec|
    ensures r == resultado + vec[i..]
  {
    r := resultado;
    var i' := i;
    while i' < |vec|
      invariant i <= i' <= |vec|
      invariant r == resultado + vec[i..i']
    {
      assert vec[i..i' + 1] == vec[i..i'] + [vec[i']];
      r := r + [vec[i']];
      i' := i' + 1;
    }
    assert vec[i..|vec|] == vec[i..];
  }

  /** The merge as both merge functions of the program compute it, from
      positions i of a and j of b on, appending to acc: a[i] while b is
      used up or a[i] <= b[j], otherwise b[j]. */
  function MergeAcc(a: seq<int>, b: seq<int>, i: nat, j: nat, acc: seq<int>): seq<int>
    requires i <= |a| && j <= |b|
    decreases |a| - i + |b| - j
  {
    if i < |a| && (j == |b| || a[i] <= b[j]) then MergeAcc(a, b, i + 1, j, acc + [a[i]])
    else if j < |b| then MergeAcc(a, b, i, j + 1, acc + [b[j]])
    else acc
  }

  /** The loops append the merge of the remaining suffixes. */
  lemma {:induction false} MergeAccSuffixes(a: seq<int>, b: seq<int>, i: nat, j: nat, acc: seq<int>)
    requires i <= |a| && j <= |b|
    ensures MergeAcc(a, b, i, j, acc) == acc + MergeSeq(a[i..], b[j..])
    decreases |a| - i + |b| - j
  {
    if i < |a| && (j == |b| || a[i] <= b[j]) {
      MergeAccSuffixes(a, b, i + 1, j, acc + [a[i]]);
      assert a[i..] == [a[i]] + a[i + 1..];
      assert a[i..][1..] == a[i + 1..];
    } else if j < |b| {
      MergeAccSuffixes(a, b, i, j + 1, acc + [b[j]]);
      assert b[j..] == [b[j]] + b[j + 1..];
      assert b[j..][1..] == b[j + 1..];
    }
  }

  /** The root's fold: its own chunk, then merged with the chunk of each
      rank in rank order. */
  function MergeAll(chunks: seq<seq<int>>): seq<int>
    requires |chunks| >= 1
  {
    if |chunks| == 1 then chunks[0]
    else MergeSeq(MergeAll(chunks[..|chunks| - 1]), chunks[|chunks| - 1])
  }

  /** Folding merges over sorted chunks gives a sorted vector. */
  lemma {:induction false} MergeAllSorted(chunks: seq<seq<int>>)
    requires |chunks| >= 1
    requires forall r :: 0 <= r < |chunks| ==> Sorted(chunks[r])
    ensures Sorted(MergeAll(chunks))
  {
    if |chunks| > 1 {
      var front := chunks[..|chunks| - 1];
      assert forall r :: 0 <= r < |front| ==> front[r] == chunks[r];
      MergeAllSorted(front);
      MergeSorted(MergeAll(front), chunks[|chunks| - 1]);
    }
  }

  /** The folded result holds exactly the elements of all chunks: the
      multiset of the gathered chunks. */
  lemma {:induction false} MergeAllPermutation(chunks: seq<seq<int>>, epp: nat)
    requires |chunks| >= 1
    requires forall r :: 0 <= r < |chunks| ==> |chunks[r]| == epp
    ensures multiset(MergeAll(chunks)) == multiset(Gather(chunks, epp))
  {
    var k := |chunks| - 1;
    var front := chunks[..k];
    if k == 0 {
      assert Gather(chunks, epp) == Gather(front, epp) + chunks[0];
    } else {
      assert forall r :: 0 <= r < |front| ==> front[r] == chunks[r];
      MergeAllPermutation(front, epp);
      MergePermutation(MergeAll(front), chunks[k]);
      assert Gather(chunks, epp) == Gather(front, epp) + chunks[k];
    }
  }

  /** The size adjustment: when p does not divide n, n becomes
      (n / p) * p, with C++ division. */
  function RoundDown(n: int, p: nat): int
    requires p >= 1
  {
    if CRem(n, p) != 0 then CDiv(n, p) * p else n
  }

  /** The adjusted size is a multiple of p, and it is n itself exactly
      when p already divides n. The truncating division rounds toward
      zero: for n >= 0 the result is the last multiple of p at or below n,
      for n < 0 the first one at or above it, so a negative n above -p
      becomes 0 (n = -3 and p = 4 give 0), and the result is negative
      exactly when n <= -p. */
  lemma RoundDownBounds(n: int, p: nat)
    requires p >= 1
    ensures RoundDown(n, p) % p == 0
    ensures RoundDown(n, p) == n <==> n % p == 0
    ensures n >= 0 ==> RoundDown(n, p) <= n < RoundDown(n, p) + p && RoundDown(n, p) / p == n / p
    ensures n < 0 ==> RoundDown(n, p) - p < n <= RoundDown(n, p) <= 0
    ensures RoundDown(n, p) < 0 <==> n + p <= 0
  {
    CDivMod(n, p);
    var q, m := CDiv(n, p), CRem(n, p);
    assert RoundDown(n, p) == q * p == n - m;
    DivModUnique(n - m, p, q, 0);
    if q >= 0 {
      MulLe(0, q, p);
    } else {
      MulLe(q, -1, p);
    }
  }

  /** The root's input: n_total values, the i-th being the i-th draw. */
  method GenerateData(n_total: nat, draw: nat -> int) returns (datos_completos: seq<int>)
    ensures |datos_completos| == n_total
    ensures forall i :: 0 <= i < n_total ==> datos_completos[i] == draw(i)
  {
    var datos := new int[n_total];
    for i := 0 to n_total
      invariant forall i' :: 0 <= i' < i ==> datos[i'] == draw(i')
    {
      datos[i] := draw(i);
    }
    datos_completos := datos[..];
  }

  /** Every rank sorts the chunk it received. */
  method SortChunks(recibidas: seq<seq<int>>) returns (porciones: seq<seq<int>>)
    ensures |porciones| == |recibidas|
    ensures forall r :: 0 <= r < |recibidas| ==>
      Sorted(porciones[r]) && multiset(porciones[r]) == multiset(recibidas[r])
  {
    porciones := [];
    for rank := 0 to |recibidas|
      invariant |porciones| == rank
      invariant forall r :: 0 <= r < rank ==>
        Sorted(porciones[r]) && multiset(porciones[r]) == multiset(recibidas[r])
    {
      var ordenada := SortChunk(recibidas[rank]);
      porciones := porciones + [ordenada];
    }
  }

  /** The root's receive-and-merge loop over ranks 1 .. p - 1. */
  method RootMerge(porciones: seq<seq<int>>) returns (resultado_final: seq<int>)
    requires |porciones| >= 1
    ensures resultado_final == MergeAll(porciones)
  {
    resultado_final := porciones[0];
    for proceso := 1 to |porciones|
      invariant resultado_final == MergeAll(porciones[..proceso])
    {
      assert porciones[..proceso + 1][..proceso] == porciones[..proceso];
      resultado_final := MergeVectors(resultado_final, porciones[proceso]);
    }
    assert porciones[..|porciones|] == porciones;
  }

  /** What the root holds at the end of a run that does not stop: the
      adjusted size, the drawn data and the merged result. */
  datatype Sorting = Sorting(n_total: nat, datos_completos: seq<int>, resultado_final: seq<int>)

  /** The program for p processes, a requested size and the random draws.
      A negative adjusted size, which happens exactly when the request is
      at most -p, makes the resize of the root's data throw. Otherwise
      n_total is the request rounded toward zero to a multiple of p, and
      the root's final vector is sorted and holds exactly the n_total
      drawn values. */
  method Run(p: nat, nSolicitado: int, draw: nat -> int) returns (res: Result<Sorting>)
    requires p >= 1
    ensures res.Err? <==> nSolicitado + p <= 0
    ensures res.Err? ==> res.error == SizeError
    ensures res.Ok? ==> res.value.n_total == RoundDown(nSolicitado, p) && res.value.n_total % p == 0
    ensures res.Ok? ==> var d := res.value;
      |d.datos_completos| == d.n_total && forall i :: 0 <= i < d.n_total ==> d.datos_completos[i] == draw(i)
    ensures res.Ok? ==> var d := res.value;
      Sorted(d.resultado_final) && |d.resultado_final| == d.n_total &&
      multiset(d.resultado_final) == multiset(d.datos_completos)
  {
    var n_total := nSolicitado;
    if CRem(n_total, p) != 0 {
      n_total := CDiv(n_total, p) * p;
    }
    RoundDownBounds(nSolicitado, p);
    if n_total < 0 {
      return Err(SizeError);
    }
    var datos_completos, resultado_final := SortGenerated(p, n_total, draw);
    res := Ok(Sorting(n_total, datos_completos, resultado_final));
  }

  /** The run once n_total is fixed: the root draws the data and scatters
      it, every rank sorts its chunk, and the root merges the chunks in
      rank order. */
  method SortGenerated(p: nat, n_total: nat, draw: nat -> int)
    returns (datos_completos: seq<int>, resultado_final: seq<int>)
    requires p >= 1 && n_total % p == 0
    ensures |datos_completos| == n_total && forall i :: 0 <= i < n_total ==> datos_completos[i] == draw(i)
    ensures Sorted(resultado_final)
    ensures |resultado_final| == n_total
    ensures multiset(resultado_final) == multiset(datos_completos)
  {
    datos_completos := GenerateData(n_total, draw);
    var elementos_por_proceso := n_total / p;
    FlatIsProduct(p, 0, elementos_por_proceso);
    DivModUnique(n_total, p, elementos_por_proceso, 0);
    var recibidas := Scatter(datos_completos, p, elementos_por_proceso);
    var porciones := SortChunks(recibidas);
    resultado_final := RootMerge(porciones);
    SortedChunksMerge(porciones, recibidas, elementos_por_proceso);
    GatherScatter(datos_completos, p, elementos_por_proceso);
  }

  /** The root's result for chunks that are sorted permutations of the
      scattered ones: sorted, and a permutation of the gathered input. */
  lemma SortedChunksMerge(porciones: seq<seq<int>>, recibidas: seq<seq<int>>, epp: nat)
    requires |porciones| == |recibidas| >= 1
    requires forall r :: 0 <= r < |recibidas| ==> |recibidas[r]| == epp
    requires forall r :: 0 <= r < |recibidas| ==>
      Sorted(porciones[r]) && multiset(porciones[r]) == multiset(recibidas[r])
    ensures Sorted(MergeAll(porciones))
    ensures multiset(MergeAll(porciones)) == multiset(Gather(recibidas, epp))
    ensures |MergeAll(porciones)| == |Gather(recibidas, epp)|
  {
    forall r | 0 <= r < |porciones|
      ensures |porciones[r]| == epp
    {
      assert |multiset(porciones[r])| == |multiset(recibidas[r])|;
    }
    MergeAllSorted(porciones);
    MergeAllPermutation(porciones, epp);
    ChunkwisePermutation(porciones, recibidas, epp);
    assert |multiset(MergeAll(porciones))| == |multiset(Gather(recibidas, epp))|;
  }

  /** Replacing every chunk by a permutation of it permutes the gathered
      vector. */
  lemma {:induction false} ChunkwisePermutation(xs: seq<seq<int>>, ys: seq<seq<int>>, epp: nat)
    requires |xs| == |ys|
    requires forall r :: 0 <= r < |xs| ==> |xs[r]| == epp && |ys[r]| == epp
    requires forall r :: 0 <= r < |xs| ==> multiset(xs[r]) == multiset(ys[r])
    ensures multiset(Gather(xs, epp)) == multiset(Gather(ys, epp))
  {
    if xs != [] {
      var k := |xs| - 1;
      ChunkwisePermutation(xs[..k], ys[..k], epp);
    }
  }
}
