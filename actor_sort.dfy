/** The actor depth-sorter of the game scene: a top-down merge sort that orders
    actors by ascending distance to the player. */
module ActorSort {

  /** An actor as the sorter sees it: an identity and its distance to the player
      (the value get_object_distance(player) returns for it this frame). */
  datatype Actor = Actor(id: nat, distance: real)

  datatype Option<T> = None | Some(value: T)

  /** Nearer actors come first. */
  predicate Ascending(s: seq<Actor>) {
    forall i, j :: 0 <= i < j < |s| ==> s[i].distance <= s[j].distance
  }

  /** The sequence merge writes: repeatedly take the head of the left half when it is
      strictly nearer, otherwise the head of the right half; drain whichever half remains. */
  function Merged(l: seq<Actor>, r: seq<Actor>): (m: seq<Actor>)
    ensures |m| == |l| + |r|
    decreases |l| + |r|
  {
    if l == [] then r
    else if r == [] then l
    else if l[0].distance < r[0].distance then [l[0]] + Merged(l[1..], r)
    else [r[0]] + Merged(l, r[1..])
  }

  /** The merge loses and invents no actor: its output is a permutation of l + r. */
  lemma {:induction false} MergedPermutes(l: seq<Actor>, r: seq<Actor>)
    ensures multiset(Merged(l, r)) == multiset(l) + multiset(r)
    decreases |l| + |r|
  {
    if l == [] || r == [] {
    } else if l[0].distance < r[0].distance {
      MergedPermutes(l[1..], r);
      assert Merged(l, r) == [l[0]] + Merged(l[1..], r);
      assert l == [l[0]] + l[1..];
      assert multiset(l) == multiset([l[0]]) + multiset(l[1..]);
    } else {
      MergedPermutes(l, r[1..]);
      assert Merged(l, r) == [r[0]] + Merged(l, r[1..]);
      assert r == [r[0]] + r[1..];
      assert multiset(r) == multiset([r[0]]) + multiset(r[1..]);
    }
  }

  /** Merging two ascending sequences yields an ascending sequence. */
  lemma {:induction false} MergedAscending(l: seq<Actor>, r: seq<Actor>)
    requires Ascending(l) && Ascending(r)
    ensures Ascending(Merged(l, r))
    decreases |l| + |r|
  {
    if l == [] || r == [] {
    } else if l[0].distance < r[0].distance {
      var rest := Merged(l[1..], r);
      MergedAscending(l[1..], r);
      MergedPermutes(l[1..], r);
      HeadBelowAll(l[0], l[1..], r, rest);
    } else {
      var rest := Merged(l, r[1..]);
      MergedAscending(l, r[1..]);
      MergedPermutes(l, r[1..]);
      HeadBelowAll(r[0], l, r[1..], rest);
    }
  }

  /** An actor no farther than everything in l and r is no farther than anything in a
      permutation of l + r; prefixed to an ascending such permutation, it stays ascending. */
  lemma HeadBelowAll(x: Actor, l: seq<Actor>, r: seq<Actor>, rest: seq<Actor>)
    requires forall i :: 0 <= i < |l| ==> x.distance <= l[i].distance
    requires forall i :: 0 <= i < |r| ==> x.distance <= r[i].distance
    requires multiset(rest) == multiset(l) + multiset(r)
    requires Ascending(rest)
    ensures Ascending([x] + rest)
  {
    forall i | 0 <= i < |rest|
      ensures x.distance <= rest[i].distance
    {
      assert rest[i] in multiset(rest);
      assert rest[i] in l || rest[i] in r;
    }
  }

  /** On equal distances the right half's actor is taken first, so the merge is not stable. */
  lemma MergeTieTakesRight(x: Actor, y: Actor)
    requires x.distance == y.distance
    ensures Merged([x], [y]) == [y, x]
  {
  }

  /** sort_actors on sequences: split at ceil(n/2), sort both halves, merge. */
  function MergeSort(s: seq<Actor>): (t: seq<Actor>)
    ensures |t| == |s|
    decreases |s|
  {
    if |s| <= 1 then s
    else
      var half := (|s| + 1) / 2;
      Merged(MergeSort(s[..half]), MergeSort(s[half..]))
  }

  /** A sequence of two or more actors sorts to the merge of its sorted halves. */
  lemma MergeSortSplits(s: seq<Actor>)
    requires |s| > 1
    ensures MergeSort(s) == Merged(MergeSort(s[..(|s| + 1) / 2]), MergeSort(s[(|s| + 1) / 2..]))
  {
  }

  /** Sorting is a permutation of its input. */
  lemma {:induction false} MergeSortPermutes(s: seq<Actor>)
    ensures multiset(MergeSort(s)) == multiset(s)
    decreases |s|
  {
    if |s| > 1 {
      var half := (|s| + 1) / 2;
      var lo, hi := s[..half], s[half..];
      assert s == lo + hi;
      MergeSortPermutes(lo);
      MergeSortPermutes(hi);
      MergedPermutes(MergeSort(lo), MergeSort(hi));
      calc {
        multiset(MergeSort(s));
        multiset(Merged(MergeSort(lo), MergeSort(hi)));
        multiset(MergeSort(lo)) + multiset(MergeSort(hi));
        multiset(lo) + multiset(hi);
        multiset(lo + hi);
      }
    }
  }

  /** The sorted sequence is ascending by distance. */
  lemma {:induction false} MergeSortAscending(s: seq<Actor>)
    ensures Ascending(MergeSort(s))
    decreases |s|
  {
    if |s| > 1 {
      var half := (|s| + 1) / 2;
      MergeSortAscending(s[..half]);
      MergeSortAscending(s[half..]);
      MergedAscending(MergeSort(s[..half]), MergeSort(s[half..]));
    }
  }

  /** sort_actors exactly as written, whose only base case is a vector of size 1,
      allowed at most `fuel` nested calls; None means it was still recursing. */
  function SortActorsAsWritten(s: seq<Actor>, fuel: nat): (r: Option<seq<Actor>>)
    ensures r.Some? ==> |s| > 0
    decreases fuel
  {
    if fuel == 0 then None
    else if |s| == 1 then Some(s)
    else
      var half := (|s| + 1) / 2;
      var l := SortActorsAsWritten(s[..half], fuel - 1);
      var r := SortActorsAsWritten(s[half..], fuel - 1);
      if l.Some? && r.Some? then Some(Merged(l.value, r.value)) else None
  }

  /** On an empty vector the as-written recursion splits into two empty halves forever:
      no amount of fuel lets it return. */
  lemma {:induction false} EmptyInputNeverReturns(s: seq<Actor>, fuel: nat)
    requires s == []
    ensures SortActorsAsWritten(s, fuel) == None
  {
    if fuel > 0 {
      AsWrittenUnfolds(s, fuel);
      assert s[..0] == [] && s[0..] == [];
      EmptyInputNeverReturns(s[..0], fuel - 1);
    }
  }

  /** On a non-empty vector the as-written recursion returns within |s| nested calls,
      with the merge sort's result. */
  lemma {:induction false} AsWrittenAgreesWhenNonEmpty(s: seq<Actor>, fuel: nat)
    requires 0 < |s| <= fuel
    ensures SortActorsAsWritten(s, fuel) == Some(MergeSort(s))
    decreases |s|
  {
    if |s| == 1 {
      assert MergeSort(s) == s;
    } else {
      var half := (|s| + 1) / 2;
      var lo, hi, inner := s[..half], s[half..], fuel - 1;
      AsWrittenAgreesWhenNonEmpty(lo, inner);
      AsWrittenAgreesWhenNonEmpty(hi, inner);
      AsWrittenMerges(s, fuel, lo, hi);
      MergeSortSplits(s);
    }
  }

  /** As written, a call whose halves both return the merge sort of that half returns
      the merge of the two sorted halves. */
  lemma AsWrittenMerges(s: seq<Actor>, fuel: nat, lo: seq<Actor>, hi: seq<Actor>)
    requires |s| != 1 && fuel > 0
    requires lo == s[..(|s| + 1) / 2] && hi == s[(|s| + 1) / 2..]
    requires SortActorsAsWritten(lo, fuel - 1) == Some(MergeSort(lo))
    requires SortActorsAsWritten(hi, fuel - 1) == Some(MergeSort(hi))
    ensures SortActorsAsWritten(s, fuel) == Some(Merged(MergeSort(lo), MergeSort(hi)))
  {
    AsWrittenUnfolds(s, fuel);
  }

  /** One level of the as-written recursion on a vector whose size is not 1. */
  lemma AsWrittenUnfolds(s: seq<Actor>, fuel: nat)
    requires |s| != 1 && fuel > 0
    ensures var half := (|s| + 1) / 2;
      SortActorsAsWritten(s, fuel)
      == (var l := SortActorsAsWritten(s[..half], fuel - 1);
          var r := SortActorsAsWritten(s[half..], fuel - 1);
          if l.Some? && r.Some? then Some(Merged(l.value, r.value)) else None)
  {
  }

  /** merge: walk the two halves with read cursors and overwrite `merged` in place.
      The halves are only read, so they are passed as values. */
  method Merge(l: seq<Actor>, r: seq<Actor>, merged: array<Actor>)
    requires merged.Length == |l| + |r|
    modifies merged
    ensures merged[..] == Merged(l, r)
    ensures multiset(merged[..]) == multiset(l) + multiset(r)
    ensures Ascending(l) && Ascending(r) ==> Ascending(merged[..])
  {
    var lIdx, rIdx := 0, 0;
    var mergedIdx := 0;
    while mergedIdx < merged.Length
      invariant lIdx <= |l| && rIdx <= |r| && mergedIdx == lIdx + rIdx
      invariant merged[..mergedIdx] + Merged(l[lIdx..], r[rIdx..]) == Merged(l, r)
    {
      MergeStep(l, r, lIdx, rIdx);
      var next: Actor;
      if lIdx == |l| {
        next := r[rIdx];
        rIdx := rIdx + 1;
      } else if rIdx == |r| {
        next := l[lIdx];
        lIdx := lIdx + 1;
      } else if l[lIdx].distance < r[rIdx].distance {
        next := l[lIdx];
        lIdx := lIdx + 1;
      } else {
        next := r[rIdx];
        rIdx := rIdx + 1;
      }
      AppendStep(merged[..mergedIdx], next, Merged(l[lIdx..], r[rIdx..]), Merged(l, r));
      merged[mergedIdx] := next;
      assert merged[..mergedIdx + 1] == merged[..mergedIdx] + [next];
      mergedIdx := mergedIdx + 1;
    }
    assert merged[..] == merged[..mergedIdx];
    MergedPermutes(l, r);
    if Ascending(l) && Ascending(r) {
      MergedAscending(l, r);
    }
  }

  /** Moving the emitted head from the pending tail to the written prefix keeps their concatenation. */
  lemma AppendStep(done: seq<Actor>, next: Actor, rest: seq<Actor>, whole: seq<Actor>)
    requires done + ([next] + rest) == whole
    ensures (done + [next]) + rest == whole
  {
    assert done + ([next] + rest) == (done + [next]) + rest;
  }

  /** One step of the merge from cursors (li, ri): which head it emits and what remains. */
  lemma MergeStep(l: seq<Actor>, r: seq<Actor>, li: nat, ri: nat)
    requires li <= |l| && ri <= |r| && li + ri < |l| + |r|
    ensures li < |l| && (ri == |r| || l[li].distance < r[ri].distance) ==>
              Merged(l[li..], r[ri..]) == [l[li]] + Merged(l[li + 1..], r[ri..])
    ensures ri < |r| && (li == |l| || !(l[li].distance < r[ri].distance)) ==>
              Merged(l[li..], r[ri..]) == [r[ri]] + Merged(l[li..], r[ri + 1..])
  {
    assert li < |l| ==> l[li..][1..] == l[li + 1..];
    assert ri < |r| ==> r[ri..][1..] == r[ri + 1..];
  }

  /** sort_actors: sort copies of the two halves (split at ceil(n/2)) recursively, then
      merge them back into the caller's vector. The base case also covers the empty
      vector, on which the recursion as written (SortActorsAsWritten) never returns. */
  method SortActors(toSort: array<Actor>)
    modifies toSort
    ensures toSort[..] == MergeSort(old(toSort[..]))
    ensures Ascending(toSort[..])
    ensures multiset(toSort[..]) == multiset(old(toSort[..]))
    decreases toSort.Length
  {
    ghost var input := toSort[..];
    if toSort.Length > 1 {
      var half := (toSort.Length + 1) / 2;
      var lo, hi := toSort[..half], toSort[half..];
      var lHalf := new Actor[|lo|](i requires 0 <= i < |lo| => lo[i]);
      var rHalf := new Actor[|hi|](i requires 0 <= i < |hi| => hi[i]);
      assert lHalf[..] == lo && rHalf[..] == hi;
      SortActors(lHalf);
      SortActors(rHalf);
      var sortedLo, sortedHi := lHalf[..], rHalf[..];
      Merge(sortedLo, sortedHi, toSort);
      MergeSortSplits(input);
    } else {
      assert MergeSort(input) == input;
    }
    MergeSortAscending(input);
    MergeSortPermutes(input);
  }
}
