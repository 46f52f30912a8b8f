/** `setDifference(a, b)` of src/setDifference.ts. A JavaScript Set iterates in
    insertion order and holds no element twice, so a Set is a duplicate-free sequence. */
module SetOps {
  import opened Seqs

  /** The elements of `a` that `b` lacks, in the order of `a`. */
  function SetDifference<T(==)>(a: seq<T>, b: seq<T>): (r: seq<T>)
    ensures IsSubsequence(r, a)
    ensures forall i :: 0 <= i < |r| ==> r[i] !in b
    ensures forall i :: 0 <= i < |a| && a[i] !in b ==> a[i] in r
  {
    if a == [] then []
    else if a[0] in b then SetDifference(a[1..], b)
    else [a[0]] + SetDifference(a[1..], b)
  }

  /** The difference of a Set is again a Set. */
  lemma DifferenceDistinct<T>(a: seq<T>, b: seq<T>)
    requires Distinct(a)
    ensures Distinct(SetDifference(a, b))
  {
    SubsequenceDistinct(SetDifference(a, b), a);
  }

  /** Removing nothing keeps every element, in order. */
  lemma {:induction false} DifferenceWithEmpty<T>(a: seq<T>)
    ensures SetDifference(a, []) == a
  {
    if a != [] {
      DifferenceWithEmpty(a[1..]);
    }
  }

  /** A Set minus itself is empty. */
  lemma DifferenceWithSelf<T>(a: seq<T>)
    ensures SetDifference(a, a) == []
  {
    SubsequenceMembers(SetDifference(a, a), a);
  }

  /** Taking away more leaves a subset: the difference with a larger `b` is a
      subsequence of the difference with a smaller one. */
  lemma {:induction false} DifferenceAntitone<T>(a: seq<T>, b: seq<T>, c: seq<T>)
    requires forall x :: x in b ==> x in c
    ensures IsSubsequence(SetDifference(a, c), SetDifference(a, b))
  {
    if a != [] {
      DifferenceAntitone(a[1..], b, c);
      var rc := SetDifference(a[1..], c);
      var rb := SetDifference(a[1..], b);
      if a[0] !in b {
        if a[0] in c {
          if rc != [] {
            SubsequenceCons(rc, rb, a[0]);
          }
        } else {
          assert ([a[0]] + rc)[1..] == rc;
          assert ([a[0]] + rb)[1..] == rb;
        }
      }
    }
  }
}
