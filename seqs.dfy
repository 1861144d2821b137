/** Generic facts about sequences used across the gallery model. */
module Seqs {

  /** `a` can be obtained from `b` by deleting elements: the order of what is kept is preserved. */
  predicate IsSubsequence<T(==)>(a: seq<T>, b: seq<T>)
    decreases |b|
  {
    if a == [] then true
    else if b == [] then false
    else (a[0] == b[0] && IsSubsequence(a[1..], b[1..])) || IsSubsequence(a, b[1..])
  }

  /** No element occurs twice. */
  predicate NoDup<T(==)>(s: seq<T>) {
    forall i, j :: 0 <= i < j < |s| ==> s[i] != s[j]
  }

  /** Keeping or dropping the last element of `b` extends a subsequence of its prefix. */
  lemma {:induction false} SubsequenceSnoc<T>(a: seq<T>, b: seq<T>, x: T)
    requires IsSubsequence(a, b)
    ensures IsSubsequence(a, b + [x])
    ensures IsSubsequence(a + [x], b + [x])
    decreases |b|
  {
    if a == [] {
      if b == [] {
        assert (a + [x])[1..] == [] && (b + [x])[1..] == [];
      } else {
        assert (b + [x])[1..] == b[1..] + [x];
        SubsequenceSnoc(a, b[1..], x);
      }
    } else {
      assert b != [];
      assert (b + [x])[1..] == b[1..] + [x];
      assert (a + [x])[1..] == a[1..] + [x];
      if a[0] == b[0] && IsSubsequence(a[1..], b[1..]) {
        SubsequenceSnoc(a[1..], b[1..], x);
      } else {
        SubsequenceSnoc(a, b[1..], x);
      }
    }
  }

  /** Putting `x` in front adds one occurrence of `x` and none of anything else. */
  lemma CountCons<T>(x: T, s: seq<T>, c: T)
    ensures multiset([x] + s)[c] == (if x == c then 1 else 0) + multiset(s)[c]
  {
  }

  /** The count in a non-empty sequence: its head, then its tail. */
  lemma CountHead<T>(s: seq<T>, c: T)
    requires s != []
    ensures multiset(s)[c] == (if s[0] == c then 1 else 0) + multiset(s[1..])[c]
  {
    assert s == [s[0]] + s[1..];
    CountCons(s[0], s[1..], c);
  }

  /** The count in a sequence of two or more: its first two elements, then the rest. */
  lemma CountTwo<T>(s: seq<T>, c: T)
    requires |s| >= 2
    ensures multiset(s)[c] == (if s[0] == c then 1 else 0) + (if s[1] == c then 1 else 0) + multiset(s[2..])[c]
  {
    CountHead(s, c);
    CountHead(s[1..], c);
    assert s[1..][1..] == s[2..];
  }

  /** Cutting a sequence in three splits every count into the counts of the parts. */
  lemma SliceCounts<T>(s: seq<T>, i: int, j: int, c: T)
    requires 0 <= i <= j <= |s|
    ensures multiset(s)[c] == multiset(s[0..i])[c] + multiset(s[i..j])[c] + multiset(s[j..|s|])[c]
  {
    assert s == s[0..i] + s[i..j] + s[j..|s|];
  }

  /** Concatenation is associative. */
  lemma AppendAssoc<T>(a: seq<T>, b: seq<T>, c: seq<T>)
    ensures a + b + c == a + (b + c)
  {
  }

  /** Regrouping a four-part concatenation. */
  lemma AppendRegroup<T>(a: seq<T>, b: seq<T>, c: seq<T>, d: seq<T>)
    ensures a + b + c + d == a + (b + c + d)
  {
  }

  /** Dropping the first `k` elements of `x + y` drops them from `x`. */
  lemma DropFromAppend<T>(x: seq<T>, y: seq<T>, k: nat)
    requires k <= |x|
    ensures (x + y)[k..] == x[k..] + y
  {
  }

  /** In a sequence without duplicates each member occurs exactly once. */
  lemma {:induction false} OnceWithoutDuplicates<T>(s: seq<T>, x: T)
    requires NoDup(s) && x in s
    ensures multiset(s)[x] == 1
  {
    var tail := s[1..];
    assert s == [s[0]] + tail;
    assert NoDup(tail) by {
      forall i, j | 0 <= i < j < |tail| ensures tail[i] != tail[j] { assert tail[i] == s[i + 1] && tail[j] == s[j + 1]; }
    }
    if s[0] == x {
      assert x !in tail by {
        forall j | 0 <= j < |tail| ensures tail[j] != x { assert tail[j] == s[j + 1]; }
      }
    } else {
      OnceWithoutDuplicates(tail, x);
    }
  }
}
