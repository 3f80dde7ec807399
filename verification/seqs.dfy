/** Sequences used as insertion-ordered sets, the way the server uses a JavaScript `Set`. */
module Seqs {

  /** No element occurs twice. */
  predicate NoDup<T(==)>(s: seq<T>) {
    forall i, j :: 0 <= i < j < |s| ==> s[i] != s[j]
  }

  /** The elements of `s` other than `x`, in their original order. */
  function Without<T(==,!new)>(s: seq<T>, x: T): (r: seq<T>)
    ensures forall y :: y in r <==> y in s && y != x
    ensures |r| <= |s|
    ensures x !in s ==> r == s
    ensures NoDup(s) ==> NoDup(r)
    ensures NoDup(s) && x in s ==> |r| == |s| - 1
  {
    if s == [] then []
    else if s[0] == x then
      Without(s[1..], x)
    else
      var rest := Without(s[1..], x);
      assert NoDup(s) ==> s[0] !in s[1..];
      [s[0]] + rest
  }

  /** Removing an element that was appended at the end gives back what came before it. */
  lemma {:induction false} WithoutAppend<T(!new)>(s: seq<T>, x: T)
    ensures Without(s + [x], x) == Without(s, x)
  {
    if s == [] {
      assert [x][1..] == [];
    } else {
      assert (s + [x])[1..] == s[1..] + [x];
      WithoutAppend(s[1..], x);
    }
  }

  /** `a` occurs at some position of `s` before some position holding `b`. */
  ghost predicate Before<T>(s: seq<T>, a: T, b: T) {
    exists p, q :: 0 <= p < q < |s| && s[p] == a && s[q] == b
  }

  lemma BeforeInTail<T>(s: seq<T>, a: T, b: T)
    requires s != [] && Before(s[1..], a, b)
    ensures Before(s, a, b)
  {
    var p, q :| 0 <= p < q < |s[1..]| && s[1..][p] == a && s[1..][q] == b;
    assert s[p + 1] == a && s[q + 1] == b;
  }

  /** Filtering keeps the original order: any two elements of the result appear in that order in
      the input. */
  lemma {:induction false} WithoutKeepsOrder<T(!new)>(s: seq<T>, x: T)
    ensures forall i, j :: 0 <= i < j < |Without(s, x)| ==> Before(s, Without(s, x)[i], Without(s, x)[j])
  {
    if s != [] {
      var r := Without(s, x);
      var rest := Without(s[1..], x);
      WithoutKeepsOrder(s[1..], x);
      forall i, j | 0 <= i < j < |r|
        ensures Before(s, r[i], r[j])
      {
        if s[0] == x {
          BeforeInTail(s, r[i], r[j]);
        } else if i == 0 {
          assert r[j] == rest[j - 1];
          assert r[j] in s[1..];
          var q :| 0 <= q < |s[1..]| && s[1..][q] == r[j];
          assert s[0] == r[0] && s[q + 1] == r[j];
        } else {
          assert r[i] == rest[i - 1] && r[j] == rest[j - 1];
          BeforeInTail(s, r[i], r[j]);
        }
      }
    }
  }

  /** Appending an element that is not yet present keeps a sequence duplicate-free. */
  lemma AppendFreshNoDup<T>(s: seq<T>, x: T)
    requires NoDup(s) && x !in s
    ensures NoDup(s + [x])
  {
  }
}
