/** The records the updater handles, and small facts about sequences of them
    that several rules share. */
module Rows {

  /** One spot-price observation: a row of the persisted table.
      Timestamps are whole seconds since the Unix epoch (UTC); prices are
      integers (micro-dollars), since every rule only compares them. */
  datatype Row = Row(
    region: string,
    zone: string,
    instanceType: string,
    price: int,
    timestamp: int)

  datatype Option<T> = None | Some(value: T)

  /** `sub` is obtained from `s` by deleting elements: it keeps their order. */
  predicate IsSubsequence<T(==)>(sub: seq<T>, s: seq<T>)
    decreases |s|
  {
    if sub == [] then true
    else if s == [] then false
    else if sub[0] == s[0] then IsSubsequence(sub[1..], s[1..])
    else IsSubsequence(sub, s[1..])
  }

  /** No element occurs twice. */
  predicate NoDuplicates<T(==)>(s: seq<T>)
  {
    forall i, j :: 0 <= i < j < |s| ==> s[i] != s[j]
  }

  /** A subsequence of a prefix is a subsequence of the prefix extended. */
  lemma {:induction false} SubsequenceExtend<T>(sub: seq<T>, s: seq<T>, x: T)
    requires IsSubsequence(sub, s)
    ensures IsSubsequence(sub, s + [x])
    ensures IsSubsequence(sub + [x], s + [x])
    decreases |s|
  {
    if s == [] {
      assert sub == [];
      assert (sub + [x])[1..] == [];
      assert (s + [x])[1..] == [];
    } else {
      assert (s + [x])[1..] == s[1..] + [x];
      if sub == [] {
        SubsequenceExtend(sub, s[1..], x);
      } else if sub[0] == s[0] {
        assert (sub + [x])[1..] == sub[1..] + [x];
        SubsequenceExtend(sub[1..], s[1..], x);
      } else {
        SubsequenceExtend(sub, s[1..], x);
      }
    }
  }

  /** Position of the first occurrence of `x` in `s`. */
  function FirstIndex<T(==)>(s: seq<T>, x: T): (i: nat)
    requires x in s
    ensures i < |s| && s[i] == x && x !in s[..i]
  {
    if s[0] == x then 0 else 1 + FirstIndex(s[1..], x)
  }

  /** The first occurrence of an element of a prefix lies in that prefix. */
  lemma {:induction false} FirstIndexPrefix<T>(s: seq<T>, n: nat, x: T)
    requires n <= |s| && x in s[..n]
    ensures FirstIndex(s, x) == FirstIndex(s[..n], x)
  {
    var i, j := FirstIndex(s, x), FirstIndex(s[..n], x);
    assert s[..n][j] == s[j];
  }

  /** Prepending an element keeps a subsequence a subsequence. */
  lemma {:induction false} SubsequencePrepend<T>(sub: seq<T>, t: seq<T>, x: T)
    requires IsSubsequence(sub, t)
    ensures IsSubsequence(sub, [x] + t)
    decreases |t|, 1
  {
    assert ([x] + t)[1..] == t;
    if sub != [] && sub[0] == x {
      SubsequenceDropHead(sub, t);
    }
  }

  /** Dropping the head of a subsequence keeps it a subsequence. */
  lemma {:induction false} SubsequenceDropHead<T>(sub: seq<T>, s: seq<T>)
    requires sub != [] && IsSubsequence(sub, s)
    ensures IsSubsequence(sub[1..], s)
    decreases |s|, 0
  {
    assert [s[0]] + s[1..] == s;
    if sub[0] == s[0] {
      SubsequencePrepend(sub[1..], s[1..], s[0]);
    } else {
      SubsequenceDropHead(sub, s[1..]);
      SubsequencePrepend(sub[1..], s[1..], s[0]);
    }
  }

  /** A subsequence of a suffix is a subsequence of the whole. */
  lemma {:induction false} SubsequenceOfSuffix<T>(sub: seq<T>, s: seq<T>, k: nat)
    requires k <= |s| && IsSubsequence(sub, s[k..])
    ensures IsSubsequence(sub, s)
    decreases k
  {
    if k > 0 {
      assert [s[k - 1]] + s[k..] == s[k - 1..];
      SubsequencePrepend(sub, s[k..], s[k - 1]);
      SubsequenceOfSuffix(sub, s, k - 1);
    }
  }

  lemma {:induction false} SubsequenceTransitive<T>(a: seq<T>, b: seq<T>, c: seq<T>)
    requires IsSubsequence(a, b) && IsSubsequence(b, c)
    ensures IsSubsequence(a, c)
    decreases |c|
  {
    if a != [] {
      if b[0] == c[0] {
        if a[0] == b[0] {
          SubsequenceTransitive(a[1..], b[1..], c[1..]);
        } else {
          SubsequenceTransitive(a, b[1..], c[1..]);
        }
      } else {
        SubsequenceTransitive(a, b, c[1..]);
        SubsequencePrepend(a, c[1..], c[0]);
        assert [c[0]] + c[1..] == c;
      }
    }
  }
}
