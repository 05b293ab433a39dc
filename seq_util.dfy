/** Sequence helpers shared by the order book and the engine: first-occurrence
    search, removal at a position, and the key/value projections of the
    multimaps that the book and the engine keep as sequences of pairs. */
module SeqUtil {

  /** Position of the first occurrence of `x` in `s`, or `|s|` when absent. */
  function IndexOf<T(==)>(s: seq<T>, x: T): (k: nat)
    ensures k <= |s|
    ensures k < |s| ==> s[k] == x
    ensures forall j :: 0 <= j < k ==> s[j] != x
    ensures k == |s| <==> x !in s
  {
    if s == [] then 0
    else if s[0] == x then 0
    else 1 + IndexOf(s[1..], x)
  }

  /** No element occurs twice. */
  ghost predicate Distinct<T(!new)>(s: seq<T>) {
    forall x :: multiset(s)[x] <= 1
  }

  /** Appending an element not yet present keeps a sequence free of duplicates. */
  lemma DistinctAppend<T(!new)>(s: seq<T>, x: T)
    requires Distinct(s) && x !in s
    ensures Distinct(s + [x])
  {
    assert multiset(s + [x]) == multiset(s) + multiset{x};
    forall y ensures multiset(s + [x])[y] <= 1 {
      assert multiset(s)[y] <= 1;
    }
  }

  /** `s` without its element at position `k`. */
  function RemoveAt<T>(s: seq<T>, k: nat): (r: seq<T>)
    requires k < |s|
    ensures |r| == |s| - 1
    ensures forall j :: 0 <= j < k ==> r[j] == s[j]
    ensures forall j :: k <= j < |r| ==> r[j] == s[j + 1]
  {
    s[..k] + s[k + 1..]
  }

  /** `s` without the first occurrence of `x`; `s` itself when `x` is absent. */
  function RemoveFirst<T(==)>(s: seq<T>, x: T): (r: seq<T>)
    ensures x !in s ==> r == s
    ensures x in s ==> r == RemoveAt(s, IndexOf(s, x))
  {
    var k := IndexOf(s, x);
    if k < |s| then RemoveAt(s, k) else s
  }

  /** Removing the first occurrence of `x` takes one `x` out of the multiset. */
  lemma RemoveFirstMultiset<T>(s: seq<T>, x: T)
    ensures multiset(RemoveFirst(s, x)) == multiset(s) - multiset{x}
    ensures |RemoveFirst(s, x)| == if x in s then |s| - 1 else |s|
  {
    if x in s {
      RemoveAtMultiset(s, IndexOf(s, x));
    }
  }

  lemma RemoveAtMultiset<T>(s: seq<T>, k: nat)
    requires k < |s|
    ensures multiset(RemoveAt(s, k)) == multiset(s) - multiset{s[k]}
  {
    assert s == s[..k] + [s[k]] + s[k + 1..];
  }

  /** The keys of a sequence of pairs. */
  function Firsts<A, B>(s: seq<(A, B)>): (r: seq<A>)
    ensures |r| == |s|
    ensures forall j :: 0 <= j < |s| ==> r[j] == s[j].0
  {
    if s == [] then [] else [s[0].0] + Firsts(s[1..])
  }

  /** The values of a sequence of pairs. */
  function Seconds<A, B>(s: seq<(A, B)>): (r: seq<B>)
    ensures |r| == |s|
    ensures forall j :: 0 <= j < |s| ==> r[j] == s[j].1
  {
    if s == [] then [] else [s[0].1] + Seconds(s[1..])
  }

  lemma FirstsAppend<A, B>(s: seq<(A, B)>, e: (A, B))
    ensures Firsts(s + [e]) == Firsts(s) + [e.0]
  {
  }

  lemma SecondsAppend<A, B>(s: seq<(A, B)>, e: (A, B))
    ensures Seconds(s + [e]) == Seconds(s) + [e.1]
  {
  }

  lemma FirstsRemoveAt<A, B>(s: seq<(A, B)>, k: nat)
    requires k < |s|
    ensures Firsts(RemoveAt(s, k)) == RemoveAt(Firsts(s), k)
  {
  }

  lemma SecondsRemoveAt<A, B>(s: seq<(A, B)>, k: nat)
    requires k < |s|
    ensures Seconds(RemoveAt(s, k)) == RemoveAt(Seconds(s), k)
  {
  }

  /** Removing one entry whose key is `a` lowers the number of entries
      with key `a` by exactly one, and leaves every other key's count alone. */
  lemma CountAfterRemoveAt<A, B>(s: seq<(A, B)>, k: nat, a: A)
    requires k < |s|
    ensures multiset(Firsts(RemoveAt(s, k)))[a]
         == multiset(Firsts(s))[a] - (if s[k].0 == a then 1 else 0)
  {
    FirstsRemoveAt(s, k);
    RemoveAtMultiset(Firsts(s), k);
  }

  /** Removing an entry that is present takes exactly its value out of the
      multiset of values. */
  lemma SecondsRemoveFirst<A, B>(s: seq<(A, B)>, e: (A, B))
    requires e in s
    ensures multiset(Seconds(RemoveFirst(s, e))) == multiset(Seconds(s)) - multiset{e.1}
  {
    var k := IndexOf(s, e);
    SecondsRemoveAt(s, k);
    RemoveAtMultiset(Seconds(s), k);
  }

  /** Splitting at `n` loses nothing, and the multiset splits the same way. */
  lemma SplitAt<T>(s: seq<T>, n: nat)
    requires n <= |s|
    ensures s == s[..n] + s[n..]
    ensures multiset(s) == multiset(s[..n]) + multiset(s[n..])
  {
    assert s == s[..n] + s[n..];
  }

  /** A non-empty prefix is the first element followed by a prefix of the rest. */
  lemma PrefixFront<T>(s: seq<T>, n: nat)
    requires 0 < n <= |s|
    ensures s[..n] == [s[0]] + s[1..][..n - 1]
  {
  }

  /** Taking out an element of `a` from `a + b` takes it out of `a`. */
  lemma MinusFromLeft<T>(a: multiset<T>, b: multiset<T>, x: T)
    requires x in a
    ensures (a + b) - multiset{x} == (a - multiset{x}) + b
  {
  }

  /** Taking out an element of `b` from `a + b` takes it out of `b`. */
  lemma MinusFromRight<T>(a: multiset<T>, b: multiset<T>, x: T)
    requires x in b
    ensures (a + b) - multiset{x} == a + (b - multiset{x})
  {
  }

  /** Taking `a` and then `b` out of a multiset is taking out `a + b`. */
  lemma MinusTwice<T>(m: multiset<T>, a: multiset<T>, b: multiset<T>)
    ensures (m - a) - b == m - (a + b)
  {
  }

  /** Linear search for the first occurrence of `x`. */
  method Find<T(==)>(s: seq<T>, x: T) returns (k: nat)
    ensures k == IndexOf(s, x)
  {
    k := 0;
    while k < |s| && s[k] != x
      invariant k <= |s|
      invariant forall j :: 0 <= j < k ==> s[j] != x
    {
      k := k + 1;
    }
    IndexOfUnique(s, x, k);
  }

  /** Linear search for the first entry whose key is `a`. */
  method FindKey<A(==), B>(s: seq<(A, B)>, a: A) returns (k: nat)
    ensures k == IndexOf(Firsts(s), a)
  {
    k := 0;
    while k < |s| && s[k].0 != a
      invariant k <= |s|
      invariant forall j :: 0 <= j < k ==> s[j].0 != a
    {
      k := k + 1;
    }
    IndexOfUnique(Firsts(s), a, k);
  }

  /** The conditions IndexOf promises determine its value. */
  lemma IndexOfUnique<T>(s: seq<T>, x: T, k: nat)
    requires k <= |s|
    requires k < |s| ==> s[k] == x
    requires forall j :: 0 <= j < k ==> s[j] != x
    ensures k == IndexOf(s, x)
  {
  }
}
