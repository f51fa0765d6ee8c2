/**
 * First-seen de-duplication of strings: the value shared by the two loops of the
 * program that keep a value only when it is non-empty and not kept already
 * (`extract_domains` in vaultprivacy/parser.py and the normalisation loop of
 * vaultprivacy/main.py).
 */
module Distinct {

  predicate NoDuplicates(s: seq<string>) {
    forall i, j :: 0 <= i < j < |s| ==> s[i] != s[j]
  }

  /** The non-empty values of `xs`, each once, in the order of their first occurrence. */
  function DistinctNonEmpty(xs: seq<string>): (r: seq<string>)
    ensures NoDuplicates(r)
    ensures forall x :: x in r <==> x in xs && x != ""
    decreases |xs|
  {
    if xs == [] then []
    else
      var kept := DistinctNonEmpty(xs[..|xs| - 1]);
      var x := xs[|xs| - 1];
      if x != "" && x !in kept then kept + [x] else kept
  }

  /** One more value either extends the kept values by itself or leaves them alone. */
  lemma DistinctNonEmptySnoc(xs: seq<string>, x: string)
    ensures DistinctNonEmpty(xs + [x])
         == if x != "" && x !in DistinctNonEmpty(xs) then DistinctNonEmpty(xs) + [x] else DistinctNonEmpty(xs)
  {
    assert (xs + [x])[..|xs|] == xs;
  }

  /** The position of the first occurrence of `x` in `xs`. */
  function FirstIndex(xs: seq<string>, x: string): (k: nat)
    requires x in xs
    ensures k < |xs| && xs[k] == x && x !in xs[..k]
  {
    if xs[0] == x then 0
    else
      var k := FirstIndex(xs[1..], x);
      assert xs[..k + 1] == [xs[0]] + xs[1..][..k];
      k + 1
  }

  /** A value that occurs in a prefix is first seen inside that prefix. */
  lemma FirstIndexPrefix(xs: seq<string>, m: nat, x: string)
    requires m <= |xs| && x in xs[..m]
    ensures FirstIndex(xs, x) == FirstIndex(xs[..m], x)
  {
    assert xs[FirstIndex(xs[..m], x)] == x;
  }

  /** The kept values appear in the order in which each one was first seen. */
  lemma {:induction false} FirstSeenOrder(xs: seq<string>, i: nat, j: nat)
    requires i < j < |DistinctNonEmpty(xs)|
    ensures FirstIndex(xs, DistinctNonEmpty(xs)[i]) < FirstIndex(xs, DistinctNonEmpty(xs)[j])
    decreases |xs|
  {
    var r := DistinctNonEmpty(xs);
    var n := |xs|;
    var init, last := xs[..n - 1], xs[n - 1];
    var kept := DistinctNonEmpty(init);
    assert xs == init + [last];
    DistinctNonEmptySnoc(init, last);
    if j < |kept| {
      assert r[i] == kept[i] && r[j] == kept[j];
      FirstSeenOrder(init, i, j);
      FirstIndexPrefix(xs, n - 1, kept[i]);
      FirstIndexPrefix(xs, n - 1, kept[j]);
    } else {
      assert r == kept + [last] && j == |kept| && last !in init;
      FirstIndexPrefix(xs, n - 1, kept[i]);
    }
  }

  /** Values that are kept already pass through unchanged. */
  lemma {:induction false} DistinctNonEmptyFixed(xs: seq<string>)
    requires NoDuplicates(xs) && "" !in xs
    ensures DistinctNonEmpty(xs) == xs
    decreases |xs|
  {
    if xs != [] {
      var init := xs[..|xs| - 1];
      assert NoDuplicates(init);
      assert forall x :: x in init ==> x in xs;
      DistinctNonEmptyFixed(init);
      var x := xs[|xs| - 1];
      assert x in xs;
      assert init + [x] == xs;
    }
  }

  /**
   * Every value of `xs` once, in the order of first occurrence: the key order
   * of a Python dict filled from `xs`.
   */
  function FirstSeen(xs: seq<string>): (r: seq<string>)
    ensures NoDuplicates(r)
    ensures forall x :: x in r <==> x in xs
    decreases |xs|
  {
    if xs == [] then []
    else
      var kept := FirstSeen(xs[..|xs| - 1]);
      var x := xs[|xs| - 1];
      if x !in kept then kept + [x] else kept
  }

  lemma FirstSeenSnoc(xs: seq<string>, x: string)
    ensures FirstSeen(xs + [x]) == if x !in FirstSeen(xs) then FirstSeen(xs) + [x] else FirstSeen(xs)
  {
    assert (xs + [x])[..|xs|] == xs;
  }

  lemma NoDuplicatesTail(s: seq<string>)
    requires NoDuplicates(s) && s != []
    ensures NoDuplicates(s[1..]) && s[0] !in s[1..]
  {
    var rest := s[1..];
    forall i, j | 0 <= i < j < |rest| ensures rest[i] != rest[j] {
      assert rest[i] == s[i + 1] && rest[j] == s[j + 1];
    }
    forall k | 0 <= k < |rest| ensures rest[k] != s[0] {
      assert rest[k] == s[k + 1];
    }
  }
}
