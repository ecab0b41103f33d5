/** Putting an element into a sequence and taking one out, place by place. */
module Splicing {
  import opened Keyed

  lemma Spliced<T>(s: seq<T>, k: nat, x: T)
    requires k <= |s|
    ensures var t := s[..k] + [x] + s[k..];
      && |t| == |s| + 1 && t[k] == x
      && (forall i {:trigger t[i]} :: 0 <= i < k ==> t[i] == s[i])
      && (forall i {:trigger t[i]} :: k < i < |t| ==> t[i] == s[i - 1])
  {
  }

  lemma CutOut<T>(s: seq<T>, k: nat)
    requires k < |s|
    ensures var t := s[..k] + s[k + 1..];
      && |t| == |s| - 1
      && (forall i {:trigger t[i]} :: 0 <= i < k ==> t[i] == s[i])
      && (forall i {:trigger t[i]} :: k <= i < |t| ==> t[i] == s[i + 1])
  {
  }

  lemma OthersDiffer<T>(s: seq<T>, k: nat)
    requires Distinct(s) && k < |s|
    ensures forall i :: 0 <= i < |s| && i != k ==> s[i] != s[k]
  {
  }

  lemma InsertDistinct<T>(s: seq<T>, k: nat, x: T)
    requires Distinct(s) && k <= |s| && x !in s
    ensures Distinct(s[..k] + [x] + s[k..])
  {
    Spliced(s, k, x);
  }

  lemma CutDistinct<T>(s: seq<T>, k: nat)
    requires Distinct(s) && k < |s|
    ensures Distinct(s[..k] + s[k + 1..])
  {
    CutOut(s, k);
  }
}
