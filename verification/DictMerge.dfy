/** Adding the phrases of a further system dictionary to those of one character, with
    duplicates stripped on request (src/im/pinyin/py.c:331-375). */
module DictMerge {
  import opened Dictionary

  predicate Same(p: Phrase, q: Phrase) {
    p.strMap == q.strMap && p.text == q.text
  }

  predicate Holds(l: seq<Phrase>, p: Phrase) {
    exists n :: 0 <= n < |l| && Same(l[n], p)
  }

  /** The phrases not among the old ones, in order. */
  function News(held: seq<Phrase>, added: seq<Phrase>): seq<Phrase> {
    if added == [] then []
    else
      var last := added[|added| - 1];
      News(held, added[..|added| - 1]) + (if Holds(held, last) then [] else [last])
  }

  /** What the character has afterwards. */
  function Merged(held: seq<Phrase>, added: seq<Phrase>, stripDup: bool): seq<Phrase> {
    if held == [] || !stripDup then held + added else held + News(held, added)
  }

  lemma {:induction false} NewsStep(held: seq<Phrase>, added: seq<Phrase>, m: nat)
    requires m < |added|
    ensures News(held, added[..m + 1]) == News(held, added[..m]) + if Holds(held, added[m]) then [] else [added[m]]
  {
    assert added[..m + 1][..m] == added[..m];
  }

  /** The first loop: marks the duplicates and counts what is left. */
  method MarkDuplicates(phrase: array<Phrase>, added: array<Phrase>, stripDup: bool)
      returns (flag: array<bool>, left: nat)
    ensures fresh(flag) && flag.Length == added.Length
    ensures forall m :: 0 <= m < added.Length ==> (flag[m] <==> stripDup && Holds(phrase[..], added[m]))
    ensures left == if stripDup then |News(phrase[..], added[..])| else added.Length
  {
    hide Holds;
    flag := new bool[added.Length](_ => false);
    left := added.Length;
    if stripDup {
      var m := 0;
      while m < added.Length
        invariant 0 <= m <= added.Length && left == added.Length - m + |News(phrase[..], added[..m])|
        invariant forall i :: 0 <= i < m ==> (flag[i] <==> Holds(phrase[..], added[i]))
        invariant forall i :: m <= i < added.Length ==> !flag[i]
      {
        NewsStep(phrase[..], added[..], m);
        assert added[..][..m] == added[..m] && added[..][..m + 1] == added[..m + 1];
        var found := FindSame(phrase, added[m]);
        if found {
          flag[m] := true;
          left := left - 1;
        }
        m := m + 1;
      }
      assert added[..m] == added[..];
    }
  }

  method FindSame(phrase: array<Phrase>, p: Phrase) returns (found: bool)
    ensures found <==> Holds(phrase[..], p)
  {
    var n := 0;
    while n < phrase.Length
      invariant 0 <= n <= phrase.Length
      invariant forall i :: 0 <= i < n ==> !Same(phrase[i], p)
    {
      if phrase[n].strMap == p.strMap {
        if phrase[n].text == p.text {
          assert Same(phrase[..][n], p);
          return true;
        }
      }
      n := n + 1;
    }
    return false;
  }

  /** The branch of LoadPYPhraseDict for system phrases.  The write position ends exactly at
      the new number of phrases. */
  method MergeSystem(phrase: array<Phrase>, added: array<Phrase>, stripDup: bool) returns (merged: array<Phrase>)
    ensures merged[..] == Merged(phrase[..], added[..], stripDup)
  {
    hide Holds;
    if phrase.Length == 0 {
      assert phrase[..] == [] && [] + added[..] == added[..];
      return added;
    }
    ghost var held, news := phrase[..], added[..];
    var flag, left := MarkDuplicates(phrase, added, stripDup);
    KeptSize(held, news, stripDup);
    KeptIsMerged(held, news, stripDup);
    merged := new Phrase[phrase.Length + left](i => Phrase("", "", 0, 0));
    forall i | 0 <= i < phrase.Length { merged[i] := phrase[i]; }
    assert phrase[..] == held && added[..] == news;
    assert merged[..phrase.Length] == held;
    CopyUnmarked(merged, phrase.Length, added, flag, stripDup, held);
  }

  /** The copying loop.  The write position ends at the new number of phrases. */
  method CopyUnmarked(merged: array<Phrase>, count: nat, added: array<Phrase>, flag: array<bool>, stripDup: bool,
      ghost held: seq<Phrase>)
    requires merged != added && count <= merged.Length && merged[..count] == held
    requires flag.Length == added.Length
    requires forall m :: 0 <= m < added.Length ==> (flag[m] <==> stripDup && Holds(held, added[m]))
    requires merged.Length == |Kept(held, added[..], stripDup)|
    modifies merged
    ensures merged[..] == Kept(held, added[..], stripDup)
  {
    hide Holds, Kept;
    ghost var news := added[..];
    var orig, m := count, 0;
    NothingKept(held, stripDup);
    assert news[..0] == [];
    KeptGrows(held, news);
    while m < added.Length
      modifies merged
      invariant 0 <= m <= added.Length == |news| && orig == |Kept(held, news[..m], stripDup)| <= merged.Length
      invariant merged[..orig] == Kept(held, news[..m], stripDup)
    {
      KeptStep(held, news, stripDup, m);
      if !flag[m] {
        KeptFits(held, news, stripDup, m);
        merged[orig] := added[m];
        assert merged[..orig + 1] == merged[..orig] + [news[m]];
        orig := orig + 1;
      }
      m := m + 1;
    }
    assert news[..m] == news;
    assert orig == merged.Length;
  }

  lemma KeptGrows(held: seq<Phrase>, added: seq<Phrase>)
    ensures forall stripDup :: |held| <= |Kept(held, added, stripDup)|
  {
  }

  lemma KeptIsMerged(held: seq<Phrase>, added: seq<Phrase>, stripDup: bool)
    requires held != []
    ensures Kept(held, added, stripDup) == Merged(held, added, stripDup)
  {
  }

  lemma {:induction false} KeptSize(held: seq<Phrase>, added: seq<Phrase>, stripDup: bool)
    ensures |Kept(held, added, stripDup)| == |held| + if stripDup then |News(held, added)| else |added|
  {
  }

  lemma NothingKept(held: seq<Phrase>, stripDup: bool)
    ensures Kept(held, [], stripDup) == held
  {
  }

  /** The phrases written when the copying loop stands at the end of `seen`. */
  function Kept(held: seq<Phrase>, seen: seq<Phrase>, stripDup: bool): seq<Phrase> {
    held + if stripDup then News(held, seen) else seen
  }

  lemma KeptStep(held: seq<Phrase>, added: seq<Phrase>, stripDup: bool, m: nat)
    requires m < |added|
    ensures Kept(held, added[..m + 1], stripDup)
      == Kept(held, added[..m], stripDup) + if stripDup && Holds(held, added[m]) then [] else [added[m]]
  {
    NewsStep(held, added, m);
  }

  lemma {:induction false} NewsGrow(held: seq<Phrase>, added: seq<Phrase>, m: nat)
    requires m <= |added|
    ensures |News(held, added[..m])| <= |News(held, added)|
    decreases |added| - m
  {
    if m < |added| {
      NewsStep(held, added, m);
      NewsGrow(held, added, m + 1);
    } else {
      assert added[..m] == added;
    }
  }

  lemma KeptFits(held: seq<Phrase>, added: seq<Phrase>, stripDup: bool, m: nat)
    requires m < |added| && !(stripDup && Holds(held, added[m]))
    ensures |Kept(held, added[..m], stripDup)| < |Kept(held, added, stripDup)|
  {
    NewsStep(held, added, m);
    NewsGrow(held, added, m + 1);
  }

  /* ----- what a merge means ----- */

  /** Nothing old is lost or moved; what follows are phrases of the new dictionary that were
      not among the old ones; and every phrase of either dictionary is there afterwards. */
  lemma {:induction false} MergeHolds(held: seq<Phrase>, added: seq<Phrase>, p: Phrase)
    ensures held <= Merged(held, added, true)
    ensures p in News(held, added) <==> p in added && !Holds(held, p)
    ensures Holds(Merged(held, added, true), p) <==> Holds(held, p) || Holds(added, p)
    decreases |added|
  {
    NewsMembers(held, added, p);
    var all := Merged(held, added, true);
    if Holds(held, p) {
      var n :| 0 <= n < |held| && Same(held[n], p);
      assert all[n] == held[n];
    } else if Holds(added, p) {
      var n :| 0 <= n < |added| && Same(added[n], p);
      NewsMembers(held, added, added[n]);
      assert added[n] in all;
    }
    if Holds(all, p) {
      var n :| 0 <= n < |all| && Same(all[n], p);
      if n < |held| { assert Same(held[n], p); } else {
        NewsMembers(held, added, all[n]);
        assert all[n] in added;
      }
    }
  }

  lemma {:induction false} NewsMembers(held: seq<Phrase>, added: seq<Phrase>, p: Phrase)
    ensures p in News(held, added) <==> p in added && !Holds(held, p)
  {
    hide Holds;
    if added != [] {
      NewsMembers(held, added[..|added| - 1], p);
      assert added == added[..|added| - 1] + [added[|added| - 1]];
    }
  }

  lemma {:induction false} NoNews(held: seq<Phrase>, added: seq<Phrase>)
    requires forall m :: 0 <= m < |added| ==> Holds(held, added[m])
    ensures News(held, added) == []
  {
    hide Holds;
    if added != [] { NoNews(held, added[..|added| - 1]); }
  }

  /** Old phrases are those with the same code and text; without stripping all is added, repeats
      and all. */
  lemma MergeByCodeAndText(held: seq<Phrase>, added: seq<Phrase>, p: Phrase)
    ensures held != [] ==>
      (p in Merged(held, added, true) <==>
        p in held || (p in added && forall q :: q in held ==> q.strMap != p.strMap || q.text != p.text))
    ensures Merged(held, added, false) == held + added && Merged([], added, true) == added
  {
    MergeHolds(held, added, p);
    if Holds(held, p) {
      var n :| 0 <= n < |held| && Same(held[n], p);
      assert held[n] in held;
    }
    if q :| q in held && Same(q, p) {
      var n :| 0 <= n < |held| && held[n] == q;
      assert Holds(held, p);
    }
  }

  /** Reading the same dictionary again adds nothing. */
  lemma MergeIsIdempotent(held: seq<Phrase>, added: seq<Phrase>)
    ensures Merged(Merged(held, added, true), added, true) == Merged(held, added, true)
  {
    hide News;
    var all := Merged(held, added, true);
    forall m | 0 <= m < |added|
      ensures Holds(all, added[m])
    {
      assert Same(added[m], added[m]);
      MergeHolds(held, added, added[m]);
    }
    if all != [] { NoNews(all, added); } else { assert added == []; }
  }
}
