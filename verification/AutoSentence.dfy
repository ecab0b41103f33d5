/** PYCreateAuto, the greedy builder of a whole sentence (src/im/pinyin/py.c:1024-1162). */
module AutoSentence {
  import opened Pyfa
  import opened PyParser
  import opened ParsePy
  import opened Dictionary

  /** What the builder looks at: the dictionary and the codes of the typed syllables. */
  datatype Query = Query(cfg: Config, dict: seq<Group>, typed: seq<string>, sp: bool)

  predicate Coherent(p: Phrase) {
    |p.strMap| == 2 * |p.text| && '\0' !in p.strMap
  }

  predicate Lexicon(dict: seq<Group>) {
    forall g :: 0 <= g < |dict| ==>
      |dict[g].strMap| == 2 && '\0' !in dict[g].strMap &&
      forall b :: 0 <= b < |dict[g].bases| ==>
        |dict[g].bases[b].hz| == 1 && dict[g].bases[b].hit < 0x1_0000_0000
        && (forall k :: 0 <= k < |dict[g].bases[b].user| ==> Coherent(dict[g].bases[b].user[k]))
        && (forall k :: 0 <= k < |dict[g].bases[b].system| ==> Coherent(dict[g].bases[b].system[k]))
  }

  predicate TypedCodes(q: Query) {
    forall i :: 0 <= i < |q.typed| ==> |q.typed[i]| == 2 && '\0' !in q.typed[i]
  }

  predicate Sane(q: Query) {
    Lexicon(q.dict) && TypedCodes(q)
  }

  function Join(ss: seq<string>): string {
    if ss == [] then "" else ss[0] + Join(ss[1..])
  }

  /** The code of the syllables behind position `at`. */
  function Rest(q: Query, at: nat): string
    requires at < |q.typed|
  {
    Join(q.typed[at + 1..])
  }

  lemma {:induction false} JoinedCodes(ss: seq<string>, i: nat)
    requires forall j :: 0 <= j < |ss| ==> |ss[j]| == 2
    ensures |Join(ss)| == 2 * |ss|
    ensures i < |ss| ==> Join(ss)[2 * i] == ss[i][0] && Join(ss)[2 * i + 1] == ss[i][1]
  {
    if ss != [] { JoinedCodes(ss[1..], if i > 0 then i - 1 else 0); }
  }

  lemma {:induction false} JoinedPlain(ss: seq<string>)
    requires forall j :: 0 <= j < |ss| ==> '\0' !in ss[j]
    ensures '\0' !in Join(ss)
  {
    if ss != [] { JoinedPlain(ss[1..]); }
  }

  /* ----- candidates ----- */

  /** A phrase of the dictionary: number k of the user or system phrases of base b in group g. */
  datatype Choice = Choice(user: bool, g: nat, b: nat, k: nat)

  function Phrases(base: Base, user: bool): seq<Phrase> {
    if user then base.user else base.system
  }

  predicate InDict(dict: seq<Group>, c: Choice) {
    c.g < |dict| && c.b < |dict[c.g].bases| && c.k < |Phrases(dict[c.g].bases[c.b], c.user)|
  }

  function PhraseOf(dict: seq<Group>, c: Choice): Phrase
    requires InDict(dict, c)
  {
    Phrases(dict[c.g].bases[c.b], c.user)[c.k]
  }

  /** The phrase matches the typed syllables from `at` on: its first syllable agrees and the
      rest of its code begins the rest of the typed code. */
  ghost predicate Candidate(q: Query, at: nat, c: Choice)
    requires Sane(q) && at < |q.typed|
  {
    && InDict(q.dict, c)
    && Agree2(q.cfg, q.dict[c.g].strMap, q.typed[at], q.sp)
    && Begins(q.cfg, PhraseOf(q.dict, c).strMap, Rest(q, at), q.sp)
  }

  /** Longer codes first, then more hits, then the later stamp. */
  predicate Better(p: Phrase, r: Phrase) {
    || |p.strMap| > |r.strMap|
    || (|p.strMap| == |r.strMap| && (p.hit > r.hit || (p.hit == r.hit && p.stamp > r.stamp)))
  }

  /** A phrase for the whole input; such input gets no sentence. */
  ghost predicate Complete(q: Query, c: Choice)
    requires Sane(q) && q.typed != []
  {
    Candidate(q, 0, c) && |PhraseOf(q.dict, c).strMap| == |Rest(q, 0)|
  }

  /** c comes before (user, g, b, k) in the order of the two passes. */
  predicate Precedes(c: Choice, user: bool, g: nat, b: nat, k: nat) {
    || (c.user && !user)
    || (c.user == user && (c.g < g || (c.g == g && (c.b < b || (c.b == b && c.k < k)))))
  }

  /** `best` wins against c: it is better, or as good and earlier. */
  ghost predicate Dominated(q: Query, best: Option<Choice>, c: Choice)
    requires InDict(q.dict, c) && (best.Some? ==> InDict(q.dict, best.value))
  {
    best.Some? && (c == best.value || Wins(q, best.value, c))
  }

  predicate Wins(q: Query, best: Choice, c: Choice)
    requires InDict(q.dict, c) && InDict(q.dict, best)
  {
    if Precedes(c, best.user, best.g, best.b, best.k) then Better(PhraseOf(q.dict, best), PhraseOf(q.dict, c))
    else !Better(PhraseOf(q.dict, c), PhraseOf(q.dict, best))
  }

  /** The search so far: `best` is a candidate that wins against all seen, and none seen is
      a phrase for the whole input or left in a comparison. */
  ghost predicate Leads(q: Query, at: nat, best: Option<Choice>, user: bool, g: nat, b: nat, k: nat)
    requires Sane(q) && at < |q.typed|
  {
    && (best.Some? ==> Candidate(q, at, best.value) && Precedes(best.value, user, g, b, k))
    && (forall c :: Candidate(q, at, c) && Precedes(c, user, g, b, k) ==>
      Dominated(q, best, c) && !(at == 0 && Complete(q, c)) && !Overruns(q, at, c))
  }

  lemma {:induction false} RestIsPlain(q: Query, at: nat)
    requires Sane(q) && at < |q.typed|
    ensures |Rest(q, at)| == 2 * (|q.typed| - at - 1) && '\0' !in Rest(q, at)
  {
    JoinedCodes(q.typed[at + 1..], 0);
    JoinedPlain(q.typed[at + 1..]);
  }

  /** Comparing phrase c at position `at` reads behind the end of its code. */
  ghost predicate Overruns(q: Query, at: nat, c: Choice)
    requires Sane(q) && at < |q.typed|
  {
    && InDict(q.dict, c)
    && Agree2(q.cfg, q.dict[c.g].strMap, q.typed[at], q.sp)
    && !Comparable(q.cfg, PhraseOf(q.dict, c).strMap, Rest(q, at), q.sp)
  }

  /** It does if and only if the phrase matches, wildcards count, and the typed syllable behind
      the phrase has one for its initial. */
  lemma {:induction false} OverrunsExactly(q: Query, at: nat, c: Choice)
    requires Sane(q) && at < |q.typed|
    ensures Overruns(q, at, c) <==>
      && Candidate(q, at, c)
      && (!q.cfg.fullPY || q.sp)
      && at + 1 + |PhraseOf(q.dict, c).text| < |q.typed|
      && q.typed[at + 1 + |PhraseOf(q.dict, c).text|][0] == USER
  {
    hide Comparable, Agree2, Begins;
    RestIsPlain(q, at);
    if InDict(q.dict, c) {
      var p := PhraseOf(q.dict, c);
      PhraseIsCoherent(q, c);
      ComparableExactly(q.cfg, p.strMap, Rest(q, at), q.sp);
      if |p.strMap| < |Rest(q, at)| {
        JoinedCodes(q.typed[at + 1..], |p.text|);
        assert q.typed[at + 1..][|p.text|] == q.typed[at + 1 + |p.text|];
      }
    }
  }

  lemma {:induction false} PhraseIsCoherent(q: Query, c: Choice)
    requires Sane(q) && InDict(q.dict, c)
    ensures Coherent(PhraseOf(q.dict, c))
  {
  }

  /** It does so before the search comes to a phrase for the whole input. */
  ghost predicate OverrunsFirst(q: Query, at: nat, c: Choice)
    requires Sane(q) && at < |q.typed|
  {
    Overruns(q, at, c) && forall d :: at == 0 && Precedes(d, c.user, c.g, c.b, c.k) ==> !Complete(q, d)
  }

  /** A phrase for the whole input that comes before all such. */
  ghost predicate CompleteFirst(q: Query, c: Choice)
    requires Sane(q) && q.typed != []
  {
    Complete(q, c) && forall d :: Precedes(d, c.user, c.g, c.b, c.k) ==> !Overruns(q, 0, d)
  }

  lemma OnlyOneFirst(q: Query, c: Choice, d: Choice)
    requires Sane(q) && q.typed != [] && CompleteFirst(q, c)
    ensures !OverrunsFirst(q, 0, d)
  {
    hide Sane, Overruns, Rest;
    OverrunsExactly(q, 0, d);
    RestIsPlain(q, 0);
    if Overruns(q, 0, d) && d == c { PhraseIsCoherent(q, c); }
  }

  lemma OverrunsMatch(q: Query, at: nat)
    requires Sane(q) && at < |q.typed|
    ensures forall c :: Overruns(q, at, c) ==> Candidate(q, at, c)
  {
    forall c | Overruns(q, at, c)
      ensures Candidate(q, at, c)
    {
      OverrunsExactly(q, at, c);
    }
  }

  /** No comparison at the position does so. */
  ghost predicate Stays(q: Query, at: nat)
    requires Sane(q) && at < |q.typed|
  {
    forall c :: !Overruns(q, at, c)
  }

  /** No comparison the builder can make does so. */
  ghost predicate Defined(q: Query)
    requires Sane(q)
  {
    forall at: nat, c :: at + 1 < |q.typed| ==> !Overruns(q, at, c)
  }

  lemma LeadsInDict(q: Query, at: nat, best: Option<Choice>, user: bool, g: nat, b: nat, k: nat)
    requires Sane(q) && at < |q.typed| && Leads(q, at, best, user, g, b, k)
    ensures best.Some? ==> InDict(q.dict, best.value)
  {
  }

  /** Looking at one more phrase keeps the search on its way. */
  lemma {:induction false} OneMore(q: Query, at: nat, was: Option<Choice>, best: Option<Choice>, c: Choice)
    requires Sane(q) && at < |q.typed| && InDict(q.dict, c)
    requires Leads(q, at, was, c.user, c.g, c.b, c.k)
    requires !(at == 0 && Complete(q, c)) && !Overruns(q, at, c)
    requires best ==
      if Candidate(q, at, c) && (was.None? || Better(PhraseOf(q.dict, c), PhraseOf(q.dict, was.value)))
      then Some(c) else was
    ensures Leads(q, at, best, c.user, c.g, c.b, c.k + 1)
  {
    hide Sane, Begins, Agree2, Overruns;
    forall d | Candidate(q, at, d) && Precedes(d, c.user, c.g, c.b, c.k + 1)
      ensures Dominated(q, best, d) && !(at == 0 && Complete(q, d)) && !Overruns(q, at, d)
    {
      if d != c { assert Precedes(d, c.user, c.g, c.b, c.k); }
    }
  }

  /** What ends the search is the first of its kind. */
  lemma FirstSeen(q: Query, at: nat, best: Option<Choice>, c: Choice)
    requires Sane(q) && at < |q.typed| && Leads(q, at, best, c.user, c.g, c.b, c.k)
    ensures Overruns(q, at, c) ==> OverrunsFirst(q, at, c)
    ensures at == 0 && Complete(q, c) ==> CompleteFirst(q, c)
  {
    OverrunsMatch(q, at);
    hide Overruns, Candidate, Dominated, Sane;
  }

  /** How a search ends: outside a phrase code, at a phrase for the whole input, or with the
      best candidate if there is one. */
  datatype Search = Outside | Full | Leading(best: Option<Choice>)

  /** The innermost loop: the phrases of one base. */
  method ScanPhrases(q: Query, at: nat, rest: string, user: bool, g: nat, b: nat, before: Option<Choice>)
      returns (r: Search)
    requires Sane(q) && at + 1 < |q.typed| && rest == Rest(q, at)
    requires g < |q.dict| && b < |q.dict[g].bases| && Agree2(q.cfg, q.dict[g].strMap, q.typed[at], q.sp)
    requires Leads(q, at, before, user, g, b, 0)
    ensures r.Outside? ==> exists c :: OverrunsFirst(q, at, c)
    ensures r.Full? ==> at == 0 && exists c :: CompleteFirst(q, c)
    ensures r.Leading? ==> Leads(q, at, r.best, user, g, b, |Phrases(q.dict[g].bases[b], user)|)
  {
    hide Comparable, Compare, MatchFrom, Agree2, Agree, Leads, Rest;
    LeadsInDict(q, at, before, user, g, b, 0);
    var phrases := Phrases(q.dict[g].bases[b], user);
    RestIsPlain(q, at);
    var best := before;
    var k := 0;
    while k < |phrases|
      invariant 0 <= k <= |phrases| && (best.Some? ==> InDict(q.dict, best.value))
      invariant Leads(q, at, best, user, g, b, k)
    {
      var phrase := phrases[k];
      ghost var c := Choice(user, g, b, k);
      PhraseIsCoherent(q, c);
      var inside, val, matched := CmpMap(q.cfg, phrase.strMap, rest, q.sp);
      if !inside {
        FirstSeen(q, at, best, c);
        return Outside;
      }
      if val == 0 && matched == 2 * (|q.typed| - 1) {
        FirstSeen(q, at, best, c);
        return Full;
      }
      ghost var was := best;
      if val == 0 || |phrase.strMap| == matched {
        assert Candidate(q, at, c);
        if best.None? {
          best := Some(Choice(user, g, b, k));
        } else if |phrase.strMap| <= 2 * (|q.typed| - 1) {
          var chosen := PhraseOf(q.dict, best.value);
          if |phrase.strMap| == |chosen.strMap| {
            if phrase.hit > chosen.hit || (phrase.hit == chosen.hit && phrase.stamp > chosen.stamp) {
              best := Some(Choice(user, g, b, k));
            }
          } else if |phrase.strMap| > |chosen.strMap| {
            best := Some(Choice(user, g, b, k));
          }
        }
      }
      OneMore(q, at, was, best, c);
      k := k + 1;
    }
    r := Leading(best);
  }

  /** One pass over the dictionary: the user phrases or the system phrases. */
  method SearchPass(q: Query, at: nat, rest: string, user: bool, before: Option<Choice>)
      returns (r: Search)
    requires Sane(q) && at + 1 < |q.typed| && rest == Rest(q, at)
    requires Leads(q, at, before, user, 0, 0, 0)
    ensures r.Outside? ==> exists c :: OverrunsFirst(q, at, c)
    ensures r.Full? ==> at == 0 && exists c :: CompleteFirst(q, c)
    ensures r.Leading? ==> Leads(q, at, r.best, user, |q.dict|, 0, 0)
  {
    hide Agree2, AgreeInitials, Sane, Overruns, Leads, OverrunsFirst, CompleteFirst;
    var best := before;
    var g := 0;
    while g < |q.dict|
      invariant 0 <= g <= |q.dict| && Leads(q, at, best, user, g, 0, 0)
    {
      CodesAreTwo(q, g, at);
      var cmp := Cmp2Map(q.cfg, q.dict[g].strMap, q.typed[at], q.sp);
      if cmp == 0 {
        var b := 0;
        while b < |q.dict[g].bases|
          invariant 0 <= b <= |q.dict[g].bases| && Leads(q, at, best, user, g, b, 0)
        {
          r := ScanPhrases(q, at, rest, user, g, b, best);
          if !r.Leading? { return; }
          best := r.best;
          NextBase(q, at, best, user, g, b);
          b := b + 1;
        }
        NextGroup(q, at, best, user, g, b);
      } else {
        NextGroup(q, at, best, user, g, 0);
      }
      g := g + 1;
    }
    r := Leading(best);
  }

  lemma NextBase(q: Query, at: nat, best: Option<Choice>, user: bool, g: nat, b: nat)
    requires Sane(q) && at < |q.typed| && g < |q.dict| && b < |q.dict[g].bases|
    requires Leads(q, at, best, user, g, b, |Phrases(q.dict[g].bases[b], user)|)
    ensures Leads(q, at, best, user, g, b + 1, 0)
  {
    hide Sane, Agree2, Begins, Overruns, Dominated, Complete;
  }

  lemma NextGroup(q: Query, at: nat, best: Option<Choice>, user: bool, g: nat, b: nat)
    requires Sane(q) && at < |q.typed| && g < |q.dict| && Leads(q, at, best, user, g, b, 0)
    requires b == |q.dict[g].bases| || !Agree2(q.cfg, q.dict[g].strMap, q.typed[at], q.sp)
    ensures Leads(q, at, best, user, g + 1, 0, 0)
  {
    hide Sane, Agree2, Begins, Overruns, Dominated, Complete;
  }

  lemma {:induction false} CodesAreTwo(q: Query, g: nat, at: nat)
    requires Sane(q) && g < |q.dict| && at < |q.typed|
    ensures |q.dict[g].strMap| == 2 && |q.typed[at]| == 2
  {
  }

  /** The best phrase for the syllables from `at` on, user phrases first. */
  method BestPhrase(q: Query, at: nat) returns (r: Search)
    requires Sane(q) && at + 1 < |q.typed|
    ensures r.Outside? <==> exists c :: OverrunsFirst(q, at, c)
    ensures !r.Outside? ==> (r.Full? <==> at == 0 && exists c :: Complete(q, c))
    ensures r.Leading? && r.best.Some? ==> Candidate(q, at, r.best.value)
    ensures r.Leading? ==> Stays(q, at) && forall c :: Candidate(q, at, c) ==> Dominated(q, r.best, c)
  {
    r := SearchBoth(q, at);
    OverrunsMatch(q, at);
    hide Sane, Candidate, Dominated, Overruns;
    if r.Full? {
      ghost var c :| CompleteFirst(q, c);
      forall d ensures !OverrunsFirst(q, at, d) { OnlyOneFirst(q, c, d); }
    }
  }

  method SearchBoth(q: Query, at: nat) returns (r: Search)
    requires Sane(q) && at + 1 < |q.typed|
    ensures r.Outside? ==> exists c :: OverrunsFirst(q, at, c)
    ensures r.Full? ==> at == 0 && exists c :: CompleteFirst(q, c)
    ensures r.Leading? ==> (r.best.Some? ==> Candidate(q, at, r.best.value)) && forall c :: Candidate(q, at, c) ==>
      Dominated(q, r.best, c) && !(at == 0 && Complete(q, c)) && !Overruns(q, at, c)
  {
    hide Sane, Agree2, Begins, Dominated, Overruns, OverrunsFirst, CompleteFirst;
    var rest := JoinCodes(q, at);
    r := SearchPass(q, at, rest, true, None);
    if !r.Leading? { return; }
    r := SearchPass(q, at, rest, false, r.best);
  }

  method JoinCodes(q: Query, at: nat) returns (s: string)
    requires at < |q.typed|
    ensures s == Rest(q, at)
  {
    s := "";
    var val := at + 1;
    while val < |q.typed|
      invariant at + 1 <= val <= |q.typed|
      invariant Rest(q, at) == s + Join(q.typed[val..])
    {
      s := s + q.typed[val];
      val := val + 1;
    }
  }

  /* ----- single characters ----- */

  /** The C conversion of an unsigned hit count to int. */
  function AsInt(hit: nat): int {
    if hit < 0x8000_0000 then hit else hit - 0x1_0000_0000
  }

  ghost predicate Single(q: Query, at: nat, g: nat, b: nat)
    requires Sane(q) && at < |q.typed|
  {
    && g < |q.dict| && b < |q.dict[g].bases|
    && Agree2(q.cfg, q.dict[g].strMap, q.typed[at], q.sp)
    && AsInt(q.dict[g].bases[b].hit) >= 0
  }

  /** Character (g, b) has at least the hits of (i, j), and more if it comes later. */
  predicate MoreUsed(q: Query, g: nat, b: nat, i: nat, j: nat)
    requires g < |q.dict| && b < |q.dict[g].bases| && i < |q.dict| && j < |q.dict[i].bases|
  {
    var h, k := q.dict[g].bases[b].hit, q.dict[i].bases[j].hit;
    k < h || (k == h && (g < i || (g == i && b <= j)))
  }

  /** The character most often used among those that agree with the typed syllable. */
  method BestBase(q: Query, at: nat) returns (found: bool, pg: nat, pb: nat)
    requires Sane(q) && at < |q.typed|
    ensures found <==> exists g: nat, b: nat :: Single(q, at, g, b)
    ensures found ==> Single(q, at, pg, pb)
    ensures found ==> forall g: nat, b: nat :: Single(q, at, g, b) ==> MoreUsed(q, pg, pb, g, b)
  {
    hide Agree2;
    var val: int := -1;
    found, pg, pb := false, 0, 0;
    var g := 0;
    while g < |q.dict|
      invariant 0 <= g <= |q.dict| && (found ==>
        pg < g && val >= 0 && Single(q, at, pg, pb) && val == q.dict[pg].bases[pb].hit)
      invariant !found ==> val == -1
      invariant forall i: nat, j: nat :: Single(q, at, i, j) && i < g ==> found && MoreUsed(q, pg, pb, i, j)
    {
      var cmp := Cmp2Map(q.cfg, q.dict[g].strMap, q.typed[at], q.sp);
      if cmp == 0 {
        var b := 0;
        while b < |q.dict[g].bases|
          invariant 0 <= b <= |q.dict[g].bases| && (found ==>
            (pg < g || (pg == g && pb < b)) && val >= 0 && Single(q, at, pg, pb) && val == q.dict[pg].bases[pb].hit)
          invariant !found ==> val == -1
          invariant forall i: nat, j: nat :: Single(q, at, i, j) && (i < g || (i == g && j < b)) ==>
            found && MoreUsed(q, pg, pb, i, j)
        {
          if AsInt(q.dict[g].bases[b].hit) > val {
            val := q.dict[g].bases[b].hit;
            found, pg, pb := true, g, b;
          }
          b := b + 1;
        }
      }
      g := g + 1;
    }
  }

  /* ----- the sentence ----- */

  /** One step of the builder: a phrase, or a single character. */
  datatype Step = Whole(c: Choice) | Alone(g: nat, b: nat)

  predicate StepInDict(q: Query, s: Step) {
    match s
    case Whole(c) => InDict(q.dict, c)
    case Alone(g, b) => g < |q.dict| && b < |q.dict[g].bases|
  }

  function StepText(q: Query, s: Step): string
    requires StepInDict(q, s)
  {
    match s
    case Whole(c) => q.dict[c.g].bases[c.b].hz + PhraseOf(q.dict, c).text
    case Alone(g, b) => q.dict[g].bases[b].hz
  }

  function StepMap(q: Query, s: Step): string
    requires StepInDict(q, s)
  {
    match s
    case Whole(c) => q.dict[c.g].strMap + PhraseOf(q.dict, c).strMap
    case Alone(g, _) => q.dict[g].strMap
  }

  /** The step is the best one at position `at`: the phrase that wins against every other
      matching one, or, where no phrase matches, the first character with the most hits. */
  ghost predicate BestStep(q: Query, at: nat, s: Step)
    requires Sane(q) && at < |q.typed|
  {
    match s
    case Whole(c) =>
      at + 1 < |q.typed| && Stays(q, at) && Candidate(q, at, c)
      && forall d :: Candidate(q, at, d) ==> d == c || Wins(q, c, d)
    case Alone(g, b) =>
      (at + 1 < |q.typed| ==> Stays(q, at) && forall d :: !Candidate(q, at, d))
      && Single(q, at, g, b)
      && forall i: nat, j: nat :: Single(q, at, i, j) ==> MoreUsed(q, g, b, i, j)
  }

  /** The texts are built from best steps, each taken where the ones before it end. */
  ghost predicate Built(q: Query, steps: seq<Step>, auto: string, autoMap: string)
    requires Sane(q)
    decreases |steps|
  {
    if steps == [] then auto == "" && autoMap == ""
    else
      var s := steps[|steps| - 1];
      StepInDict(q, s) &&
      var n, m := |auto| - |StepText(q, s)|, |autoMap| - |StepMap(q, s)|;
      && 0 <= n < |q.typed| && 0 <= m
      && auto[n..] == StepText(q, s) && autoMap[m..] == StepMap(q, s)
      && BestStep(q, n, s)
      && Built(q, steps[..|steps| - 1], auto[..n], autoMap[..m])
  }

  /** No phrase and no character agrees with the syllables from `at` on. */
  ghost predicate Stuck(q: Query, at: nat)
    requires Sane(q) && at < |q.typed|
  {
    && (at + 1 < |q.typed| ==> Stays(q, at) && forall d :: !Candidate(q, at, d))
    && forall g: nat, b: nat :: !Single(q, at, g, b)
  }

  lemma {:induction false} StepSize(q: Query, at: nat, s: Step)
    requires Sane(q) && at < |q.typed| && BestStep(q, at, s)
    ensures StepInDict(q, s) && 0 < |StepText(q, s)| <= |q.typed| - at && |StepMap(q, s)| == 2 * |StepText(q, s)|
  {
    hide Agree2;
    RestIsPlain(q, at);
    match s
    case Whole(c) => assert Coherent(PhraseOf(q.dict, c));
    case Alone(g, b) =>
  }

  lemma {:induction false} BuiltMore(q: Query, steps: seq<Step>, auto: string, autoMap: string, s: Step)
    requires Sane(q) && Built(q, steps, auto, autoMap) && |auto| < |q.typed| && BestStep(q, |auto|, s)
    ensures StepInDict(q, s) && Built(q, steps + [s], auto + StepText(q, s), autoMap + StepMap(q, s))
  {
    hide BestStep, StepText, StepMap, Sane;
    StepSize(q, |auto|, s);
    var all := steps + [s];
    assert all[..|all| - 1] == steps;
    assert (auto + StepText(q, s))[..|auto|] == auto && (autoMap + StepMap(q, s))[..|autoMap|] == autoMap;
    assert (auto + StepText(q, s))[|auto|..] == StepText(q, s);
    assert (autoMap + StepMap(q, s))[|autoMap|..] == StepMap(q, s);
  }

  /** How one round of the loop ends. */
  datatype Round = Overrun | Covered | Nothing | Took(text: string, strMap: string)

  method TakeStep(q: Query, at: nat) returns (r: Round, ghost s: Step)
    requires Sane(q) && at < |q.typed|
    ensures r.Overrun? <==> at + 1 < |q.typed| && exists c :: OverrunsFirst(q, at, c)
    ensures !r.Overrun? ==> (r.Covered? <==> at == 0 && |q.typed| > 1 && exists c :: Complete(q, c))
    ensures r.Nothing? ==> Stuck(q, at)
    ensures r.Took? ==> BestStep(q, at, s) && StepInDict(q, s) && r.text == StepText(q, s) && r.strMap == StepMap(q, s)
  {
    hide Sane, Agree2, Begins, Complete, Better, OverrunsFirst, Stays;
    s := Alone(0, 0);
    if |q.typed| - at > 1 {
      var found := BestPhrase(q, at);
      if found.Outside? { return Overrun, s; }
      if found.Full? { return Covered, s; }
      if found.best.Some? {
        var c := found.best.value;
        var base := q.dict[c.g].bases[c.b];
        return Took(base.hz + PhraseOf(q.dict, c).text, q.dict[c.g].strMap + PhraseOf(q.dict, c).strMap), Whole(c);
      }
    }
    var found, g, b := BestBase(q, at);
    if !found { return Nothing, s; }
    return Took(q.dict[g].bases[b].hz, q.dict[g].strMap), Alone(g, b);
  }

  lemma {:induction false} NothingBuilt(q: Query)
    requires Sane(q)
    ensures Built(q, [], "", "")
  {
  }

  /** The steps taken cover all syllables before one that nothing in the dictionary agrees with. */
  ghost predicate StuckBehind(q: Query, steps: seq<Step>)
    requires Sane(q)
  {
    exists auto, autoMap :: Built(q, steps, auto, autoMap) && |auto| < |q.typed| && Stuck(q, |auto|)
  }

  /** They end before a syllable where a comparison reads behind the end of a phrase code. */
  ghost predicate OverrunBehind(q: Query, steps: seq<Step>)
    requires Sane(q)
  {
    exists auto, autoMap :: Built(q, steps, auto, autoMap) && |auto| + 1 < |q.typed|
      && exists c :: OverrunsFirst(q, |auto|, c)
  }

  /** The steps determine the texts. */
  lemma {:induction false} BuiltOnce(q: Query, steps: seq<Step>, a: string, m: string, b: string, n: string)
    requires Sane(q) && Built(q, steps, a, m) && Built(q, steps, b, n)
    ensures a == b && m == n
    decreases |steps|
  {
    hide BestStep, StepText, StepMap, Sane;
    if steps != [] {
      var s := steps[|steps| - 1];
      var i, j := |a| - |StepText(q, s)|, |m| - |StepMap(q, s)|;
      var k, l := |b| - |StepText(q, s)|, |n| - |StepMap(q, s)|;
      BuiltOnce(q, steps[..|steps| - 1], a[..i], m[..j], b[..k], n[..l]);
      assert a == a[..i] + a[i..] && b == b[..k] + b[k..] && m == m[..j] + m[j..] && n == n[..l] + n[l..];
    }
  }

  lemma NoOverrunBehind(q: Query, steps: seq<Step>, auto: string, autoMap: string)
    requires Sane(q) && Built(q, steps, auto, autoMap)
    requires |auto| + 1 < |q.typed| ==> forall c :: !OverrunsFirst(q, |auto|, c)
    ensures !OverrunBehind(q, steps)
  {
    hide Built, OverrunsFirst, Sane;
    forall a, m | Built(q, steps, a, m)
      ensures a == auto
    {
      BuiltOnce(q, steps, a, m, auto, autoMap);
    }
  }

  lemma SomeOverrunBehind(q: Query, steps: seq<Step>, auto: string, autoMap: string)
    requires Sane(q) && Built(q, steps, auto, autoMap) && |auto| + 1 < |q.typed|
    requires exists c :: OverrunsFirst(q, |auto|, c)
    ensures OverrunBehind(q, steps) && !Defined(q)
  {
    hide Built, Sane, Overruns, Complete;
    var c :| OverrunsFirst(q, |auto|, c);
    assert Overruns(q, |auto|, c);
  }

  /** PYCreateAuto.  The sentence is empty or has one character for every syllable, and it
      is built greedily from best steps.  It is empty only for a single syllable, for input
      a phrase covers as a whole, or where the steps taken end before a syllable nothing in
      the dictionary agrees with.  `inside` turns false exactly where a comparison reads
      behind the end of a phrase code at the position the steps taken have come to. */
  method CreateAuto(q: Query) returns (inside: bool, auto: string, autoMap: string, ghost steps: seq<Step>)
    requires Sane(q)
    ensures Defined(q) ==> inside
    ensures inside <==> !OverrunBehind(q, steps)
    ensures !inside ==> auto == ""
    ensures auto != "" ==> |auto| == |q.typed| && |autoMap| == 2 * |auto| && Built(q, steps, auto, autoMap)
    ensures auto != "" ==> Reads(q, steps, auto, autoMap)
    ensures |q.typed| == 1 || (|q.typed| > 1 && exists c :: Complete(q, c)) ==> auto == ""
    ensures inside && auto == "" ==> |q.typed| <= 1 || (exists c :: Complete(q, c)) || StuckBehind(q, steps)
  {
    hide Sane, OverrunsFirst, Complete, Built, StepText, StepMap, BestStep, Stuck, StepInDict, OverrunBehind, Reads;
    inside, auto, autoMap, steps := true, "", "", [];
    NothingBuilt(q);
    if |q.typed| == 1 {
      NoOverrunBehind(q, steps, auto, autoMap);
      return;
    }
    while |auto| < |q.typed|
      invariant inside && |auto| <= |q.typed| && |autoMap| == 2 * |auto| && Built(q, steps, auto, autoMap)
      invariant auto != "" ==> !exists c :: Complete(q, c)
      decreases |q.typed| - |auto|
    {
      ghost var s;
      var r;
      r, s := TakeStep(q, |auto|);
      if r.Overrun? {
        SomeOverrunBehind(q, steps, auto, autoMap);
        return false, "", autoMap, steps;
      }
      if r.Covered? || r.Nothing? {
        NoOverrunBehind(q, steps, auto, autoMap);
        return true, "", autoMap, steps;
      }
      StepSize(q, |auto|, s);
      BuiltMore(q, steps, auto, autoMap, s);
      auto, autoMap, steps := auto + r.text, autoMap + r.strMap, steps + [s];
    }
    NoOverrunBehind(q, steps, auto, autoMap);
    BuiltReads(q, steps, auto, autoMap);
  }

  /* ----- what the sentence means ----- */

  /** The syllables a step covers. */
  function Span(q: Query, s: Step): nat
    requires StepInDict(q, s)
  {
    match s
    case Whole(c) => 1 + |PhraseOf(q.dict, c).text|
    case Alone(_, _) => 1
  }

  /** The position the steps come to. */
  function EndOf(q: Query, steps: seq<Step>): nat
    requires forall k :: 0 <= k < |steps| ==> StepInDict(q, steps[k])
  {
    if steps == [] then 0 else EndOf(q, steps[..|steps| - 1]) + Span(q, steps[|steps| - 1])
  }

  /** From position n on stand the character of a base, whose group agrees with the syllable
      typed there, and behind it the characters of the phrase, if the step is one; in the codes
      the same from position 2n on. */
  ghost predicate Stands(q: Query, s: Step, n: nat, auto: string, autoMap: string)
    requires Sane(q) && StepInDict(q, s)
  {
    var (g, b) := match s { case Whole(c) => (c.g, c.b) case Alone(g, b) => (g, b) };
    && n < |auto| <= |q.typed| && |autoMap| == 2 * |auto|
    && auto[n..n + 1] == q.dict[g].bases[b].hz
    && autoMap[2 * n..2 * n + 2] == q.dict[g].strMap
    && Agree2(q.cfg, q.dict[g].strMap, q.typed[n], q.sp)
    && (s.Whole? ==>
      var p := if s.c.user then q.dict[g].bases[b].user[s.c.k] else q.dict[g].bases[b].system[s.c.k];
      && n + 1 + |p.text| <= |auto| && auto[n + 1..n + 1 + |p.text|] == p.text
      && 2 * n + 2 + |p.strMap| <= |autoMap| && autoMap[2 * n + 2..2 * n + 2 + |p.strMap|] == p.strMap)
  }

  /** Every step stands where the ones before it end, and the last ends the sentence. */
  ghost predicate Reads(q: Query, steps: seq<Step>, auto: string, autoMap: string)
    requires Sane(q)
  {
    && (forall k :: 0 <= k < |steps| ==> StepInDict(q, steps[k]))
    && EndOf(q, steps) == |auto|
    && forall k :: 0 <= k < |steps| ==> Stands(q, steps[k], EndOf(q, steps[..k]), auto, autoMap)
  }

  lemma {:induction false} BuiltReads(q: Query, steps: seq<Step>, auto: string, autoMap: string)
    requires Sane(q) && Built(q, steps, auto, autoMap)
    ensures Reads(q, steps, auto, autoMap)
    decreases |steps|
  {
    hide BestStep, StepText, StepMap, Sane, Stands, Reads, Span, Agrees;
    if steps == [] {
      NothingReads(q, auto, autoMap);
    } else {
      var s, init := steps[|steps| - 1], steps[..|steps| - 1];
      var n, m := |auto| - |StepText(q, s)|, |autoMap| - |StepMap(q, s)|;
      BuiltReads(q, init, auto[..n], autoMap[..m]);
      BuiltSize(q, steps, auto, autoMap);
      BuiltSize(q, init, auto[..n], autoMap[..m]);
      StepStands(q, s, n, auto, autoMap);
      ReadsMore(q, init, s, n, auto, autoMap);
      assert steps == init + [s];
    }
  }

  lemma BuiltSize(q: Query, steps: seq<Step>, auto: string, autoMap: string)
    requires Sane(q) && Built(q, steps, auto, autoMap)
    ensures |autoMap| == 2 * |auto| && |auto| <= |q.typed|
  {
    hide Built, Agrees;
    BuiltAgrees(q, steps, auto, autoMap);
  }

  lemma NothingReads(q: Query, auto: string, autoMap: string)
    requires Sane(q) && auto == ""
    ensures Reads(q, [], auto, autoMap)
  {
  }

  lemma ReadsMore(q: Query, steps: seq<Step>, s: Step, n: nat, auto: string, autoMap: string)
    requires Sane(q) && StepInDict(q, s) && n <= |auto| <= |q.typed| && |autoMap| == 2 * |auto|
    requires n + Span(q, s) == |auto| && Stands(q, s, n, auto, autoMap)
    requires Reads(q, steps, auto[..n], autoMap[..2 * n])
    ensures Reads(q, steps + [s], auto, autoMap)
  {
    hide Sane, Stands, Span;
    var all := steps + [s];
    assert all[..|steps|] == steps;
    forall k | 0 <= k < |all|
      ensures StepInDict(q, all[k]) && Stands(q, all[k], EndOf(q, all[..k]), auto, autoMap)
    {
      if k < |steps| {
        assert all[k] == steps[k] && all[..k] == steps[..k];
        StandsOn(q, steps[k], EndOf(q, steps[..k]), auto, autoMap, n);
      }
    }
  }

  lemma StandsOn(q: Query, s: Step, n: nat, auto: string, autoMap: string, end: nat)
    requires Sane(q) && StepInDict(q, s) && end <= |auto| <= |q.typed| && |autoMap| == 2 * |auto|
    requires Stands(q, s, n, auto[..end], autoMap[..2 * end])
    ensures Stands(q, s, n, auto, autoMap)
  {
    hide Sane, Agree2;
    FrontSlice(auto, end, n, n + 1);
    FrontSlice(autoMap, 2 * end, 2 * n, 2 * n + 2);
    if s.Whole? {
      var p := PhraseOf(q.dict, s.c);
      FrontSlice(auto, end, n + 1, n + 1 + |p.text|);
      FrontSlice(autoMap, 2 * end, 2 * n + 2, 2 * n + 2 + |p.strMap|);
    }
  }

  lemma FrontSlice(s: string, end: nat, i: nat, j: nat)
    requires i <= j <= end <= |s|
    ensures s[..end][i..j] == s[i..j]
  {
  }

  lemma StepParts(q: Query, s: Step)
    requires Sane(q) && StepInDict(q, s)
    ensures var (g, b) := match s { case Whole(c) => (c.g, c.b) case Alone(g, b) => (g, b) };
      && |StepText(q, s)| == Span(q, s) > 0 && |StepMap(q, s)| >= 2
      && StepText(q, s)[..1] == q.dict[g].bases[b].hz && StepMap(q, s)[..2] == q.dict[g].strMap
    ensures s.Whole? ==>
      StepText(q, s)[1..] == PhraseOf(q.dict, s.c).text && StepMap(q, s)[2..] == PhraseOf(q.dict, s.c).strMap
  {
  }

  lemma Parts(whole: string, n: nat, k: nat)
    requires n + k <= |whole|
    ensures whole[n..n + k] == whole[n..][..k] && whole[n + k..] == whole[n..][k..]
  {
  }

  lemma StepStands(q: Query, s: Step, n: nat, auto: string, autoMap: string)
    requires Sane(q) && StepInDict(q, s) && n < |q.typed| && BestStep(q, n, s)
    requires n <= |auto| <= |q.typed| && |autoMap| == 2 * |auto|
    requires auto[n..] == StepText(q, s) && autoMap[2 * n..] == StepMap(q, s)
    ensures n + Span(q, s) == |auto| && Stands(q, s, n, auto, autoMap)
  {
    hide Agree2, BestStep, Sane, StepText, StepMap, Span;
    StepParts(q, s);
    StepAgrees(q, n, s, 0);
    Parts(auto, n, 1);
    Parts(autoMap, 2 * n, 2);
    if s.Whole? {
      var p := PhraseOf(q.dict, s.c);
      assert auto[n + 1..] == p.text && autoMap[2 * n + 2..] == p.strMap;
    }
  }

  /** With every option off and no wildcard a phrase matches when its character's group and its own
      syllables are those typed, one after the other. */
  lemma StrictCandidate(q: Query, at: nat, c: Choice)
    requires Sane(q) && at < |q.typed| && InDict(q.dict, c)
    requires forall k :: 0 <= k < |q.cfg.fuzzyFinals| ==> !q.cfg.fuzzyFinals[k]
    requires forall k :: 0 <= k < |q.cfg.fuzzyInitials| ==> !q.cfg.fuzzyInitials[k]
    requires '0' !in q.dict[c.g].strMap && '0' !in PhraseOf(q.dict, c).strMap
    requires forall i :: 0 <= i < |q.typed| ==> '0' !in q.typed[i]
    ensures Candidate(q, at, c) <==>
      var p := PhraseOf(q.dict, c);
      && q.dict[c.g].strMap == q.typed[at] && at + 1 + |p.text| <= |q.typed|
      && forall i :: 0 <= i < |p.text| ==> p.strMap[2 * i..2 * i + 2] == q.typed[at + 1 + i]
  {
    var rest, p := Rest(q, at), PhraseOf(q.dict, c);
    RestIsPlain(q, at);
    PhraseIsCoherent(q, c);
    NoWildcardJoined(q.typed[at + 1..]);
    StrictComparison(q.cfg, p.strMap, rest, q.sp);
    StrictPair(q.cfg, q.dict[c.g].strMap, q.typed[at], q.sp);
    hide AgreeAt, Agree2, Sane;
    assert Begins(q.cfg, p.strMap, rest, q.sp) <==>
      |p.strMap| <= |rest| && forall i :: 0 <= i < |p.strMap| ==> p.strMap[i] == rest[i];
    if |p.strMap| <= |rest| {
      PairByPair(q.typed[at + 1..], p.strMap, |p.text|);
      assert q.typed[at + 1..][..|p.text|] == q.typed[at + 1..at + 1 + |p.text|];
    }
  }

  lemma {:induction false} NoWildcardJoined(ss: seq<string>)
    requires forall j :: 0 <= j < |ss| ==> '0' !in ss[j]
    ensures '0' !in Join(ss)
  {
    if ss != [] { NoWildcardJoined(ss[1..]); }
  }

  lemma StrictPair(cfg: Config, map1: string, map2: string, sp: bool)
    requires |map1| == 2 && |map2| == 2 && '0' !in map1 && '0' !in map2
    requires forall k :: 0 <= k < |cfg.fuzzyFinals| ==> !cfg.fuzzyFinals[k]
    requires forall k :: 0 <= k < |cfg.fuzzyInitials| ==> !cfg.fuzzyInitials[k]
    ensures Agree2(cfg, map1, map2, sp) <==> map1 == map2
  {
    assert map1[0] != '0' && map1[1] != '0' && map2[0] != '0' && map2[1] != '0';
  }

  /** A code equals the first n joined pairs exactly when it does so pair by pair. */
  lemma PairByPair(ss: seq<string>, code: string, n: nat)
    requires (forall j :: 0 <= j < |ss| ==> |ss[j]| == 2) && |code| == 2 * n && n <= |ss| && |Join(ss)| == 2 * |ss|
    ensures (forall i :: 0 <= i < |code| ==> code[i] == Join(ss)[i]) <==>
      forall i :: 0 <= i < n ==> code[2 * i..2 * i + 2] == ss[i]
  {
    hide Join;
    forall i: nat | i < n
      ensures code[2 * i..2 * i + 2] == ss[i] <==>
        code[2 * i] == Join(ss)[2 * i] && code[2 * i + 1] == Join(ss)[2 * i + 1]
    {
      JoinedCodes(ss, i);
    }
    if forall i :: 0 <= i < n ==> code[2 * i..2 * i + 2] == ss[i] {
      forall i | 0 <= i < |code|
        ensures code[i] == Join(ss)[i]
      {
        assert code[2 * (i / 2)..2 * (i / 2) + 2] == ss[i / 2];
        assert i == 2 * (i / 2) || i == 2 * (i / 2) + 1;
      }
    }
  }

  /** The phrase of a step has the longest code of those that match; among these the most hits,
      among these the latest stamp, and among these it comes first, user phrases before system
      phrases. */
  lemma BestPhraseWins(q: Query, at: nat, c: Choice, d: Choice)
    requires Sane(q) && at < |q.typed| && BestStep(q, at, Whole(c)) && Candidate(q, at, d)
    ensures InDict(q.dict, c) && InDict(q.dict, d)
    ensures var p, r := PhraseOf(q.dict, c), PhraseOf(q.dict, d);
      && |p.strMap| >= |r.strMap|
      && (|p.strMap| == |r.strMap| ==> p.hit >= r.hit)
      && (|p.strMap| == |r.strMap| && p.hit == r.hit ==> p.stamp >= r.stamp)
      && (|p.strMap| == |r.strMap| && p.hit == r.hit && p.stamp == r.stamp && c != d ==>
        || (c.user && !d.user)
        || (c.user == d.user && (c.g < d.g || (c.g == d.g && (c.b < d.b || (c.b == d.b && c.k < d.k))))))
  {
    hide Sane, Agree2, Begins;
  }

  /** The character of a step has the most hits of those that agree and whose hit count is no
      negative int, and is the first of these. */
  lemma BestCharacterWins(q: Query, at: nat, g: nat, b: nat, i: nat, j: nat)
    requires Sane(q) && at < |q.typed| && BestStep(q, at, Alone(g, b)) && i < |q.dict| && j < |q.dict[i].bases|
    requires Agree2(q.cfg, q.dict[i].strMap, q.typed[at], q.sp) && q.dict[i].bases[j].hit < 0x8000_0000
    ensures g < |q.dict| && b < |q.dict[g].bases|
    ensures var h, k := q.dict[g].bases[b].hit, q.dict[i].bases[j].hit;
      h < 0x8000_0000 && h >= k && (h == k ==> g < i || (g == i && b <= j))
  {
    hide Agree2;
    assert Single(q, at, i, j);
  }

  /** A code letter pair inside a phrase agrees with its typed syllable as Cmp2Map has it. */
  lemma {:induction false} InnerSyllableAgrees(q: Query, at: nat, c: Choice, i: nat)
    requires Sane(q) && at < |q.typed| && Candidate(q, at, c)
    requires 2 * i + 1 < |PhraseOf(q.dict, c).strMap|
    ensures at + 1 + i < |q.typed|
    ensures Agree2(q.cfg, PhraseOf(q.dict, c).strMap[2 * i..2 * i + 2], q.typed[at + 1 + i], q.sp)
  {
    var rest, code := Rest(q, at), PhraseOf(q.dict, c).strMap;
    RestIsPlain(q, at);
    JoinedCodes(q.typed[at + 1..], i);
    assert q.typed[at + 1..][i] == q.typed[at + 1 + i];
    assert AgreeAt(q.cfg, code, rest, 2 * i, q.sp) && AgreeAt(q.cfg, code, rest, 2 * i + 1, q.sp);
    assert At(rest, 2 * i + 1) == q.typed[at + 1 + i][1];
  }

  /** Syllable by syllable the code of the sentence agrees with what was typed. */
  ghost predicate Agrees(q: Query, autoMap: string, n: nat)
    requires Sane(q) && n <= |q.typed| && |autoMap| == 2 * n
  {
    forall i :: 0 <= i < n ==> Agree2(q.cfg, autoMap[2 * i..2 * i + 2], q.typed[i], q.sp)
  }

  lemma StepAgrees(q: Query, at: nat, s: Step, i: nat)
    requires Sane(q) && at < |q.typed| && BestStep(q, at, s) && StepInDict(q, s) && 2 * i + 1 < |StepMap(q, s)|
    ensures at + i < |q.typed| && Agree2(q.cfg, StepMap(q, s)[2 * i..2 * i + 2], q.typed[at + i], q.sp)
  {
    hide Agree2, Begins, Wins, MoreUsed, Stays;
    match s
    case Whole(c) => WholeAgrees(q, at, c, i);
    case Alone(g, b) => assert q.dict[g].strMap[0..2] == q.dict[g].strMap;
  }

  lemma WholeAgrees(q: Query, at: nat, c: Choice, i: nat)
    requires Sane(q) && at < |q.typed| && Candidate(q, at, c)
    requires 2 * i + 1 < |q.dict[c.g].strMap + PhraseOf(q.dict, c).strMap|
    ensures at + i < |q.typed|
    ensures Agree2(q.cfg, (q.dict[c.g].strMap + PhraseOf(q.dict, c).strMap)[2 * i..2 * i + 2], q.typed[at + i], q.sp)
  {
    hide Agree2, Begins;
    var head, code := q.dict[c.g].strMap, PhraseOf(q.dict, c).strMap;
    assert |head| == 2;
    if i > 0 { InnerSyllableAgrees(q, at, c, i - 1); }
    hide Sane, Rest;
    SplitAtTwo(head, code, i);
  }

  lemma SplitAtTwo(head: string, code: string, i: nat)
    requires |head| == 2 && 2 * i + 2 <= |head + code|
    ensures (head + code)[2 * i..2 * i + 2] == if i == 0 then head else code[2 * (i - 1)..2 * (i - 1) + 2]
  {
  }

  lemma PartOfTail(s: string, m: nat, i: nat)
    requires m + i + 2 <= |s|
    ensures s[m..][i..i + 2] == s[m + i..m + i + 2]
  {
  }

  lemma {:induction false} BuiltAgrees(q: Query, steps: seq<Step>, auto: string, autoMap: string)
    requires Sane(q) && Built(q, steps, auto, autoMap)
    ensures |autoMap| == 2 * |auto| && |auto| <= |q.typed| && Agrees(q, autoMap, |auto|)
    decreases |steps|
  {
    hide Agree2, BestStep, Lexicon, StepText, StepMap;
    if steps != [] {
      var s := steps[|steps| - 1];
      var n, m := |auto| - |StepText(q, s)|, |autoMap| - |StepMap(q, s)|;
      BuiltAgrees(q, steps[..|steps| - 1], auto[..n], autoMap[..m]);
      StepSize(q, n, s);
      forall i | 0 <= i < |auto|
        ensures Agree2(q.cfg, autoMap[2 * i..2 * i + 2], q.typed[i], q.sp)
      {
        if i < n {
          assert autoMap[2 * i..2 * i + 2] == autoMap[..m][2 * i..2 * i + 2];
        } else {
          StepAgrees(q, n, s, i - n);
          assert m == 2 * n;
          PartOfTail(autoMap, m, 2 * (i - n));
        }
      }
    }
  }

  /* ----- the sentence of a parse ----- */

  function TypedOf(codes: seq<MapResult>): (r: seq<string>)
    requires AllCoded(codes)
    ensures |r| == |codes| && forall i :: 0 <= i < |codes| ==> r[i] == [codes[i].first, codes[i].second]
  {
    if codes == [] then []
    else
      var last := codes[|codes| - 1];
      TypedOf(codes[..|codes| - 1]) + [[last.first, last.second]]
  }

  /** What the builder is asked after ParsePY on s, in full pinyin. */
  ghost function ParsedQuery(cfg: Config, dict: seq<Group>, s: string): Query
    requires Sound(cfg) && Typed(s) && CodedTable(cfg)
  {
    ParseIsCoded(cfg, s, USER);
    Query(cfg, dict, TypedOf(Codes(cfg, Parse(cfg, s), USER)), false)
  }

  lemma PieceCodeIsPlain(cfg: Config, p: Piece)
    requires Spelt(cfg) && PieceCode(cfg, p, USER).Code?
    ensures PieceCode(cfg, p, USER).first != '\0' && PieceCode(cfg, p, USER).second != '\0'
  {
    hide CodeOf;
    if p.word != "" { CodesArePlain(cfg, p.word); }
  }

  lemma {:induction false} ParsedIsSane(cfg: Config, dict: seq<Group>, s: string)
    requires Sound(cfg) && Typed(s) && CodedTable(cfg) && Lexicon(dict)
    ensures Sane(ParsedQuery(cfg, dict, s))
    ensures |ParsedQuery(cfg, dict, s).typed| == |Parse(cfg, s)|
  {
    hide PieceCode, Parse, Lexicon, CodedTable;
    ParseIsCoded(cfg, s, USER);
    var ps := Parse(cfg, s);
    forall i | 0 <= i < |ps|
      ensures Codes(cfg, ps, USER)[i].first != '\0' && Codes(cfg, ps, USER)[i].second != '\0'
    {
      CodesAt(cfg, ps, USER, i);
      PieceCodeIsPlain(cfg, ps[i]);
    }
  }

  predicate EndsInSeparator(s: string) {
    s != "" && s[|s| - 1] == SEPARATOR
  }

  /** In an error-free parse over headed syllables a comparison leaves a phrase code if and only
      if the phrase matches all typed syllables from `at` on, a separator ends the text, and
      full pinyin is not demanded. */
  lemma {:induction false} ParsedOverruns(cfg: Config, dict: seq<Group>, s: string, at: nat, c: Choice)
    requires Sound(cfg) && Typed(s) && HeadedTable(cfg) && CodedTable(cfg) && Lexicon(dict)
    requires ModeOf(cfg, Parse(cfg, s)) != PARSE_ERROR && at < |Parse(cfg, s)|
    requires Sane(ParsedQuery(cfg, dict, s)) && |ParsedQuery(cfg, dict, s).typed| == |Parse(cfg, s)|
    ensures var q := ParsedQuery(cfg, dict, s);
      Overruns(q, at, c) <==>
        && Candidate(q, at, c)
        && at + 2 + |PhraseOf(dict, c).text| == |Parse(cfg, s)|
        && EndsInSeparator(s) && !cfg.fullPY
  {
    hide Parse, Candidate, Overruns, Sane, HeadedTable, CodedTable, Lexicon, ModeOf, EndsInSeparator, Codes, InDict;
    var q := ParsedQuery(cfg, dict, s);
    ParseIsCoded(cfg, s, USER);
    OverrunsExactly(q, at, c);
    CandidateIsKnown(q, at, c);
    if InDict(dict, c) && at + 1 + |PhraseOf(dict, c).text| < |q.typed| {
      WildcardEnds(cfg, s, at + 1 + |PhraseOf(dict, c).text|);
    }
  }

  lemma {:induction false} WildcardEnds(cfg: Config, s: string, i: nat)
    requires Sound(cfg) && Typed(s) && HeadedTable(cfg) && i < |Parse(cfg, s)|
    requires ModeOf(cfg, Parse(cfg, s)) != PARSE_ERROR
    ensures var c := Codes(cfg, Parse(cfg, s), USER)[i];
      c.Code? && (c.first == USER <==> i == |Parse(cfg, s)| - 1 && EndsInSeparator(s))
  {
    hide Parse, HeadedTable, ModeOf;
    WildcardIsTrailing(cfg, s, i);
    TrailingIsLast(cfg, s, i);
  }

  lemma {:induction false} CandidateIsKnown(q: Query, at: nat, c: Choice)
    requires Sane(q) && at < |q.typed|
    ensures Candidate(q, at, c) ==> InDict(q.dict, c)
  {
  }

  /** The sentence for a typed text, as PYGetCandWords asks for it after the parse. */
  method SentenceFor(cfg: Config, dict: seq<Group>, s: string) returns (inside: bool, auto: string, autoMap: string)
    requires Sound(cfg) && HeadedTable(cfg) && Lexicon(dict) && s != "" && Typed(s)
    ensures !EndsInSeparator(s) || cfg.fullPY ==> inside
    ensures auto != "" ==> ModeOf(cfg, Parse(cfg, s)) != PARSE_ERROR && |auto| == |Parse(cfg, s)|
  {
    hide Parse, Candidate, Overruns, Sane, HeadedTable, Lexicon, ModeOf, Texts, Complete;
    inside, auto, autoMap := true, "", "";
    var texts, codes, iMode := ParsePY(cfg, s, USER);
    if iMode == PARSE_ERROR { return; }
    HeadedIsCoded(cfg);
    ParseIsCoded(cfg, s, USER);
    ParsedIsSane(cfg, dict, s);
    ghost var steps;
    inside, auto, autoMap, steps := CreateAuto(Query(cfg, dict, TypedOf(codes), false));
    if !inside {
      ghost var q := ParsedQuery(cfg, dict, s);
      assert !Defined(q);
      ghost var at: nat, c :| at + 1 < |q.typed| && Overruns(q, at, c);
      ParsedOverruns(cfg, dict, s, at, c);
    }
  }
}
