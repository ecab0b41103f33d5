/** When two codes agree, in the spellings of the engine's tables: the fuzzy pairs of
    src/im/pinyin/PYFA.c:30-77 by name and the comparisons of src/im/pinyin/pyParser.c:449-533. */
module FuzzyPairs {
  import opened PyMapTable
  import opened Pyfa
  import opened PyParser

  /** The rows of the paired spellings. */
  const FINAL_ROWS: seq<(nat, nat)> := [(2, 3), (7, 8), (11, 12), (15, 16), (21, 22), (25, 26), (31, 22)]
  const INITIAL_ROWS: seq<(nat, nat)> := [(28, 27), (21, 19), (16, 14), (7, 6), (1, 0), (32, 31)]

  const FINAL_NAMES: seq<(string, string)> := [
    ("an", "ang"), ("en", "eng"), ("ian", "iang"), ("in", "ing"), ("ou", "u"), ("uan", "uang"), ("v", "u")
  ]

  const INITIAL_NAMES: seq<(string, string)> := [
    ("c", "ch"), ("f", "h"), ("l", "n"), ("s", "sh"), ("z", "zh"), ("an", "ang")
  ]

  /** Rows a and b stand in pair k. */
  predicate Paired(rows: seq<(nat, nat)>, k: nat, a: nat, b: nat) {
    k < |rows| && (a == rows[k].0 || a == rows[k].1) && (b == rows[k].0 || b == rows[k].1)
  }

  /** The pairs of finals are an-ang, en-eng, ian-iang, in-ing, ou-u, uan-uang and v-u. */
  lemma FinalPairs(k: nat)
    requires k < 7
    ensures FINAL_ROWS[k].0 < 33 && FINAL_ROWS[k].1 < 33
    ensures FINALS[FINAL_ROWS[k].0].spelling == FINAL_NAMES[k].0 && FINALS[FINAL_ROWS[k].1].spelling == FINAL_NAMES[k].1
    ensures |FINAL_PAIRS[k]| == 2
    ensures forall c :: c in FINAL_PAIRS[k] <==> c == FINALS[FINAL_ROWS[k].0].code || c == FINALS[FINAL_ROWS[k].1].code
  {
    FinalPairCodes(k);
  }

  lemma FinalPairCodes(k: nat)
    requires k < 7
    ensures FINAL_PAIRS[k] == [FINALS[FINAL_ROWS[k].0].code, FINALS[FINAL_ROWS[k].1].code]
         || FINAL_PAIRS[k] == [FINALS[FINAL_ROWS[k].1].code, FINALS[FINAL_ROWS[k].0].code]
  {
  }

  /** The pairs of initials are c-ch, f-h, l-n, s-sh, z-zh and an-ang. */
  lemma InitialPairs(k: nat)
    requires k < 6
    ensures INITIAL_ROWS[k].0 < 35 && INITIAL_ROWS[k].1 < 35
    ensures INITIALS[INITIAL_ROWS[k].0].spelling == INITIAL_NAMES[k].0
    ensures INITIALS[INITIAL_ROWS[k].1].spelling == INITIAL_NAMES[k].1
    ensures |INITIAL_PAIRS[k]| == 2
    ensures forall c :: c in INITIAL_PAIRS[k] <==>
      c == INITIALS[INITIAL_ROWS[k].0].code || c == INITIALS[INITIAL_ROWS[k].1].code
  {
    InitialPairCodes(k);
  }

  lemma InitialPairCodes(k: nat)
    requires k < 6
    ensures INITIAL_PAIRS[k] == [INITIALS[INITIAL_ROWS[k].0].code, INITIALS[INITIAL_ROWS[k].1].code]
         || INITIAL_PAIRS[k] == [INITIALS[INITIAL_ROWS[k].1].code, INITIALS[INITIAL_ROWS[k].0].code]
  {
  }

  lemma FinalsJoin(k: nat, a: nat, b: nat)
    requires k < 7 && a < |FINALS| && b < |FINALS|
    ensures Joins(FINAL_PAIRS[k], FINALS[a].code, FINALS[b].code) <==> Paired(FINAL_ROWS, k, a, b)
  {
    FinalPairs(k);
    OwnCodes(a, FINAL_ROWS[k].0);
    OwnCodes(a, FINAL_ROWS[k].1);
    OwnCodes(b, FINAL_ROWS[k].0);
    OwnCodes(b, FINAL_ROWS[k].1);
    InPairExactly(FINAL_PAIRS[k], FINALS[a].code);
    InPairExactly(FINAL_PAIRS[k], FINALS[b].code);
  }

  lemma InitialsJoin(k: nat, a: nat, b: nat)
    requires k < 6 && a < |INITIALS| && b < |INITIALS|
    ensures Joins(INITIAL_PAIRS[k], INITIALS[a].code, INITIALS[b].code) <==> Paired(INITIAL_ROWS, k, a, b)
  {
    InitialPairs(k);
    OwnCodes(a, INITIAL_ROWS[k].0);
    OwnCodes(a, INITIAL_ROWS[k].1);
    OwnCodes(b, INITIAL_ROWS[k].0);
    OwnCodes(b, INITIAL_ROWS[k].1);
    InPairExactly(INITIAL_PAIRS[k], INITIALS[a].code);
    InPairExactly(INITIAL_PAIRS[k], INITIALS[b].code);
  }

  lemma InPairExactly(pair: string, c: char)
    requires |pair| == 2
    ensures InPair(pair, c) <==> c in pair
  {
  }

  lemma OwnCodes(a: nat, b: nat)
    ensures a < |FINALS| && b < |FINALS| ==> (FINALS[a].code == FINALS[b].code <==> a == b) && FINALS[a].code !in "0 "
    ensures a < |INITIALS| && b < |INITIALS| ==>
      (INITIALS[a].code == INITIALS[b].code <==> a == b) && INITIALS[a].code !in "0 "
  {
    FinalCodes();
    InitialCodes();
  }

  /** Two finals agree when they are the same or an option joins them; v and u need the caller's
      request as well. */
  lemma FinalsAgree(cfg: Config, a: nat, b: nat, request: bool, sp: bool)
    requires a < |FINALS| && b < |FINALS|
    ensures Agree(cfg, FINALS[a].code, FINALS[b].code, false, request, sp) <==>
      a == b || exists k :: 0 <= k < |cfg.fuzzyFinals| && cfg.fuzzyFinals[k]
                            && Paired(FINAL_ROWS, k, a, b) && (k == 6 ==> request)
  {
    OwnCodes(a, b);
    OwnCodes(b, a);
    hide CodeAt, InPair;
    forall k: nat | k < 7
      ensures Joins(FINAL_PAIRS[k], FINALS[a].code, FINALS[b].code) <==>
        Paired(FINAL_ROWS, k, a, b)
    {
      FinalsJoin(k, a, b);
    }
  }

  /** Two initials agree when they are the same, or are a pair whose option is on or not asked
      for. */
  lemma InitialsAgree(cfg: Config, a: nat, b: nat, all: bool, sp: bool)
    requires a < |INITIALS| && b < |INITIALS|
    ensures Agree(cfg, INITIALS[a].code, INITIALS[b].code, true, all, sp) <==>
      a == b || exists k :: 0 <= k < 6 && Paired(INITIAL_ROWS, k, a, b)
                            && (all || (k < |cfg.fuzzyInitials| && cfg.fuzzyInitials[k]))
  {
    OwnCodes(a, b);
    OwnCodes(b, a);
    hide CodeAt, InPair;
    forall k: nat | k < 6
      ensures Joins(INITIAL_PAIRS[k], INITIALS[a].code, INITIALS[b].code) <==>
        Paired(INITIAL_ROWS, k, a, b)
    {
      InitialsJoin(k, a, b);
    }
  }

  /** A wildcard agrees with every code letter where full pinyin is not demanded, and in Shuangpin;
      elsewhere with itself only. */
  lemma WildcardAgrees(cfg: Config, c: char, initial: bool, request: bool, sp: bool)
    requires c != ' ' && c != '0'
    ensures Agree(cfg, c, '0', initial, request, sp) <==> !cfg.fullPY || sp
    ensures Agree(cfg, '0', c, initial, request, sp) <==> !cfg.fullPY || sp
  {
  }

  /** A z, c or s without a final. */
  predicate Lone(typed: string, i: nat, b: nat)
    requires i < |typed| && b < |INITIALS|
  {
    INITIALS[b].spelling in ["z", "c", "s"] && (i + 1 == |typed| || typed[i + 1] == '0')
  }

  /** Inside longer codes the letters in even places are compared as initials; the pair of a
      typed z, c or s counts without its option where no final follows it. */
  lemma InitialsInPlace(cfg: Config, phrase: string, typed: string, i: nat, a: nat, b: nat, sp: bool)
    requires i % 2 == 0 && i < |phrase| && i < |typed| && a < |INITIALS| && b < |INITIALS|
    requires phrase[i] == INITIALS[a].code && typed[i] == INITIALS[b].code
    ensures AgreeAt(cfg, phrase, typed, i, sp) <==>
      a == b || exists k :: 0 <= k < 6 && Paired(INITIAL_ROWS, k, a, b)
                            && ((k < |cfg.fuzzyInitials| && cfg.fuzzyInitials[k]) || Lone(typed, i, b))
  {
    hide Agree, IsZCS, Paired;
    ZcsCodes(b);
    InitialsAgree(cfg, a, b, Abbreviated(typed, i), sp);
  }

  /** Those in odd places are compared as finals, and v and u are different there. */
  lemma FinalsInPlace(cfg: Config, phrase: string, typed: string, i: nat, a: nat, b: nat, sp: bool)
    requires i % 2 == 1 && i < |phrase| && i < |typed| && a < |FINALS| && b < |FINALS|
    requires phrase[i] == FINALS[a].code && typed[i] == FINALS[b].code
    ensures AgreeAt(cfg, phrase, typed, i, sp) <==>
      a == b || exists k :: 0 <= k < 6 && k < |cfg.fuzzyFinals| && cfg.fuzzyFinals[k] && Paired(FINAL_ROWS, k, a, b)
  {
    hide Agree;
    FinalsAgree(cfg, a, b, false, sp);
    assert !Abbreviated(typed, i);
  }

  /** Two codes of one syllable, each made of an initial and a final, agree when the initials do
      and the finals do; behind j, q, "en" and y the pair v-u counts under its option. */
  lemma SyllablesAgree(cfg: Config, map1: string, map2: string, a: nat, b: nat, e: nat, f: nat, sp: bool)
    requires a < |INITIALS| && b < |INITIALS| && e < |FINALS| && f < |FINALS|
    requires map1 == [INITIALS[a].code, FINALS[e].code] && map2 == [INITIALS[b].code, FINALS[f].code]
    ensures Agree2(cfg, map1, map2, sp) <==>
      && (a == b || exists k :: 0 <= k < 6 && Paired(INITIAL_ROWS, k, a, b)
                                && k < |cfg.fuzzyInitials| && cfg.fuzzyInitials[k])
      && (e == f || exists k :: 0 <= k < |cfg.fuzzyFinals| && cfg.fuzzyFinals[k] && Paired(FINAL_ROWS, k, e, f)
                                && (k == 6 ==> INITIALS[b].spelling in ["j", "q", "en", "y"]))
  {
    hide Agree, IsJQXY, Paired;
    OwnCodes(e, f);
    OwnCodes(f, e);
    JqxyCodes(b);
    InitialsAgree(cfg, a, b, false, sp);
    FinalsAgree(cfg, e, f, IsJQXY(map2[0]), sp);
  }
}
