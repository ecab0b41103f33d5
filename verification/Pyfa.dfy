/** The syllable table, the fuzzy pairs and the lookups over them
    (src/im/pinyin/PYFA.c and the searches of src/im/pinyin/pyParser.c). */
module Pyfa {
  import opened PyMapTable

  /** What switches a row of the syllable table on: nothing, the gn-for-ng option, or the
      option of one fuzzy pair of finals or of initials. */
  datatype Control = Always | NgGn | FinalPair(k: nat) | InitialPair(k: nat)

  datatype Row = Row(word: string, control: Control)

  /** The settings and tables the language core reads.  The syllable table and the split
      frequency of two adjacent syllables are data and stay arbitrary; the tables of
      initials and finals are those of PyMapTable wherever a result needs their shape. */
  datatype Config = Config(
    fullPY: bool,
    misstypeNGGN: bool,
    fuzzyFinals: seq<bool>,
    fuzzyInitials: seq<bool>,
    initials: seq<MapEntry>,
    finals: seq<MapEntry>,
    table: seq<Row>,
    freq: (string, string) -> real)

  const FINAL_PAIRS: seq<string> := ["CD", "HI", "LM", "PQ", "VW", "Za", "fW"]
  const INITIAL_PAIRS: seq<string> := ["bc", "TV", "OQ", "GH", "AB", "fg"]

  predicate On(flags: seq<bool>, k: nat) {
    k < |flags| && flags[k]
  }

  ghost predicate Spelt(cfg: Config) {
    SpellingTables(cfg.initials, cfg.finals)
  }

  predicate FuzzyEng(cfg: Config) {
    On(cfg.fuzzyFinals, 1)
  }

  /* ----- fuzzy pairs ----- */

  predicate InPair(pair: string, c: char) {
    |pair| == 2 && (c == pair[0] || c == pair[1])
  }

  predicate Joins(pair: string, a: char, b: char) {
    InPair(pair, a) && InPair(pair, b)
  }

  /** The first pair from row k on that holds both codes, or -1 when there is none or its
      option is off. */
  function PairFrom(pairs: seq<string>, flags: seq<bool>, force: bool, a: char, b: char, k: nat): int
    requires k <= |pairs|
    decreases |pairs| - k
  {
    if k == |pairs| then -1
    else if Joins(pairs[k], a, b) then (if On(flags, k) || force then k else -1)
    else PairFrom(pairs, flags, force, a, b, k + 1)
  }

  method GetMHIndexC2(cfg: Config, a: char, b: char) returns (r: int)
    ensures r == PairFrom(FINAL_PAIRS, cfg.fuzzyFinals, false, a, b, 0)
  {
    var i := 0;
    while i < |FINAL_PAIRS|
      invariant 0 <= i <= |FINAL_PAIRS|
      invariant PairFrom(FINAL_PAIRS, cfg.fuzzyFinals, false, a, b, 0) ==
        PairFrom(FINAL_PAIRS, cfg.fuzzyFinals, false, a, b, i)
    {
      if Joins(FINAL_PAIRS[i], a, b) {
        if On(cfg.fuzzyFinals, i) { return i; } else { return -1; }
      }
      i := i + 1;
    }
    return -1;
  }

  method GetMHIndexS2(cfg: Config, a: char, b: char, force: bool) returns (r: int)
    ensures r == PairFrom(INITIAL_PAIRS, cfg.fuzzyInitials, force, a, b, 0)
  {
    var i := 0;
    while i < |INITIAL_PAIRS|
      invariant 0 <= i <= |INITIAL_PAIRS|
      invariant PairFrom(INITIAL_PAIRS, cfg.fuzzyInitials, force, a, b, 0) ==
        PairFrom(INITIAL_PAIRS, cfg.fuzzyInitials, force, a, b, i)
    {
      if Joins(INITIAL_PAIRS[i], a, b) {
        if On(cfg.fuzzyInitials, i) || force { return i; } else { return -1; }
      }
      i := i + 1;
    }
    return -1;
  }

  /** Two different codes stand in at most one pair, so the search finds exactly the pair
      they form, whatever the order of the rows. */
  lemma {:induction false} PairFound(pairs: seq<string>, flags: seq<bool>, force: bool, a: char, b: char, k: nat)
    requires pairs == FINAL_PAIRS || pairs == INITIAL_PAIRS
    requires a != b && k < |pairs|
    ensures PairFrom(pairs, flags, force, a, b, 0) == k
       <==> Joins(pairs[k], a, b) && (On(flags, k) || force)
  {
    PairFromResult(pairs, flags, force, a, b, 0);
  }

  lemma {:induction false} PairFromResult(pairs: seq<string>, flags: seq<bool>, force: bool, a: char, b: char, k: nat)
    requires k <= |pairs|
    ensures var r := PairFrom(pairs, flags, force, a, b, k);
      && (r != -1 ==> k <= r < |pairs| && Joins(pairs[r], a, b) && (On(flags, r) || force))
      && (r == -1 ==> ((forall j :: k <= j < |pairs| ==> !Joins(pairs[j], a, b))
                       || exists j :: k <= j < |pairs| && Joins(pairs[j], a, b) && !(On(flags, j) || force)))
    decreases |pairs| - k
  {
    if k < |pairs| && !Joins(pairs[k], a, b) {
      PairFromResult(pairs, flags, force, a, b, k + 1);
    }
  }

  predicate IsZCS(code: char) {
    code == 'c' || code == 'H' || code == 'B'
  }

  predicate IsJQXY(code: char) {
    code == 'S' || code == 'J' || code == 'X' || code == 'C'
  }

  /** The codes IsZCS names are those of z, c and s. */
  lemma ZcsCodes(k: nat)
    requires k < |INITIALS|
    ensures IsZCS(INITIALS[k].code) <==> INITIALS[k].spelling in ["z", "c", "s"]
  {
  }

  /** IsJQXY is meant for j, q, x and y, but the letter it tests for x is the code of the
      initial "en". */
  lemma JqxyCodes(k: nat)
    requires k < |INITIALS|
    ensures IsJQXY(INITIALS[k].code) <==> INITIALS[k].spelling in ["j", "q", "en", "y"]
  {
  }

  /* ----- the syllable table ----- */

  /** The option a row points at is on, or it points at none. */
  predicate Switched(cfg: Config, control: Control) {
    match control
    case Always => true
    case NgGn => cfg.misstypeNGGN
    case FinalPair(k) => On(cfg.fuzzyFinals, k)
    case InitialPair(k) => On(cfg.fuzzyInitials, k)
  }

  /** Row i may be used: a mistyped gn row also needs the row after it, its correction,
      to be switched on.  The terminating row of the source is always switched on. */
  predicate Usable(cfg: Config, i: nat)
    requires i < |cfg.table|
  {
    Switched(cfg, cfg.table[i].control)
    && (cfg.table[i].control == NgGn ==> i + 1 == |cfg.table| || Switched(cfg, cfg.table[i + 1].control))
  }

  predicate RowMatches(row: Row, s: string, prefix: bool) {
    if prefix then row.word <= s else row.word == s
  }

  function FirstFrom(cfg: Config, s: string, prefix: bool, i: nat): (r: int)
    requires i <= |cfg.table|
    ensures r == -1 || (i <= r < |cfg.table| && RowMatches(cfg.table[r], s, prefix) && Usable(cfg, r))
    decreases |cfg.table| - i
  {
    if i == |cfg.table| then -1
    else if RowMatches(cfg.table[i], s, prefix) && Usable(cfg, i) then i
    else FirstFrom(cfg, s, prefix, i + 1)
  }

  lemma {:induction false} NoneBefore(cfg: Config, s: string, prefix: bool, i: nat)
    requires i <= |cfg.table|
    ensures var r := FirstFrom(cfg, s, prefix, i);
      forall j :: i <= j < (if r == -1 then |cfg.table| else r) ==>
        !(RowMatches(cfg.table[j], s, prefix) && Usable(cfg, j))
    decreases |cfg.table| - i
  {
    if i < |cfg.table| && !(RowMatches(cfg.table[i], s, prefix) && Usable(cfg, i)) {
      NoneBefore(cfg, s, prefix, i + 1);
    }
  }

  function FirstRow(cfg: Config, s: string, prefix: bool): (r: int)
    ensures -1 <= r < |cfg.table|
  {
    FirstFrom(cfg, s, prefix, 0)
  }

  method FindPYFAIndex(cfg: Config, s: string, prefix: bool) returns (r: int)
    ensures r == FirstRow(cfg, s, prefix)
  {
    var i := 0;
    while i < |cfg.table|
      invariant 0 <= i <= |cfg.table|
      invariant FirstRow(cfg, s, prefix) == FirstFrom(cfg, s, prefix, i)
    {
      if RowMatches(cfg.table[i], s, prefix) {
        match cfg.table[i].control {
          case Always => return i;
          case NgGn =>
            if cfg.misstypeNGGN && (i + 1 == |cfg.table| || Switched(cfg, cfg.table[i + 1].control)) {
              return i;
            }
          case FinalPair(k) => if On(cfg.fuzzyFinals, k) { return i; }
          case InitialPair(k) => if On(cfg.fuzzyInitials, k) { return i; }
        }
      }
      i := i + 1;
    }
    return -1;
  }

  /** The shape of the syllable table the engine relies on: words in lower case, no word
      before a longer word it begins, and after each gn misspelling its correction. */
  predicate WordTable(table: seq<Row>) {
    forall i :: 0 <= i < |table| ==> Word(table[i].word)
  }

  predicate LongestFirst(table: seq<Row>) {
    forall i, j :: 0 <= i < j < |table| ==> !(table[i].word < table[j].word)
  }

  predicate CorrectionsFollow(table: seq<Row>) {
    forall i :: 0 <= i < |table| && table[i].control == NgGn ==>
      i + 1 < |table| && Misspells(table[i].word, table[i + 1].word)
  }

  predicate Misspells(gn: string, ng: string) {
    |gn| == |ng| >= 2 && gn[..|gn| - 2] == ng[..|gn| - 2] && gn[|gn| - 2..] == "gn" && ng[|gn| - 2..] == "ng"
  }

  /** A word is enabled when a row of its own switches it on or, with the gn option on, when
      it is the misspelling of a word enabled by the row after it. */
  ghost predicate Enabled(cfg: Config, w: string) {
    exists i :: 0 <= i < |cfg.table| && EnabledBy(cfg, w, i)
  }

  ghost predicate EnabledBy(cfg: Config, w: string, i: nat)
    requires i < |cfg.table|
  {
    cfg.table[i].word == w
    && if cfg.table[i].control == NgGn
       then cfg.misstypeNGGN && i + 1 < |cfg.table| && Misspells(w, cfg.table[i + 1].word)
            && Set(cfg, cfg.table[i + 1].control)
       else Set(cfg, cfg.table[i].control)
  }

  /** There is no option, or the option of the pair with that number is set. */
  ghost predicate Set(cfg: Config, control: Control) {
    || control == Always || (control == NgGn && cfg.misstypeNGGN)
    || (control.FinalPair? && control.k < |cfg.fuzzyFinals| && cfg.fuzzyFinals[control.k])
    || (control.InitialPair? && control.k < |cfg.fuzzyInitials| && cfg.fuzzyInitials[control.k])
  }

  lemma UsableIsEnabled(cfg: Config)
    requires CorrectionsFollow(cfg.table)
    ensures forall i :: 0 <= i < |cfg.table| ==> (Usable(cfg, i) <==> EnabledBy(cfg, cfg.table[i].word, i))
    ensures forall i, w :: 0 <= i < |cfg.table| && EnabledBy(cfg, w, i) ==> cfg.table[i].word == w
  {
  }

  /** Exact mode finds a word exactly when it is enabled; prefix mode finds the longest
      enabled word the text begins with, and fails only when there is none. */
  lemma FindsLongestEnabled(cfg: Config, s: string)
    requires LongestFirst(cfg.table) && CorrectionsFollow(cfg.table)
    ensures FirstRow(cfg, s, false) != -1 <==> Enabled(cfg, s)
    ensures FirstRow(cfg, s, false) != -1 ==> cfg.table[FirstRow(cfg, s, false)].word == s
    ensures FirstRow(cfg, s, true) == -1 <==> forall w :: w <= s ==> !Enabled(cfg, w)
    ensures var r := FirstRow(cfg, s, true);
      r != -1 ==> (cfg.table[r].word <= s && Enabled(cfg, cfg.table[r].word)
                   && forall w :: w <= s && Enabled(cfg, w) ==> w <= cfg.table[r].word)
  {
    UsableIsEnabled(cfg);
    hide Usable, EnabledBy, CorrectionsFollow, FirstFrom;
    NoneBefore(cfg, s, false, 0);
    NoneBefore(cfg, s, true, 0);
    var r := FirstRow(cfg, s, true);
    forall w | w <= s && Enabled(cfg, w)
      ensures r != -1 && w <= cfg.table[r].word
    {
      var k :| 0 <= k < |cfg.table| && EnabledBy(cfg, w, k);
      assert RowMatches(cfg.table[k], s, true) && Usable(cfg, k);
    }
    if r != -1 {
      assert EnabledBy(cfg, cfg.table[r].word, r);
      assert Enabled(cfg, cfg.table[r].word);
    }
    if FirstRow(cfg, s, false) != -1 {
      assert EnabledBy(cfg, s, FirstRow(cfg, s, false));
    }
  }
}
