/** Spelling-to-code mapping and fuzzy code comparison (src/im/pinyin/pyParser.c). */
module PyParser {
  import opened PyMapTable
  import opened Pyfa

  /* ----- lookups in the tables of initials and finals ----- */

  predicate EntryMatches(e: MapEntry, s: string, prefix: bool) {
    if prefix then e.spelling <= s else e.spelling == s
  }

  function EntryFrom(t: seq<MapEntry>, s: string, prefix: bool, i: nat): (r: int)
    requires i <= |t|
    ensures r == -1 || (i <= r < |t| && EntryMatches(t[r], s, prefix))
    decreases |t| - i
  {
    if i == |t| then -1 else if EntryMatches(t[i], s, prefix) then i else EntryFrom(t, s, prefix, i + 1)
  }

  /** The search finds the first match. */
  lemma {:induction false} EntryFound(t: seq<MapEntry>, s: string, prefix: bool, i: nat, k: nat)
    requires i <= k < |t| && EntryMatches(t[k], s, prefix)
    ensures i <= EntryFrom(t, s, prefix, i) <= k
    decreases |t| - i
  {
    if !EntryMatches(t[i], s, prefix) {
      EntryFound(t, s, prefix, i + 1, k);
    }
  }

  function Initial(cfg: Config, s: string, prefix: bool): int {
    EntryFrom(cfg.initials, s, prefix, 0)
  }

  function Final(cfg: Config, s: string, prefix: bool): int {
    EntryFrom(cfg.finals, s, prefix, 0)
  }

  method IsSyllabary(cfg: Config, s: string, prefix: bool) returns (r: int)
    ensures r == Initial(cfg, s, prefix)
  {
    var i := 0;
    while i < |cfg.initials|
      invariant 0 <= i <= |cfg.initials|
      invariant Initial(cfg, s, prefix) == EntryFrom(cfg.initials, s, prefix, i)
    {
      if EntryMatches(cfg.initials[i], s, prefix) { return i; }
      i := i + 1;
    }
    return -1;
  }

  method IsConsonant(cfg: Config, s: string, prefix: bool) returns (r: int)
    ensures r == Final(cfg, s, prefix)
  {
    var i := 0;
    while i < |cfg.finals|
      invariant 0 <= i <= |cfg.finals|
      invariant Final(cfg, s, prefix) == EntryFrom(cfg.finals, s, prefix, i)
    {
      if EntryMatches(cfg.finals[i], s, prefix) { return i; }
      i := i + 1;
    }
    return -1;
  }

  /* ----- spelling to code and back ----- */

  const USER: char := '0'
  const SYSTEM: char := ' '

  /** What MapPY does with a spelling: a two-letter code, a refusal, or a read outside the
      table of finals, which the C source leaves undefined. */
  datatype MapResult = Code(first: char, second: char) | Rejected | OutOfTable

  function Retyped(cfg: Config, p: string): (q: string)
    ensures |q| == |p|
  {
    if cfg.misstypeNGGN && Mistyped(p) then p[..|p| - 2] + "ng" else p
  }

  function CodeOf(cfg: Config, origin: string, mode: char): MapResult
    requires origin != ""
  {
    var p := Retyped(cfg, origin);
    if p == "eng" && FuzzyEng(cfg) then Code('X', '0')
    else if Initial(cfg, p, false) != -1 then Code(cfg.initials[Initial(cfg, p, false)].code, mode)
    else if Final(cfg, p, false) != -1 then Code(mode, cfg.finals[Final(cfg, p, false)].code)
    else if |p| >= 2 && (p[1] == 'h' || p[1] == 'g') then
      var i := Initial(cfg, p[..2], false);
      var f := Final(cfg, p[2..], false);
      if 0 <= i < |cfg.finals| && f != -1 then Code(cfg.finals[i].code, cfg.finals[f].code) else OutOfTable
    else
      var i := Initial(cfg, p[..1], false);
      var f := Final(cfg, p[1..], false);
      if i == -1 then Rejected
      else if i >= |cfg.finals| then OutOfTable
      else if f == -1 then Rejected
      else Code(cfg.finals[i].code, cfg.finals[f].code)
  }

  method MapPY(cfg: Config, origin: string, mode: char) returns (r: MapResult)
    requires origin != ""
    ensures r == CodeOf(cfg, origin, mode)
    ensures Spelt(cfg) ==> (r.Code? <==> Spelled(cfg, Retyped(cfg, origin)))
  {
    hide Spelt, Spelled, EntryFrom;
    if Spelt(cfg) { CodedSpellings(cfg, origin, mode); }
    var p := origin;
    if cfg.misstypeNGGN && |p| > 2 && p[|p| - 1] == 'n' && p[|p| - 2] == 'g' {
      p := p[|p| - 2 := 'n'];
      p := p[|p| - 1 := 'g'];
      assert p == Retyped(cfg, origin);
    }
    if p == "eng" && FuzzyEng(cfg) { return Code('X', '0'); }
    var i := IsSyllabary(cfg, p, false);
    if i != -1 { return Code(cfg.initials[i].code, mode); }
    i := IsConsonant(cfg, p, false);
    if i != -1 { return Code(mode, cfg.finals[i].code); }
    if |p| >= 2 && (p[1] == 'h' || p[1] == 'g') {
      i := IsSyllabary(cfg, p[..2], false);
      if i == -1 || i >= |cfg.finals| { return OutOfTable; }
      var f := IsConsonant(cfg, p[2..], false);
      if f == -1 { return OutOfTable; }
      return Code(cfg.finals[i].code, cfg.finals[f].code);
    }
    i := IsSyllabary(cfg, p[..1], false);
    if i == -1 { return Rejected; }
    if i >= |cfg.finals| { return OutOfTable; }
    var f := IsConsonant(cfg, p[1..], false);
    if f == -1 { return Rejected; }
    return Code(cfg.finals[i].code, cfg.finals[f].code);
  }

  datatype Option<T> = None | Some(value: T)

  function CodeFrom(t: seq<MapEntry>, code: char, i: nat): (r: int)
    requires i <= |t|
    ensures r == -1 || (i <= r < |t| && t[r].code == code)
    decreases |t| - i
  {
    if i == |t| then -1 else if t[i].code == code then i else CodeFrom(t, code, i + 1)
  }

  function SpellingOf(cfg: Config, first: char, second: char): Option<string> {
    var i := CodeFrom(cfg.initials, first, 0);
    var f := CodeFrom(cfg.finals, second, 0);
    if first != ' ' && i == -1 then None
    else
      var head := if first == ' ' then "" else cfg.initials[i].spelling;
      if second == ' ' then Some(head)
      else if f == -1 then None
      else Some(head + cfg.finals[f].spelling)
  }

  method MapToPY(cfg: Config, first: char, second: char) returns (r: Option<string>)
    requires Spelt(cfg)
    ensures r == SpellingOf(cfg, first, second)
  {
    var py := "";
    if first != ' ' {
      var i := 0;
      while i < |cfg.initials|
        invariant 0 <= i <= |cfg.initials| && py == ""
        invariant CodeFrom(cfg.initials, first, 0) == CodeFrom(cfg.initials, first, i)
      {
        if cfg.initials[i].code == first {
          py := cfg.initials[i].spelling;
          break;
        }
        i := i + 1;
      }
      if |py| == 0 { return None; }
    }
    if second == ' ' { return Some(py); }
    var i := 0;
    while i < |cfg.finals|
      invariant 0 <= i <= |cfg.finals|
      invariant CodeFrom(cfg.finals, second, 0) == CodeFrom(cfg.finals, second, i)
    {
      if cfg.finals[i].code == second { return Some(py + cfg.finals[i].spelling); }
      i := i + 1;
    }
    return None;
  }

  lemma {:induction false} CodeFromIs(t: seq<MapEntry>, i: nat, k: nat)
    requires i <= k < |t| <= 52 && forall j :: 0 <= j < |t| ==> t[j].code == CodeAt(j)
    ensures CodeFrom(t, t[k].code, i) == k
    decreases k - i
  {
    if i < k { CodeFromIs(t, i + 1, k); }
  }

  lemma CodeFound(cfg: Config, k: nat)
    requires Spelt(cfg)
    ensures k < |cfg.initials| ==> CodeFrom(cfg.initials, cfg.initials[k].code, 0) == k && cfg.initials[k].code != ' '
    ensures k < |cfg.finals| ==>
      CodeFrom(cfg.finals, cfg.finals[k].code, 0) == k && cfg.finals[k].code == cfg.initials[k].code
  {
    if k < |cfg.initials| { CodeFromIs(cfg.initials, 0, k); }
    if k < |cfg.finals| { CodeFromIs(cfg.finals, 0, k); }
  }

  /** Decoding a system code gives the (retyped) spelling back, for every spelling that has
      a code, except that "eng" under its fuzzy option has a code no spelling is read from. */
  lemma SpellingRoundTrip(cfg: Config, p: string)
    requires Spelt(cfg) && p != "" && CodeOf(cfg, p, SYSTEM).Code?
    ensures var c := CodeOf(cfg, p, SYSTEM);
      SpellingOf(cfg, c.first, c.second) == Some(Retyped(cfg, p)) <==> !(Retyped(cfg, p) == "eng" && FuzzyEng(cfg))
  {
    var q := Retyped(cfg, p);
    if q == "eng" && FuzzyEng(cfg) {
      assert CodeFrom(cfg.finals, '0', 0) == -1;
    } else if Initial(cfg, q, false) != -1 {
      CodeFound(cfg, Initial(cfg, q, false));
    } else if Final(cfg, q, false) != -1 {
      CodeFound(cfg, Final(cfg, q, false));
      assert "" + q == q;
    } else {
      var n := if |q| >= 2 && (q[1] == 'h' || q[1] == 'g') then 2 else 1;
      assert q == q[..n] + q[n..];
      CodeFound(cfg, Initial(cfg, q[..n], false));
      CodeFound(cfg, Final(cfg, q[n..], false));
    }
  }

  /** MapPY is injective up to the gn rewriting. */
  lemma CodesAreInjective(cfg: Config, p: string, q: string)
    requires Spelt(cfg) && p != "" && q != ""
    ensures CodeOf(cfg, p, SYSTEM).Code? && CodeOf(cfg, p, SYSTEM) == CodeOf(cfg, q, SYSTEM) ==>
      Retyped(cfg, p) == Retyped(cfg, q)
  {
    if CodeOf(cfg, p, SYSTEM).Code? && CodeOf(cfg, p, SYSTEM) == CodeOf(cfg, q, SYSTEM) {
      EngHasItsOwnCode(cfg, p);
      EngHasItsOwnCode(cfg, q);
      SpellingRoundTrip(cfg, p);
      SpellingRoundTrip(cfg, q);
    }
  }

  /** The second letter of a system code is the wildcard for "eng" under its fuzzy option only. */
  lemma EngHasItsOwnCode(cfg: Config, p: string)
    requires Spelt(cfg) && p != "" && CodeOf(cfg, p, SYSTEM).Code?
    ensures CodeOf(cfg, p, SYSTEM).second == '0' <==> Retyped(cfg, p) == "eng" && FuzzyEng(cfg)
  {
    hide Spelt, EntryFrom;
    var q := Retyped(cfg, p);
    CodesAreLetters(cfg, Final(cfg, q, false));
    var n := if |q| >= 2 && (q[1] == 'h' || q[1] == 'g') then 2 else 1;
    CodesAreLetters(cfg, Final(cfg, q[n..], false));
  }

  /** A spelling made of initial i and final f that MapPY can take apart. */
  predicate Splits(cfg: Config, q: string, i: nat, f: nat) {
    && i < |cfg.finals| <= |cfg.initials| && f < |cfg.finals|
    && q == cfg.initials[i].spelling + cfg.finals[f].spelling
    && Detachable(cfg.initials[i].spelling)
  }

  ghost predicate Spelled(cfg: Config, q: string) {
    || HasRow(cfg.initials, q)
    || HasRow(cfg.finals, q)
    || (exists i, f :: Splits(cfg, q, i, f))
  }

  /** Exactly the initials, the finals and the initial-final pairs have a code. */
  lemma CodedSpellings(cfg: Config, p: string, mode: char)
    requires Spelt(cfg) && p != ""
    ensures CodeOf(cfg, p, mode).Code? <==> Spelled(cfg, Retyped(cfg, p))
  {
    hide Spelt;
    var q := Retyped(cfg, p);
    EntryExactly(cfg.initials, q);
    EntryExactly(cfg.finals, q);
    EngIsFinal(cfg);
    if i, f :| Splits(cfg, q, i, f) { SplitIsCoded(cfg, p, mode, i, f); }
    if CodeOf(cfg, p, mode).Code? && !HasRow(cfg.initials, q) && !HasRow(cfg.finals, q) {
      var n := if |q| >= 2 && (q[1] == 'h' || q[1] == 'g') then 2 else 1;
      assert q == q[..n] + q[n..];
      FewerFinals(cfg);
      assert Splits(cfg, q, Initial(cfg, q[..n], false), Final(cfg, q[n..], false));
    }
  }

  lemma EngIsFinal(cfg: Config)
    requires Spelt(cfg)
    ensures HasRow(cfg.finals, "eng")
  {
  }

  lemma FewerFinals(cfg: Config)
    requires Spelt(cfg)
    ensures |cfg.finals| <= |cfg.initials|
  {
  }

  lemma SplitIsCoded(cfg: Config, p: string, mode: char, i: nat, f: nat)
    requires Spelt(cfg) && p != "" && Splits(cfg, Retyped(cfg, p), i, f)
    ensures CodeOf(cfg, p, mode).Code?
  {
    var q := Retyped(cfg, p);
    var head, tail := cfg.initials[i].spelling, cfg.finals[f].spelling;
    assert q[..|head|] == head && q[|head|..] == tail;
    EntryFound(cfg.initials, head, false, 0, i);
    EntryFound(cfg.finals, tail, false, 0, f);
    assert |head| == 1 ==> q[1] == tail[0];
    assert |head| == 2 ==> q[1] == head[1];
  }

  /** Not a spelling that ends in gn behind another letter, or the gn option is off. */
  predicate Unaltered(cfg: Config, p: string) {
    cfg.misstypeNGGN ==> |p| <= 2 || p[|p| - 2..] != "gn"
  }

  /** With the gn option on, gn at the end is ng: the codes are the same, and a system code is
      decoded to the spelling with ng. */
  lemma GnIsNg(cfg: Config, w: string, mode: char)
    requires cfg.misstypeNGGN && w != ""
    ensures CodeOf(cfg, w + "gn", mode) == CodeOf(cfg, w + "ng", mode)
    ensures var c := CodeOf(cfg, w + "gn", SYSTEM);
      Spelt(cfg) && c.Code? && !(w == "e" && FuzzyEng(cfg)) ==> SpellingOf(cfg, c.first, c.second) == Some(w + "ng")
  {
    hide Spelt, EntryFrom;
    assert (w + "gn")[..|w|] == w;
    assert Retyped(cfg, w + "gn") == w + "ng" == Retyped(cfg, w + "ng");
    if Spelt(cfg) && CodeOf(cfg, w + "gn", SYSTEM).Code? {
      SpellingRoundTrip(cfg, w + "gn");
      assert w + "ng" == "eng" ==> w == "eng"[..1];
    }
  }

  /** Every other spelling is taken as it is. */
  lemma OthersAreKept(cfg: Config, p: string, mode: char)
    requires Spelt(cfg) && p != "" && Unaltered(cfg, p)
    ensures CodeOf(cfg, p, mode).Code? <==> Spelled(cfg, p)
    ensures var c := CodeOf(cfg, p, SYSTEM);
      c.Code? && !(p == "eng" && FuzzyEng(cfg)) ==> SpellingOf(cfg, c.first, c.second) == Some(p)
  {
    hide Spelt, EntryFrom, Spelled;
    assert |p| > 2 ==> p[|p| - 2..] == [p[|p| - 2], p[|p| - 1]];
    assert Retyped(cfg, p) == p;
    CodedSpellings(cfg, p, mode);
    if CodeOf(cfg, p, SYSTEM).Code? { SpellingRoundTrip(cfg, p); }
  }

  predicate SplitCode(cfg: Config, p: string, i: nat, f: nat, c: MapResult) {
    Splits(cfg, p, i, f) && c == Code(cfg.initials[i].code, cfg.finals[f].code)
  }

  /** The letters of a code: an initial has its own and the mode's, a final the mode's and its own,
      and a spelling that is neither those of the initial and the final it is made of. */
  lemma CodeLetters(cfg: Config, p: string, mode: char)
    requires Spelt(cfg) && p != "" && Unaltered(cfg, p) && !(p == "eng" && FuzzyEng(cfg))
    ensures var c := CodeOf(cfg, p, mode);
      && (HasRow(cfg.initials, p) ==>
        exists i :: 0 <= i < |cfg.initials| && cfg.initials[i].spelling == p && c == Code(cfg.initials[i].code, mode))
      && (!HasRow(cfg.initials, p) && HasRow(cfg.finals, p) ==>
        exists f :: 0 <= f < |cfg.finals| && cfg.finals[f].spelling == p && c == Code(mode, cfg.finals[f].code))
      && (!HasRow(cfg.initials, p) && !HasRow(cfg.finals, p) && c.Code? ==> exists i, f :: SplitCode(cfg, p, i, f, c))
  {
    assert |p| > 2 ==> p[|p| - 2..] == [p[|p| - 2], p[|p| - 1]];
    assert Retyped(cfg, p) == p;
    EntryExactly(cfg.initials, p);
    EntryExactly(cfg.finals, p);
    hide Spelt, Splits, EntryFrom;
    if CodeOf(cfg, p, mode).Code? && !HasRow(cfg.initials, p) && !HasRow(cfg.finals, p) {
      var n := if |p| >= 2 && (p[1] == 'h' || p[1] == 'g') then 2 else 1;
      SplitFound(cfg, p, n);
      assert SplitCode(cfg, p, Initial(cfg, p[..n], false), Final(cfg, p[n..], false), CodeOf(cfg, p, mode));
    }
  }

  lemma SplitFound(cfg: Config, p: string, n: nat)
    requires Spelt(cfg) && n <= |p| && Initial(cfg, p[..n], false) != -1 && Final(cfg, p[n..], false) != -1
    requires Initial(cfg, p[..n], false) < |cfg.finals| && (n == 1 || (n == 2 && (p[1] == 'h' || p[1] == 'g')))
    ensures var i, f := Initial(cfg, p[..n], false), Final(cfg, p[n..], false);
      Splits(cfg, p, i, f) && cfg.finals[i].code == cfg.initials[i].code
  {
    hide Spelt, EntryFrom;
    assert p == p[..n] + p[n..];
    FewerFinals(cfg);
    CodeFound(cfg, Initial(cfg, p[..n], false));
  }

  /** "eng" under the option of the pair en and eng has the code of the initial "en" and a
      wildcard. */
  lemma FuzzyEngCode(cfg: Config, mode: char)
    requires cfg.initials == INITIALS && |cfg.fuzzyFinals| > 1 && cfg.fuzzyFinals[1]
    ensures INITIALS[23].spelling == "en" && CodeOf(cfg, "eng", mode) == Code(INITIALS[23].code, '0')
  {
    hide EntryFrom;
  }

  /** A spelling whose code has a letter for its initial: an initial, an initial with a final,
      or "eng" under its fuzzy option. */
  ghost predicate Headed(cfg: Config, q: string) {
    || (q == "eng" && FuzzyEng(cfg))
    || HasRow(cfg.initials, q)
    || (!HasRow(cfg.finals, q) && exists i, f :: Splits(cfg, q, i, f))
  }

  /** Among the spellings with a code exactly those without a headed one get the wildcard for
      their initial from a user's typing: the finals that are no initials. */
  lemma WildcardInitials(cfg: Config, p: string)
    requires Spelt(cfg) && p != "" && CodeOf(cfg, p, USER).Code?
    ensures CodeOf(cfg, p, USER).first == USER <==> !Headed(cfg, Retyped(cfg, p))
  {
    hide Spelt, Splits;
    var q := Retyped(cfg, p);
    CodedSpellings(cfg, p, USER);
    EntryExactly(cfg.initials, q);
    EntryExactly(cfg.finals, q);
    CodesAreLetters(cfg, Initial(cfg, q, false));
    if |q| >= 2 && (q[1] == 'h' || q[1] == 'g') {
      CodesAreLetters(cfg, Initial(cfg, q[..2], false));
    } else {
      CodesAreLetters(cfg, Initial(cfg, q[..1], false));
    }
  }

  /** No code holds a terminating zero. */
  lemma CodesArePlain(cfg: Config, p: string)
    requires Spelt(cfg) && p != "" && CodeOf(cfg, p, USER).Code?
    ensures CodeOf(cfg, p, USER).first != '\0' && CodeOf(cfg, p, USER).second != '\0'
  {
    hide Spelt;
    var q := Retyped(cfg, p);
    CodesAreLetters(cfg, Initial(cfg, q, false));
    CodesAreLetters(cfg, Final(cfg, q, false));
    var n := if |q| >= 2 && (q[1] == 'h' || q[1] == 'g') then 2 else 1;
    CodesAreLetters(cfg, Initial(cfg, q[..n], false));
    CodesAreLetters(cfg, Final(cfg, q[n..], false));
  }

  lemma {:induction false} EntryExactly(t: seq<MapEntry>, q: string)
    ensures EntryFrom(t, q, false, 0) != -1 <==> HasRow(t, q)
  {
    if k :| 0 <= k < |t| && t[k].spelling == q { EntryFound(t, q, false, 0, k); }
  }

  lemma CodesAreLetters(cfg: Config, k: int)
    requires Spelt(cfg)
    ensures 0 <= k < |cfg.initials| ==> cfg.initials[k].code !in [USER, '\0']
    ensures 0 <= k < |cfg.finals| ==> cfg.finals[k].code !in [USER, '\0']
  {
  }

  /* ----- comparing codes ----- */

  /** C's view of a string: the terminating zero is readable, nothing behind it is. */
  function At(s: string, i: nat): char {
    if i < |s| then s[i] else '\0'
  }

  /** Compares one code letter; zero means equal. */
  function Cmp1(cfg: Config, m1: char, m2: char, isS: bool, useMH: bool, sp: bool): int {
    if m2 == '0' || m1 == '0' then
      if m1 == ' ' || m2 == ' ' || !cfg.fullPY || sp then 0 else m1 as int - m2 as int
    else if m1 == m2 then 0
    else
      var i := if isS then PairFrom(INITIAL_PAIRS, cfg.fuzzyInitials, useMH, m1, m2, 0)
               else PairFrom(FINAL_PAIRS, cfg.fuzzyFinals, false, m1, m2, 0);
      if i >= 0 && !(!isS && !useMH && i == 6) then 0 else m1 as int - m2 as int
  }

  method Cmp1Map(cfg: Config, m1: char, m2: char, isS: bool, useMH: bool, sp: bool) returns (r: int)
    ensures r == Cmp1(cfg, m1, m2, isS, useMH, sp)
    ensures r == 0 <==> Agree(cfg, m1, m2, isS, useMH, sp)
    ensures r != 0 ==> r == m1 as int - m2 as int
  {
    Cmp1IsAgreement(cfg, m1, m2, isS, useMH, sp);
    hide Agree;
    if m2 == '0' || m1 == '0' {
      if m1 == ' ' || m2 == ' ' || !cfg.fullPY || sp { return 0; }
    } else {
      if m1 == m2 { return 0; }
      var i;
      if isS {
        i := GetMHIndexS2(cfg, m1, m2, useMH);
      } else {
        i := GetMHIndexC2(cfg, m1, m2);
        if !useMH && i == 6 { i := -1; }
      }
      if i >= 0 { return 0; }
    }
    return m1 as int - m2 as int;
  }

  /** Two code letters agree when they are the same, when one is the wildcard '0' and
      wildcards count, or when an enabled fuzzy pair joins them; the pair v-u (row 6 of the
      finals) is only used on request, and the request enables every pair of initials. */
  ghost predicate Agree(cfg: Config, m1: char, m2: char, isS: bool, useMH: bool, sp: bool) {
    || m1 == m2
    || ((m1 == '0' || m2 == '0') && (m1 == ' ' || m2 == ' ' || !cfg.fullPY || sp))
    || (m1 != '0' && m2 != '0' && isS && exists k ::
      0 <= k < |INITIAL_PAIRS| && Joins(INITIAL_PAIRS[k], m1, m2) && (On(cfg.fuzzyInitials, k) || useMH))
    || (m1 != '0' && m2 != '0' && !isS && exists k ::
      0 <= k < |FINAL_PAIRS| && Joins(FINAL_PAIRS[k], m1, m2) && On(cfg.fuzzyFinals, k) && (k == 6 ==> useMH))
  }

  lemma Cmp1IsAgreement(cfg: Config, m1: char, m2: char, isS: bool, useMH: bool, sp: bool)
    ensures Cmp1(cfg, m1, m2, isS, useMH, sp) == 0 <==> Agree(cfg, m1, m2, isS, useMH, sp)
    ensures Cmp1(cfg, m1, m2, isS, useMH, sp) != 0 ==> Cmp1(cfg, m1, m2, isS, useMH, sp) == m1 as int - m2 as int
  {
    if m1 != m2 && m1 != '0' && m2 != '0' {
      forall k | 0 <= k < |INITIAL_PAIRS| {
        PairFound(INITIAL_PAIRS, cfg.fuzzyInitials, useMH, m1, m2, k);
      }
      forall k | 0 <= k < |FINAL_PAIRS| {
        PairFound(FINAL_PAIRS, cfg.fuzzyFinals, false, m1, m2, k);
      }
      PairFromResult(INITIAL_PAIRS, cfg.fuzzyInitials, useMH, m1, m2, 0);
      PairFromResult(FINAL_PAIRS, cfg.fuzzyFinals, false, m1, m2, 0);
    }
  }

  /** The fuzzy use of the zh-z, ch-c, sh-s pairs that an abbreviated typed initial turns on. */
  predicate Abbreviated(typed: string, i: nat)
    requires i < |typed|
  {
    i % 2 == 0 && IsZCS(typed[i]) && (At(typed, i + 1) == '0' || i + 1 == |typed|)
  }

  ghost predicate AgreeAt(cfg: Config, phrase: string, typed: string, i: nat, sp: bool)
    requires i < |typed|
  {
    Agree(cfg, At(phrase, i), typed[i], i % 2 == 0, Abbreviated(typed, i), sp)
  }

  /** The comparison never walks past the terminator of the phrase code. */
  ghost predicate Comparable(cfg: Config, phrase: string, typed: string, sp: bool) {
    |typed| <= |phrase| || exists i :: 0 <= i <= |phrase| && !AgreeAt(cfg, phrase, typed, i, sp)
  }

  /** How many letters agree from position i on, i included in the count. */
  ghost function MatchFrom(cfg: Config, phrase: string, typed: string, sp: bool, i: nat): (m: nat)
    requires i <= |typed|
    ensures i <= m <= |typed|
    ensures forall j :: i <= j < m ==> AgreeAt(cfg, phrase, typed, j, sp)
    ensures m < |typed| ==> !AgreeAt(cfg, phrase, typed, m, sp)
    decreases |typed| - i
  {
    if i == |typed| || !AgreeAt(cfg, phrase, typed, i, sp) then i else MatchFrom(cfg, phrase, typed, sp, i + 1)
  }

  ghost function Compare(cfg: Config, phrase: string, typed: string, sp: bool): int {
    var m := MatchFrom(cfg, phrase, typed, sp, 0);
    At(phrase, m) as int - At(typed, m) as int
  }

  /** The phrase code fuzzily begins the typed code, position by position. */
  ghost predicate Begins(cfg: Config, phrase: string, typed: string, sp: bool) {
    |phrase| <= |typed| && forall i :: 0 <= i < |phrase| ==> AgreeAt(cfg, phrase, typed, i, sp)
  }

  /** It does so exactly when the whole phrase code agrees and the typed code goes on with a
      wildcard that counts. */
  lemma ComparableExactly(cfg: Config, phrase: string, typed: string, sp: bool)
    requires '\0' !in typed
    ensures Comparable(cfg, phrase, typed, sp) <==>
      !(|phrase| < |typed| && Begins(cfg, phrase, typed, sp) && typed[|phrase|] == '0' && (!cfg.fullPY || sp))
  {
    if |phrase| < |typed| {
      Cmp1IsAgreement(cfg, '\0', typed[|phrase|], |phrase| % 2 == 0, Abbreviated(typed, |phrase|), sp);
      NoPairWithZero(cfg, typed[|phrase|]);
      if Begins(cfg, phrase, typed, sp) {
        assert Comparable(cfg, phrase, typed, sp) <==> !AgreeAt(cfg, phrase, typed, |phrase|, sp);
      }
    }
  }

  lemma NoPairWithZero(cfg: Config, c: char)
    ensures forall k :: 0 <= k < |INITIAL_PAIRS| ==> !Joins(INITIAL_PAIRS[k], '\0', c)
    ensures forall k :: 0 <= k < |FINAL_PAIRS| ==> !Joins(FINAL_PAIRS[k], '\0', c)
  {
  }

  /** The comparison does leave a phrase code: here a phrase of one more syllable is compared
      with that syllable and a separator at the end of the typed text. */
  lemma ComparisonLeavesPhrase(cfg: Config)
    requires !cfg.fullPY
    ensures !Comparable(cfg, "PH", "PH00", false)
  {
    ComparableExactly(cfg, "PH", "PH00", false);
    assert forall i :: 0 <= i < 2 ==> AgreeAt(cfg, "PH", "PH00", i, false);
  }

  lemma MatchStep(cfg: Config, phrase: string, typed: string, sp: bool, i: nat)
    requires i <= |typed|
    ensures MatchFrom(cfg, phrase, typed, sp, i)
      == if i == |typed| || !AgreeAt(cfg, phrase, typed, i, sp) then i else MatchFrom(cfg, phrase, typed, sp, i + 1)
  {
  }

  /** Compares a phrase code with a typed code and counts the leading letters that agree.
      The result is zero exactly on a full match of equal lengths, and the test the callers
      make with it accepts exactly the phrases that begin the typed code.  `inside` turns
      false where the source goes on to read behind the terminator of the phrase code. */
  method CmpMap(cfg: Config, phrase: string, typed: string, sp: bool) returns (inside: bool, val: int, matched: nat)
    requires '\0' !in phrase && '\0' !in typed
    ensures inside <==> Comparable(cfg, phrase, typed, sp)
    ensures inside ==> matched == MatchFrom(cfg, phrase, typed, sp, 0) <= |phrase|
    ensures inside ==> val == Compare(cfg, phrase, typed, sp)
    ensures inside ==> (val == 0 <==> |phrase| == |typed| && Begins(cfg, phrase, typed, sp))
    ensures inside ==> (val == 0 ==> matched == |typed|)
    ensures inside ==> (val == 0 || |phrase| == matched <==> Begins(cfg, phrase, typed, sp))
  {
    hide Agree, MatchFrom, Cmp1;
    matched, inside := 0, true;
    while true
      invariant inside && matched <= |typed| && matched <= |phrase|
      invariant forall i :: 0 <= i < matched ==> AgreeAt(cfg, phrase, typed, i, sp)
      invariant MatchFrom(cfg, phrase, typed, sp, 0) == MatchFrom(cfg, phrase, typed, sp, matched)
      decreases |typed| - matched
    {
      MatchStep(cfg, phrase, typed, sp, matched);
      if matched == |typed| {
        return true, At(phrase, matched) as int - At(typed, matched) as int, matched;
      }
      if (matched + 1) % 2 == 1 && IsZCS(typed[matched]) && (At(typed, matched + 1) == '0' || matched + 1 == |typed|) {
        val := Cmp1Map(cfg, At(phrase, matched), typed[matched], (matched + 1) % 2 == 1, true, sp);
      } else {
        val := Cmp1Map(cfg, At(phrase, matched), typed[matched], (matched + 1) % 2 == 1, false, sp);
      }
      assert val == 0 <==> AgreeAt(cfg, phrase, typed, matched, sp);
      if val != 0 { return; }
      if matched == |phrase| { return false, val, matched; }
      matched := matched + 1;
    }
  }

  /** With every option off and no wildcard on either side the comparison is strcmp: the
      first letter that differs decides. */
  lemma StrictComparison(cfg: Config, phrase: string, typed: string, sp: bool)
    requires forall k :: 0 <= k < 7 ==> !On(cfg.fuzzyFinals, k) && !On(cfg.fuzzyInitials, k)
    requires '\0' !in phrase && '\0' !in typed && '0' !in phrase && '0' !in typed
    requires |typed| % 2 == 0
    ensures forall i :: 0 <= i < |typed| ==> (AgreeAt(cfg, phrase, typed, i, sp) <==> At(phrase, i) == typed[i])
  {
    forall i | 0 <= i < |typed|
      ensures AgreeAt(cfg, phrase, typed, i, sp) <==> At(phrase, i) == typed[i]
    {
      assert At(phrase, i) != '0' && typed[i] != '0';
      assert i % 2 == 0 ==> i + 1 < |typed| && At(typed, i + 1) == typed[i + 1];
      assert !Abbreviated(typed, i);
    }
  }

  /** Compares the two letters of one syllable's code; typed abbreviations of z, c, s use
      their fuzzy pairs, and after the codes IsJQXY names v and u are exchangeable. */
  method Cmp2Map(cfg: Config, map1: string, map2: string, sp: bool) returns (r: int)
    requires |map1| == 2 && |map2| == 2
    ensures r == 0 <==> Agree2(cfg, map1, map2, sp)
    ensures r != 0 ==>
      r == if AgreeInitials(cfg, map1, map2, sp)
        then map1[1] as int - map2[1] as int else map1[0] as int - map2[0] as int
  {
    hide Agree;
    if IsZCS(map2[0]) && map2[1] == '0' {
      r := Cmp1Map(cfg, map1[0], map2[0], true, true, sp);
    } else {
      r := Cmp1Map(cfg, map1[0], map2[0], true, false, sp);
    }
    if r != 0 { return; }
    r := Cmp1Map(cfg, map1[1], map2[1], false, IsJQXY(map2[0]), sp);
  }

  ghost predicate AgreeInitials(cfg: Config, map1: string, map2: string, sp: bool)
    requires |map1| == 2 && |map2| == 2
  {
    Agree(cfg, map1[0], map2[0], true, IsZCS(map2[0]) && map2[1] == '0', sp)
  }

  ghost predicate Agree2(cfg: Config, map1: string, map2: string, sp: bool)
    requires |map1| == 2 && |map2| == 2
  {
    AgreeInitials(cfg, map1, map2, sp) && Agree(cfg, map1[1], map2[1], false, IsJQXY(map2[0]), sp)
  }
}
