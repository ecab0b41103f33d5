/** Shuangpin: two keys for a syllable.  SP2QP, and the Shuangpin branch of ParsePY
    (src/im/pinyin/sp.c:206-378, src/im/pinyin/pyParser.c:104-158). */
module Shuangpin {
  import opened PyMapTable
  import opened Pyfa
  import opened PyParser
  import opened ParsePy

  /** A row of a scheme: a spelling and the key for it. */
  datatype KeyEntry = KeyEntry(strQP: string, cJP: char)

  /** A scheme: keys for initials and for finals, and the key for no initial. */
  datatype Scheme = Scheme(initials: seq<KeyEntry>, finals: seq<KeyEntry>, cNonS: char)

  /** An empty spelling ends a table of the source, so a row has none. */
  predicate Filled(t: seq<KeyEntry>) {
    forall i :: 0 <= i < |t| ==> t[i].strQP != ""
  }

  predicate Usual(sch: Scheme) {
    Filled(sch.initials) && Filled(sch.finals)
  }

  /** One key or two. */
  predicate Keys(sp: string) {
    1 <= |sp| <= 2
  }

  function KeyFrom(t: seq<KeyEntry>, c: char, i: nat): (r: int)
    requires i <= |t|
    ensures r == -1 || (i <= r < |t| && t[r].cJP == c)
    decreases |t| - i
  {
    if i == |t| then -1 else if t[i].cJP == c then i else KeyFrom(t, c, i + 1)
  }

  method GetSPIndexJP(t: seq<KeyEntry>, c: char, iStart: nat) returns (r: int)
    requires iStart <= |t|
    ensures r == KeyFrom(t, c, iStart)
  {
    var i := iStart;
    while i < |t|
      invariant iStart <= i <= |t| && KeyFrom(t, c, iStart) == KeyFrom(t, c, i)
    {
      if c == t[i].cJP { return i; }
      i := i + 1;
    }
    return -1;
  }

  predicate IsSyllable(cfg: Config, w: string) {
    FirstRow(cfg, w, false) != -1
  }

  predicate Vowel(c: char) {
    c in "aeiou"
  }

  /* ----- what the two keys stand for ----- */

  /** Some final of key sp[1] begins with the letter sp[0]. */
  predicate VowelFinal(sch: Scheme, sp: string)
    requires |sp| == 2 && Usual(sch)
  {
    exists i :: 0 <= i < |sch.finals| && sch.finals[i].cJP == sp[1] && sch.finals[i].strQP[0] == sp[0]
  }

  /** The rule of schemes without a key for no initial: two equal vowels, or a vowel and a
      final that begins with it, may be a syllable without initial. */
  predicate Xiaohe(sch: Scheme, sp: string)
    requires Keys(sp) && Usual(sch)
  {
    sch.cNonS == '*' && Vowel(sp[0]) && |sp| == 2
    && if Vowel(sp[1]) then sp[0] == sp[1] else VowelFinal(sch, sp)
  }

  /** What the first key is read as. */
  function Lead(sch: Scheme, sp: string, check: bool): string
    requires Keys(sp)
  {
    if sp[0] != sch.cNonS && !check then
      var i := KeyFrom(sch.initials, sp[0], 0);
      if i == -1 then [sp[0]] else sch.initials[i].strQP
    else if |sp| == 1 then sp
    else ""
  }

  predicate Fitting(cfg: Config, sch: Scheme, sp: string, check: bool, k: nat)
    requires |sp| == 2 && Usual(sch) && k < |sch.finals|
  {
    && sch.finals[k].cJP == sp[1]
    && (check ==> sch.finals[k].strQP[0] == sp[0])
    && IsSyllable(cfg, Lead(sch, sp, check) + sch.finals[k].strQP)
  }

  /** The first final from row i on that makes a syllable with the lead. */
  function FinalFrom(cfg: Config, sch: Scheme, sp: string, check: bool, i: nat): (r: int)
    requires |sp| == 2 && Usual(sch) && i <= |sch.finals|
    ensures r == -1 || (i <= r < |sch.finals| && Fitting(cfg, sch, sp, check, r))
    decreases |sch.finals| - i
  {
    if i == |sch.finals| then -1
    else if Fitting(cfg, sch, sp, check, i) then i
    else FinalFrom(cfg, sch, sp, check, i + 1)
  }

  /** One pass over the tables. */
  function Pass(cfg: Config, sch: Scheme, sp: string, check: bool): string
    requires Keys(sp) && Usual(sch)
  {
    var lead := Lead(sch, sp, check);
    if |sp| == 1 then lead
    else
      var k := FinalFrom(cfg, sch, sp, check, 0);
      if k == -1 then lead + [sp[1]] else lead + sch.finals[k].strQP
  }

  /** The full spelling of one or two keys: a first pass, a second without the vowel rule when
      the first gave no syllable under it, and the keys themselves when no pass gave one. */
  function QuanPin(cfg: Config, sch: Scheme, sp: string): string
    requires Keys(sp) && Usual(sch)
  {
    var first := Pass(cfg, sch, sp, Xiaohe(sch, sp));
    var check := Xiaohe(sch, sp) && IsSyllable(cfg, first);
    var qp := if check then first else Pass(cfg, sch, sp, false);
    var unknown := sp[0] != sch.cNonS && !check && KeyFrom(sch.initials, sp[0], 0) == -1;
    if ((unknown && Initial(cfg, sp[..1], false) == 0) || (|sp| == 2 && !IsSyllable(cfg, qp))) && IsSyllable(cfg, sp)
    then sp else qp
  }

  /** The check of the vowel rule. */
  method CheckXiaoheNonS(sch: Scheme, sp: string) returns (check: bool)
    requires Keys(sp) && Usual(sch)
    ensures check == Xiaohe(sch, sp)
  {
    if sch.cNonS != '*' || !Vowel(sp[0]) || |sp| == 1 { return false; }
    if Vowel(sp[1]) { return sp[0] == sp[1]; }
    var idx := GetSPIndexJP(sch.finals, sp[1], 0);
    NoKeyBefore(sch.finals, sp[1], 0);
    while idx != -1
      invariant -1 <= idx < |sch.finals|
      invariant idx != -1 ==> sch.finals[idx].cJP == sp[1]
      invariant forall i :: 0 <= i < (if idx == -1 then |sch.finals| else idx) ==>
        !(sch.finals[i].cJP == sp[1] && sch.finals[i].strQP[0] == sp[0])
      decreases if idx == -1 then 0 else |sch.finals| - idx
    {
      if sch.finals[idx].strQP[0] == sp[0] { return true; }
      NoKeyBefore(sch.finals, sp[1], idx + 1);
      idx := GetSPIndexJP(sch.finals, sp[1], idx + 1);
    }
    return false;
  }

  lemma {:induction false} NoKeyBefore(t: seq<KeyEntry>, c: char, i: nat)
    requires i <= |t|
    ensures var r := KeyFrom(t, c, i);
      forall k :: i <= k < (if r == -1 then |t| else r) ==> t[k].cJP != c
    decreases |t| - i
  {
    if i < |t| && t[i].cJP != c { NoKeyBefore(t, c, i + 1); }
  }

  lemma {:induction false} SkipUnfitting(cfg: Config, sch: Scheme, sp: string, check: bool, i: nat, j: nat)
    requires |sp| == 2 && Usual(sch) && i <= j <= |sch.finals|
    requires forall k :: i <= k < j ==> !Fitting(cfg, sch, sp, check, k)
    ensures FinalFrom(cfg, sch, sp, check, i) == FinalFrom(cfg, sch, sp, check, j)
    decreases j - i
  {
    if i < j { SkipUnfitting(cfg, sch, sp, check, i + 1, j); }
  }

  /** The search for a final; `qp` is the lead on entry. */
  method FindFinal(cfg: Config, sch: Scheme, sp: string, check: bool, lead: string) returns (qp: string, iIndex2: int)
    requires |sp| == 2 && Usual(sch) && lead == Lead(sch, sp, check)
    ensures qp == Pass(cfg, sch, sp, check)
    ensures iIndex2 == FinalFrom(cfg, sch, sp, check, 0)
  {
    hide IsSyllable;
    iIndex2 := -1;
    while true
      invariant -1 <= iIndex2 < |sch.finals|
      invariant FinalFrom(cfg, sch, sp, check, 0) == FinalFrom(cfg, sch, sp, check, iIndex2 + 1)
      decreases |sch.finals| - iIndex2
    {
      ghost var was := iIndex2 + 1;
      iIndex2 := GetSPIndexJP(sch.finals, sp[1], iIndex2 + 1);
      NoKeyBefore(sch.finals, sp[1], was);
      SkipUnfitting(cfg, sch, sp, check, was, if iIndex2 == -1 then |sch.finals| else iIndex2);
      if iIndex2 == -1 {
        return lead + [sp[1]], -1;
      }
      if check && sch.finals[iIndex2].strQP[0] != sp[0] { continue; }
      var found := FindPYFAIndex(cfg, lead + sch.finals[iIndex2].strQP, false);
      if found != -1 {
        FitsHere(cfg, sch, sp, check, iIndex2);
        return lead + sch.finals[iIndex2].strQP, iIndex2;
      }
      FitsHere(cfg, sch, sp, check, iIndex2);
    }
  }

  lemma FitsHere(cfg: Config, sch: Scheme, sp: string, check: bool, k: nat)
    requires |sp| == 2 && Usual(sch) && k < |sch.finals| && sch.finals[k].cJP == sp[1]
    requires check ==> sch.finals[k].strQP[0] == sp[0]
    ensures Fitting(cfg, sch, sp, check, k) <==> FirstRow(cfg, Lead(sch, sp, check) + sch.finals[k].strQP, false) != -1
  {
  }

  /** SP2QP.  The loop is the recheck, taken at most once. */
  method SP2QP(cfg: Config, sch: Scheme, sp: string) returns (qp: string)
    requires Keys(sp) && Usual(sch)
    ensures qp == QuanPin(cfg, sch, sp)
  {
    hide Lead, FinalFrom, Xiaohe, FirstRow;
    var iIndex1, iIndex2 := 0, 0;
    var check := CheckXiaoheNonS(sch, sp);
    while true
      invariant check ==> Xiaohe(sch, sp)
      invariant !check ==> !Xiaohe(sch, sp) || !IsSyllable(cfg, Pass(cfg, sch, sp, true))
      invariant iIndex1 == 0 && (|sp| == 1 ==> iIndex2 == 0)
      decreases check
    {
      qp, iIndex1 := ReadFirst(sch, sp, check);
      if |sp| == 2 {
        qp, iIndex2 := FindFinal(cfg, sch, sp, check, qp);
      }
      var found := FindPYFAIndex(cfg, qp, false);
      if found != -1 {
        iIndex2 := 0;
      } else if check {
        check := false;
        continue;
      }
      break;
    }
    var first := IsSyllabary(cfg, sp[..1], false);
    if (iIndex1 == -1 && first == 0) || iIndex2 == -1 {
      iIndex1 := FindPYFAIndex(cfg, sp, false);
      if iIndex1 != -1 { qp := sp; }
    }
  }

  method ReadFirst(sch: Scheme, sp: string, check: bool) returns (qp: string, iIndex1: int)
    requires Keys(sp)
    ensures qp == Lead(sch, sp, check)
    ensures if sp[0] != sch.cNonS && !check then iIndex1 == KeyFrom(sch.initials, sp[0], 0) else iIndex1 == 0
  {
    qp, iIndex1 := "", 0;
    if sp[0] != sch.cNonS && !check {
      iIndex1 := GetSPIndexJP(sch.initials, sp[0], 0);
      qp := if iIndex1 == -1 then [sp[0]] else sch.initials[iIndex1].strQP;
    } else if |sp| == 1 {
      qp := sp;
    }
  }

  /** The clause of SP2QP about an unknown first key asks for row 0 of the initials, where the
      search means "not found" by -1.  Row 0 has two letters, so over the engine's own table
      the clause never holds. */
  lemma UnknownKeyClause(cfg: Config, sp: string)
    requires cfg.initials == INITIALS && Keys(sp)
    ensures Initial(cfg, sp[..1], false) != 0
  {
    assert INITIALS[0].spelling == "zh";
  }

  /** What two keys may be read as in one pass: the lead with a final of the second key, or
      with that key itself. */
  ghost predicate Reads(sch: Scheme, sp: string, check: bool, w: string)
    requires |sp| == 2 && Usual(sch)
  {
    || w == Lead(sch, sp, check) + [sp[1]]
    || exists k :: 0 <= k < |sch.finals| && ReadsRow(sch, sp, check, w, k)
  }

  predicate ReadsRow(sch: Scheme, sp: string, check: bool, w: string, k: nat)
    requires |sp| == 2 && Usual(sch) && k < |sch.finals|
  {
    && sch.finals[k].cJP == sp[1]
    && (check ==> sch.finals[k].strQP[0] == sp[0])
    && w == Lead(sch, sp, check) + sch.finals[k].strQP
  }

  lemma {:induction false} NoneFits(cfg: Config, sch: Scheme, sp: string, check: bool, i: nat, k: nat)
    requires |sp| == 2 && Usual(sch) && i <= k < |sch.finals| && Fitting(cfg, sch, sp, check, k)
    ensures FinalFrom(cfg, sch, sp, check, i) != -1
    decreases k - i
  {
    if i < k && !Fitting(cfg, sch, sp, check, i) { NoneFits(cfg, sch, sp, check, i + 1, k); }
  }

  /** A pass gives a syllable exactly when some reading is one, and then it gives a reading. */
  lemma PassIsComplete(cfg: Config, sch: Scheme, sp: string, check: bool)
    requires |sp| == 2 && Usual(sch)
    ensures Reads(sch, sp, check, Pass(cfg, sch, sp, check))
    ensures IsSyllable(cfg, Pass(cfg, sch, sp, check)) <==> exists w :: Reads(sch, sp, check, w) && IsSyllable(cfg, w)
  {
    hide IsSyllable, Lead;
    var q, k := Pass(cfg, sch, sp, check), FinalFrom(cfg, sch, sp, check, 0);
    if k != -1 { assert ReadsRow(sch, sp, check, q, k); }
    forall w | Reads(sch, sp, check, w) && IsSyllable(cfg, w)
      ensures IsSyllable(cfg, q)
    {
      if w != Lead(sch, sp, check) + [sp[1]] {
        var j :| 0 <= j < |sch.finals| && ReadsRow(sch, sp, check, w, j);
        NoneFits(cfg, sch, sp, check, 0, j);
      }
    }
  }

  /** SP2QP finds a syllable whenever two keys stand for one: under the vowel rule, under the
      plain rule, or as the syllable's own letters. */
  lemma SyllableIsFound(cfg: Config, sch: Scheme, sp: string)
    requires |sp| == 2 && Usual(sch)
    ensures IsSyllable(cfg, QuanPin(cfg, sch, sp)) <==>
      IsSyllable(cfg, sp)
      || exists check: bool, w :: (check ==> Xiaohe(sch, sp)) && Reads(sch, sp, check, w) && IsSyllable(cfg, w)
  {
    hide IsSyllable, Lead, Xiaohe, Pass, Reads;
    PassIsComplete(cfg, sch, sp, true);
    PassIsComplete(cfg, sch, sp, false);
  }

  /* ----- the keys in a scheme's own terms ----- */

  /** Row i is the first with the key. */
  predicate FirstWith(t: seq<KeyEntry>, c: char, i: nat) {
    i < |t| && t[i].cJP == c && forall j :: 0 <= j < i ==> t[j].cJP != c
  }

  predicate NoneWith(t: seq<KeyEntry>, c: char) {
    forall j :: 0 <= j < |t| ==> t[j].cJP != c
  }

  /** Final f is the first of the key that makes a syllable behind `lead`; with `vowel` only those
      are looked at that begin with that letter. */
  ghost predicate FirstFinal(cfg: Config, sch: Scheme, lead: string, d: char, vowel: string, f: nat) {
    && f < |sch.finals| && sch.finals[f].cJP == d && vowel <= sch.finals[f].strQP
    && FirstRow(cfg, lead + sch.finals[f].strQP, false) != -1
    && forall g :: 0 <= g < f && sch.finals[g].cJP == d && vowel <= sch.finals[g].strQP ==>
      FirstRow(cfg, lead + sch.finals[g].strQP, false) == -1
  }

  /** The vowel rule does not apply: the scheme has a key for no initial, the first key is no vowel,
      the second is another vowel, or it is none and has no final that begins with the first. */
  predicate RuleOff(sch: Scheme, c: char, d: char)
    requires Usual(sch)
  {
    || sch.cNonS != '*' || c !in ['a', 'e', 'i', 'o', 'u']
    || (if d in ['a', 'e', 'i', 'o', 'u'] then d != c
        else forall f :: 0 <= f < |sch.finals| && sch.finals[f].cJP == d ==> sch.finals[f].strQP[0] != c)
  }

  /** Two keys to which it does not apply are read as the initial of the first, or nothing if that is
      the key for no initial, or the letter itself if it stands for none, and the first final of
      the second that makes a syllable with it. */
  lemma PairIsRead(cfg: Config, sch: Scheme, c: char, d: char, i: nat, f: nat)
    requires Usual(sch) && RuleOff(sch, c, d)
    ensures c == sch.cNonS && FirstFinal(cfg, sch, "", d, "", f) ==> QuanPin(cfg, sch, [c, d]) == sch.finals[f].strQP
    ensures c != sch.cNonS && FirstWith(sch.initials, c, i) && FirstFinal(cfg, sch, sch.initials[i].strQP, d, "", f) ==>
      QuanPin(cfg, sch, [c, d]) == sch.initials[i].strQP + sch.finals[f].strQP
    ensures c != sch.cNonS && NoneWith(sch.initials, c) && FirstFinal(cfg, sch, [c], d, "", f) ==>
      QuanPin(cfg, sch, [c, d]) == [c] + sch.finals[f].strQP || Initial(cfg, [c], false) == 0
  {
    hide FirstRow, FinalFrom;
    var sp := [c, d];
    assert !Xiaohe(sch, sp) && sp[..1] == [c];
    if FirstWith(sch.initials, c, i) { NoKeyBefore(sch.initials, c, 0); }
    if FirstFinal(cfg, sch, Lead(sch, sp, false), d, "", f) {
      FinalIs(cfg, sch, sp, false, f);
      assert "" + sch.finals[f].strQP == sch.finals[f].strQP;
    }
  }

  /** Under the vowel rule a vowel and a key that is no other vowel are read as the first final of
      that key that begins with the vowel and is a syllable. */
  lemma VowelPairIsRead(cfg: Config, sch: Scheme, c: char, d: char, f: nat)
    requires Usual(sch) && sch.cNonS == '*' && c in ['a', 'e', 'i', 'o', 'u']
    requires (d == c || d !in ['a', 'e', 'i', 'o', 'u']) && FirstFinal(cfg, sch, "", d, [c], f)
    ensures QuanPin(cfg, sch, [c, d]) == sch.finals[f].strQP
  {
    hide FirstRow, FinalFrom;
    var sp := [c, d];
    assert sch.finals[f].strQP[0] == c;
    assert Xiaohe(sch, sp) && Lead(sch, sp, true) == "";
    FinalIs(cfg, sch, sp, true, f);
    assert "" + sch.finals[f].strQP == sch.finals[f].strQP;
  }

  lemma FinalIs(cfg: Config, sch: Scheme, sp: string, check: bool, f: nat)
    requires |sp| == 2 && Usual(sch)
    requires FirstFinal(cfg, sch, Lead(sch, sp, check), sp[1], if check then sp[..1] else "", f)
    ensures FinalFrom(cfg, sch, sp, check, 0) == f && IsSyllable(cfg, Pass(cfg, sch, sp, check))
    ensures Pass(cfg, sch, sp, check) == Lead(sch, sp, check) + sch.finals[f].strQP
  {
    hide FirstRow, Lead;
    forall g | 0 <= g < |sch.finals|
      ensures (if check then sp[..1] else "") <= sch.finals[g].strQP <==> (check ==> sch.finals[g].strQP[0] == sp[0])
    {
    }
    SkipUnfitting(cfg, sch, sp, check, 0, f);
  }

  /** One key is read as the first initial it stands for, and as itself where it stands for none. */
  lemma KeyIsRead(cfg: Config, sch: Scheme, c: char, i: nat)
    requires Usual(sch) && Initial(cfg, [c], false) != 0
    ensures c != sch.cNonS && FirstWith(sch.initials, c, i) ==> QuanPin(cfg, sch, [c]) == sch.initials[i].strQP
    ensures c == sch.cNonS || NoneWith(sch.initials, c) ==> QuanPin(cfg, sch, [c]) == [c]
  {
    hide FirstRow;
    assert [c][..1] == [c];
    if FirstWith(sch.initials, c, i) { NoKeyBefore(sch.initials, c, 0); }
  }

  /* ----- the parse ----- */

  /** What is stored for a piece: a code, or the key itself when it has none. */
  datatype KeyCode = Mapped(result: MapResult) | Raw(key: string)

  /** One or two keys; `sep` tells whether separators followed. */
  datatype KeyPiece = KeyPiece(keys: string, sep: bool, code: KeyCode)

  lemma QuanPinIsText(cfg: Config, sch: Scheme, sp: string)
    requires Keys(sp) && Usual(sch)
    ensures QuanPin(cfg, sch, sp) != ""
  {
    hide IsSyllable, Xiaohe;
  }

  function QuanPinCode(cfg: Config, sch: Scheme, sp: string, mode: char): MapResult
    requires Keys(sp) && Usual(sch)
  {
    QuanPinIsText(cfg, sch, sp);
    CodeOf(cfg, QuanPin(cfg, sch, sp), mode)
  }

  predicate Pairs(cfg: Config, sch: Scheme, s: string)
    requires |s| >= 2 && Usual(sch)
  {
    IsSyllable(cfg, QuanPin(cfg, sch, s[..2]))
  }

  function SkipSeparators(s: string): (r: string)
    ensures |r| <= |s| && (r != "" ==> r[0] != SEPARATOR)
  {
    if s != "" && s[0] == SEPARATOR then SkipSeparators(s[1..]) else s
  }

  function Marked(s: string): bool {
    s != "" && s[0] == SEPARATOR
  }

  function FirstCode(cfg: Config, sch: Scheme, s: string, mode: char): KeyCode
    requires s != "" && Usual(sch)
  {
    if |s| == 1 then Mapped(QuanPinCode(cfg, sch, s, mode))
    else if Pairs(cfg, sch, s) then Mapped(QuanPinCode(cfg, sch, s[..2], mode))
    else
      var c := QuanPinCode(cfg, sch, s[..1], mode);
      if c.Rejected? then Raw(s[..1]) else Mapped(c)
  }

  /** How many keys the first piece takes. */
  function Taken(cfg: Config, sch: Scheme, s: string): (n: nat)
    requires s != "" && Usual(sch)
    ensures 0 < n <= |s|
  {
    if |s| > 1 && Pairs(cfg, sch, s) then 2 else 1
  }

  function KeyPieces(cfg: Config, sch: Scheme, s: string, mode: char): seq<KeyPiece>
    requires Usual(sch)
    decreases |s|
  {
    if s == "" then []
    else
      var rest := s[Taken(cfg, sch, s)..];
      [KeyPiece(s[..Taken(cfg, sch, s)], Marked(rest), FirstCode(cfg, sch, s, mode))]
      + KeyPieces(cfg, sch, SkipSeparators(rest), mode)
  }

  function KeyText(p: KeyPiece): string {
    p.keys + Mark(p.sep)
  }

  /** The fields written for the pieces. */
  function KeyTexts(ps: seq<KeyPiece>): seq<string> {
    if ps == [] then [] else [KeyText(ps[0])] + KeyTexts(ps[1..])
  }

  function KeyCodes(ps: seq<KeyPiece>): seq<KeyCode> {
    if ps == [] then [] else [ps[0].code] + KeyCodes(ps[1..])
  }

  /** The first piece takes two keys if and only if they make a syllable; its code is that of what
      its keys are read as, or the key itself when there is none for a key with more behind it. */
  lemma FirstPiece(cfg: Config, sch: Scheme, s: string, mode: char)
    requires Usual(sch) && s != ""
    ensures var two := |s| > 1 && FirstRow(cfg, QuanPin(cfg, sch, s[..2]), false) != -1;
      var p, keys := KeyPieces(cfg, sch, s, mode)[0], if two then s[..2] else s[..1];
      && p.keys == keys && (p.sep <==> |s| > |keys| && s[|keys|] == SEPARATOR) && QuanPin(cfg, sch, keys) != ""
      && (var c := CodeOf(cfg, QuanPin(cfg, sch, keys), mode);
          p.code == if c.Rejected? && !two && |s| > 1 then Raw(keys) else Mapped(c))
  {
    hide QuanPin, CodeOf, FirstRow;
    QuanPinIsText(cfg, sch, s[..1]);
    if |s| > 1 { QuanPinIsText(cfg, sch, s[..2]); }
    assert |s| == 1 ==> s[..1] == s;
  }

  /** The Shuangpin branch of ParsePY. */
  method ParseKeys(cfg: Config, sch: Scheme, s: string, mode: char)
      returns (texts: seq<string>, codes: seq<KeyCode>, iMode: nat)
    requires Usual(sch)
    ensures texts == KeyTexts(KeyPieces(cfg, sch, s, mode)) && codes == KeyCodes(KeyPieces(cfg, sch, s, mode))
    ensures iMode == if |KeyPieces(cfg, sch, s, mode)| > 1 then PARSE_PHRASE else PARSE_SINGLEHZ
  {
    hide QuanPin, CodeOf, IsSyllable;
    ghost var whole := KeyPieces(cfg, sch, s, mode);
    texts, codes := [], [];
    var rest := s;
    while rest != ""
      invariant texts + KeyTexts(KeyPieces(cfg, sch, rest, mode)) == KeyTexts(whole)
      invariant codes + KeyCodes(KeyPieces(cfg, sch, rest, mode)) == KeyCodes(whole)
      decreases |rest|
    {
      ghost var was, oldTexts, oldCodes := rest, texts, codes;
      var text, code;
      text, code, rest := TakeKeys(cfg, sch, rest, mode);
      texts, codes := texts + [text], codes + [code];
      OnePieceRead(cfg, sch, was, rest, mode, oldTexts, oldCodes);
    }
    TextsSize(whole);
    iMode := if |texts| > 1 then PARSE_PHRASE else PARSE_SINGLEHZ;
  }

  lemma {:induction false} TextsSize(ps: seq<KeyPiece>)
    ensures |KeyTexts(ps)| == |ps| == |KeyCodes(ps)|
  {
    if ps != [] { TextsSize(ps[1..]); }
  }

  lemma {:induction false} OnePieceRead(cfg: Config, sch: Scheme, s: string, rest: string, mode: char,
      texts: seq<string>, codes: seq<KeyCode>)
    requires Usual(sch) && s != "" && rest == SkipSeparators(s[Taken(cfg, sch, s)..])
    ensures var n := Taken(cfg, sch, s);
      var piece := KeyPiece(s[..n], Marked(s[n..]), FirstCode(cfg, sch, s, mode));
      && (texts + [KeyText(piece)]) + KeyTexts(KeyPieces(cfg, sch, rest, mode)) ==
        texts + KeyTexts(KeyPieces(cfg, sch, s, mode))
      && (codes + [piece.code]) + KeyCodes(KeyPieces(cfg, sch, rest, mode)) ==
        codes + KeyCodes(KeyPieces(cfg, sch, s, mode))
  {
    hide Taken, FirstCode, SkipSeparators;
    var ps := KeyPieces(cfg, sch, s, mode);
    assert ps[1..] == KeyPieces(cfg, sch, rest, mode);
  }

  /** One round of the loop. */
  method TakeKeys(cfg: Config, sch: Scheme, s: string, mode: char) returns (text: string, code: KeyCode, rest: string)
    requires Usual(sch) && s != ""
    ensures text ==
      KeyText(KeyPiece(s[..Taken(cfg, sch, s)], Marked(s[Taken(cfg, sch, s)..]), FirstCode(cfg, sch, s, mode)))
    ensures code == FirstCode(cfg, sch, s, mode) && rest == SkipSeparators(s[Taken(cfg, sch, s)..])
    ensures |rest| < |s|
  {
    hide QuanPin, CodeOf, FirstRow;
    var jp := if |s| > 1 then s[..2] else s;
    var qp := SP2QP(cfg, sch, jp);
    QuanPinIsText(cfg, sch, jp);
    var map1 := MapPY(cfg, qp, mode);
    if |s| == 1 {
      return s, Mapped(map1), "";
    }
    var found := FindPYFAIndex(cfg, qp, false);
    var p := 1;
    if found != -1 {
      text, code, p := jp, Mapped(map1), 2;
    } else {
      qp := SP2QP(cfg, sch, s[..1]);
      QuanPinIsText(cfg, sch, s[..1]);
      map1 := MapPY(cfg, qp, mode);
      text, code := s[..1], if map1.Rejected? then Raw(s[..1]) else Mapped(map1);
    }
    rest := s[p..];
    if rest != "" && rest[0] == SEPARATOR {
      text := text + [SEPARATOR];
      while rest != "" && rest[0] == SEPARATOR
        invariant SkipSeparators(rest) == SkipSeparators(s[p..]) && |rest| < |s|
        decreases |rest|
      {
        rest := rest[1..];
      }
    }
  }

  /* ----- printing and parsing again ----- */

  function PrintKeys(ps: seq<KeyPiece>): string {
    if ps == [] then "" else KeyText(ps[0]) + PrintKeys(ps[1..])
  }

  /** The separator is no key of the scheme. */
  predicate SeparatorFree(sch: Scheme) {
    && sch.cNonS != SEPARATOR
    && (forall i :: 0 <= i < |sch.finals| ==> sch.finals[i].cJP != SEPARATOR)
    && (forall i :: 0 <= i < |sch.initials| ==> sch.initials[i].cJP != SEPARATOR)
  }

  lemma SyllableIsWord(cfg: Config, w: string)
    requires WordTable(cfg.table) && IsSyllable(cfg, w)
    ensures Word(w)
  {
  }

  /** A separator is never part of a pair. */
  lemma SeparatorEndsPiece(cfg: Config, sch: Scheme, s: string)
    requires WordTable(cfg.table) && Usual(sch) && SeparatorFree(sch)
    requires |s| >= 2 && (s[0] == SEPARATOR || s[1] == SEPARATOR)
    ensures !Pairs(cfg, sch, s)
  {
    hide IsSyllable, Lead, Xiaohe, QuanPin;
    var sp := s[..2];
    SyllableIsFound(cfg, sch, sp);
    assert (sp[0] == SEPARATOR || sp[1] == SEPARATOR) && !Letter(SEPARATOR);
    if IsSyllable(cfg, sp) { SyllableIsWord(cfg, sp); }
    forall check: bool, w | (check ==> Xiaohe(sch, sp)) && Reads(sch, sp, check, w)
      ensures !IsSyllable(cfg, w)
    {
      if IsSyllable(cfg, w) { SyllableIsWord(cfg, w); }
      SeparatorReading(sch, sp, check, w);
    }
  }

  lemma SeparatorReading(sch: Scheme, sp: string, check: bool, w: string)
    requires Usual(sch) && SeparatorFree(sch) && |sp| == 2 && (sp[0] == SEPARATOR || sp[1] == SEPARATOR)
    requires (check ==> Xiaohe(sch, sp)) && Reads(sch, sp, check, w)
    ensures !Word(w)
  {
    if sp[1] == SEPARATOR {
      hide Lead;
      assert w == Lead(sch, sp, check) + [sp[1]];
      assert w[|w| - 1] == SEPARATOR;
    } else {
      assert !check && Lead(sch, sp, check) == [SEPARATOR];
      assert w[0] == SEPARATOR;
    }
  }

  /** What follows a piece collapses to its mark and the collapsed rest. */
  lemma {:induction false} CollapseRest(s: string)
    ensures Collapse(s) == Mark(Marked(s)) + Collapse(SkipSeparators(s))
  {
    if Marked(s) {
      CollapseRest(s[1..]);
      if |s| > 1 && s[1] == SEPARATOR {
      } else {
        assert SkipSeparators(s) == s[1..];
      }
    } else {
      assert Mark(false) + Collapse(s) == Collapse(s);
    }
  }

  lemma {:induction false} CollapsePlain(a: string, s: string)
    requires forall i :: 0 <= i < |a| ==> a[i] != SEPARATOR
    ensures Collapse(a + s) == a + Collapse(s)
  {
    if a == "" {
      assert a + s == s;
    } else {
      assert (a + s)[1..] == a[1..] + s;
      CollapsePlain(a[1..], s);
      assert a == [a[0]] + a[1..];
    }
  }

  /** The keys of the first piece hold no separator. */
  lemma PieceIsPlain(cfg: Config, sch: Scheme, s: string)
    requires WordTable(cfg.table) && Usual(sch) && SeparatorFree(sch) && s != "" && s[0] != SEPARATOR
    ensures forall i :: 0 <= i < Taken(cfg, sch, s) ==> s[i] != SEPARATOR
  {
    hide IsSyllable, QuanPin;
    if |s| > 1 && s[1] == SEPARATOR { SeparatorEndsPiece(cfg, sch, s); }
  }

  lemma {:induction false} PrintedKeys(cfg: Config, sch: Scheme, s: string, mode: char)
    requires WordTable(cfg.table) && Usual(sch) && SeparatorFree(sch)
    requires s != "" ==> s[0] != SEPARATOR
    ensures PrintKeys(KeyPieces(cfg, sch, s, mode)) == Collapse(s)
    decreases |s|
  {
    hide Taken, FirstCode, SkipSeparators, Marked, Collapse;
    if s != "" {
      var n := Taken(cfg, sch, s);
      var a, rest := s[..n], s[n..];
      PieceIsPlain(cfg, sch, s);
      var after := SkipSeparators(rest);
      PrintedKeys(cfg, sch, after, mode);
      CollapseRest(rest);
      assert s == a + rest;
      CollapsePlain(a, rest);
      assert PrintKeys(KeyPieces(cfg, sch, s, mode)) == (a + Mark(Marked(rest))) + Collapse(after) by {
        PrintFirst(KeyPiece(a, Marked(rest), FirstCode(cfg, sch, s, mode)), KeyPieces(cfg, sch, after, mode));
      }
      Associative(a, Mark(Marked(rest)), Collapse(after));
    } else {
      NothingToCollapse();
    }
  }

  lemma NothingToCollapse()
    ensures Collapse("") == ""
  {
  }

  lemma {:induction false} PrintFirst(p: KeyPiece, ps: seq<KeyPiece>)
    ensures PrintKeys([p] + ps) == KeyText(p) + PrintKeys(ps)
  {
    assert ([p] + ps)[1..] == ps;
  }

  /** The first piece of the collapsed text is the first piece of the text. */
  lemma {:induction false} FirstOfCollapse(cfg: Config, sch: Scheme, s: string, mode: char)
    requires WordTable(cfg.table) && Usual(sch) && SeparatorFree(sch) && s != "" && s[0] != SEPARATOR
    ensures var c, n := Collapse(s), Taken(cfg, sch, s);
      && c != "" && c[0] != SEPARATOR
      && Taken(cfg, sch, c) == n && c[..n] == s[..n] && FirstCode(cfg, sch, c, mode) == FirstCode(cfg, sch, s, mode)
      && c[n..] == Collapse(s[n..])
  {
    hide QuanPin, IsSyllable, QuanPinCode;
    var n := Taken(cfg, sch, s);
    PieceIsPlain(cfg, sch, s);
    assert s == s[..n] + s[n..];
    CollapsePlain(s[..n], s[n..]);
    var c := Collapse(s);
    if |s| > 1 {
      assert s[1..] != "";
      CollapseHead(s[1..]);
      assert c == [s[0]] + Collapse(s[1..]);
      assert c[..2] == s[..2];
    }
    assert c[..1] == s[..1];
  }

  lemma {:induction false} KeysOfCollapse(cfg: Config, sch: Scheme, s: string, mode: char)
    requires WordTable(cfg.table) && Usual(sch) && SeparatorFree(sch)
    requires s != "" ==> s[0] != SEPARATOR
    ensures KeyPieces(cfg, sch, Collapse(s), mode) == KeyPieces(cfg, sch, s, mode)
    decreases |s|
  {
    hide Taken, FirstCode;
    if s != "" {
      FirstOfCollapse(cfg, sch, s, mode);
      var rest := s[Taken(cfg, sch, s)..];
      KeysOfCollapse(cfg, sch, SkipSeparators(rest), mode);
      SkipOfCollapse(rest);
    }
  }

  lemma {:induction false} SkipOfCollapse(s: string)
    ensures Marked(Collapse(s)) == Marked(s) && SkipSeparators(Collapse(s)) == Collapse(SkipSeparators(s))
  {
    CollapseRest(s);
    var rest := SkipSeparators(s);
    if rest != "" { CollapseHead(rest); }
    if Marked(s) {
      assert Collapse(s)[1..] == Collapse(rest);
    } else {
      assert Collapse(s) == Collapse(rest);
    }
  }

  /** The pieces of a text that begins with a separator: the separator stands for a key, and
      a run of them is shortened to two. */
  lemma {:induction false} LeadingSeparator(cfg: Config, sch: Scheme, s: string, mode: char)
    requires WordTable(cfg.table) && Usual(sch) && SeparatorFree(sch) && s != "" && s[0] == SEPARATOR
    ensures KeyPieces(cfg, sch, s, mode)
      == [KeyPiece([SEPARATOR], Marked(s[1..]), FirstCode(cfg, sch, s, mode))] +
        KeyPieces(cfg, sch, SkipSeparators(s[1..]), mode)
    ensures FirstCode(cfg, sch, s, mode)
      == if |s| > 1 && QuanPinCode(cfg, sch, [SEPARATOR], mode).Rejected? then Raw([SEPARATOR])
         else Mapped(QuanPinCode(cfg, sch, [SEPARATOR], mode))
  {
    hide QuanPin, IsSyllable, QuanPinCode;
    if |s| > 1 { SeparatorEndsPiece(cfg, sch, s); }
    assert s[..1] == [SEPARATOR];
    if |s| == 1 { assert s == [SEPARATOR]; }
  }

  lemma {:induction false} PrintedLeading(cfg: Config, sch: Scheme, s: string, mode: char)
    requires WordTable(cfg.table) && Usual(sch) && SeparatorFree(sch) && s != "" && s[0] == SEPARATOR
    ensures var u := SkipSeparators(s[1..]);
      && PrintKeys(KeyPieces(cfg, sch, s, mode)) == [SEPARATOR] + Mark(Marked(s[1..])) + Collapse(u)
      && Collapse(s) == [SEPARATOR] + Collapse(u)
  {
    hide QuanPin, IsSyllable, QuanPinCode, FirstCode, KeyPieces, Collapse;
    var u := SkipSeparators(s[1..]);
    LeadingSeparator(cfg, sch, s, mode);
    PrintFirst(KeyPiece([SEPARATOR], Marked(s[1..]), FirstCode(cfg, sch, s, mode)), KeyPieces(cfg, sch, u, mode));
    PrintedKeys(cfg, sch, u, mode);
    CollapseRest(s);
  }

  lemma {:induction false} KeysOfLeading(cfg: Config, sch: Scheme, s: string, mode: char)
    requires WordTable(cfg.table) && Usual(sch) && SeparatorFree(sch) && s != "" && s[0] == SEPARATOR
    ensures KeyPieces(cfg, sch, PrintKeys(KeyPieces(cfg, sch, s, mode)), mode) == KeyPieces(cfg, sch, s, mode)
  {
    hide QuanPin, IsSyllable, QuanPinCode, FirstCode, KeyPieces, PrintKeys;
    var u := SkipSeparators(s[1..]);
    var v := [SEPARATOR] + Mark(Marked(s[1..])) + Collapse(u);
    PrintedLeading(cfg, sch, s, mode);
    LeadingSeparator(cfg, sch, s, mode);
    LeadingSeparator(cfg, sch, v, mode);
    KeysOfCollapse(cfg, sch, u, mode);
    if u != "" { CollapseHead(u); }
    assert v[1..] == Mark(Marked(s[1..])) + Collapse(u);
    if Marked(s[1..]) {
      assert v[1..][1..] == Collapse(u);
    } else {
      assert v[1..] == Collapse(u);
    }
  }

  /** Parsing what was printed gives the same pieces, for every text; and what is printed is the
      text with separator runs collapsed if and only if it does not begin with two separators. */
  lemma {:induction false} PrintThenParseKeys(cfg: Config, sch: Scheme, s: string, mode: char)
    requires WordTable(cfg.table) && Usual(sch) && SeparatorFree(sch)
    ensures KeyPieces(cfg, sch, PrintKeys(KeyPieces(cfg, sch, s, mode)), mode) == KeyPieces(cfg, sch, s, mode)
    ensures PrintKeys(KeyPieces(cfg, sch, s, mode)) == Collapse(s)
       <==> !(|s| > 1 && s[0] == SEPARATOR && s[1] == SEPARATOR)
  {
    hide QuanPin, IsSyllable, QuanPinCode, FirstCode, KeyPieces, Collapse;
    if s == "" || s[0] != SEPARATOR {
      PrintedKeys(cfg, sch, s, mode);
      KeysOfCollapse(cfg, sch, s, mode);
    } else {
      PrintedLeading(cfg, sch, s, mode);
      KeysOfLeading(cfg, sch, s, mode);
      var u := SkipSeparators(s[1..]);
      assert !Marked(s[1..]) ==> [SEPARATOR] + Mark(false) + Collapse(u) == [SEPARATOR] + Collapse(u);
      assert Marked(s[1..]) ==> |[SEPARATOR] + Mark(true) + Collapse(u)| == 2 + |Collapse(u)|;
    }
  }
}
