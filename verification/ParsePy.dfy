/** The full-pinyin segmenter ParsePY and its printer (src/im/pinyin/pyParser.c:104-322). */
module ParsePy {
  import opened PyMapTable
  import opened Pyfa
  import opened PyParser

  const SEPARATOR: char := '\''

  /** How a piece was recognised: a row of the syllable table, a final or an initial on its
      own, or nothing but a separator at the end of the text. */
  datatype Kind = Syllable | BareFinal | BareInitial | Trailing

  /** One piece of the parse; `sep` tells whether it carries a separator in front. */
  datatype Piece = Piece(sep: bool, word: string, kind: Kind)

  datatype Cut = Cut(word: string, kind: Kind) | Skip

  ghost predicate Sound(cfg: Config) {
    WordTable(cfg.table) && Spelt(cfg)
  }

  predicate Typed(s: string) {
    forall i :: 0 <= i < |s| ==> Letter(s[i]) || s[i] == SEPARATOR
  }

  /* ----- cutting off one piece ----- */

  predicate Resplits(cfg: Config, s: string, row: nat, first: nat, second: nat)
    requires row < |cfg.table| && first < |cfg.table| && second < |cfg.table|
    requires |cfg.table[row].word| <= |s|
  {
    var w, w1, w2 := cfg.table[row].word, cfg.table[first].word, cfg.table[second].word;
    if |w2| == 1 || w2 == "ng" then false
    else
      var next := FirstRow(cfg, s[|w|..], true);
      if next == -1 then true
      else
        var v := cfg.table[next].word;
        if |w| + |v| != |w1| + |w2| then |w| + |v| < |w1| + |w2|
        else cfg.freq(w, v) <= cfg.freq(w1, w2)
  }

  /** The syllable taken when `row` is the longest match: its word, or the word without its
      last letter when both that and what follows are syllables and the split is preferred. */
  function SyllableAt(cfg: Config, s: string, row: nat): (word: string)
    requires WordTable(cfg.table) && row < |cfg.table| && cfg.table[row].word <= s
    ensures 0 < |word| <= |s|
  {
    var w := cfg.table[row].word;
    var last := w[|w| - 1];
    if last != 'g' && last != 'n' && last != 'e' && last != 'a' then w
    else
      var first := FirstRow(cfg, s[..|w| - 1], false);
      if first == -1 then w
      else
        var second := FirstRow(cfg, s[|cfg.table[first].word|..], true);
        if second == -1 || !Resplits(cfg, s, row, first, second) then w else s[..|w| - 1]
  }

  /** What a split is taken for: both parts are syllables, the second has two letters or more,
      and together they cover at least as much as the unsplit syllable and the one after it. */
  ghost predicate CoversMore(cfg: Config, s: string, w: string, w1: string)
    requires WordTable(cfg.table) && w <= s
  {
    && |w| > 1 && w1 == w[..|w| - 1] && FirstRow(cfg, w1, false) != -1
    && (var second, next := FirstRow(cfg, s[|w1|..], true), FirstRow(cfg, s[|w|..], true);
        && second != -1 && |cfg.table[second].word| >= 2
        && |w1| + |cfg.table[second].word| >= |w| + if next == -1 then 0 else |cfg.table[next].word|)
  }

  lemma SplitCoversMore(cfg: Config, s: string, row: nat)
    requires WordTable(cfg.table) && row < |cfg.table| && cfg.table[row].word <= s
    ensures var w := cfg.table[row].word;
      SyllableAt(cfg, s, row) == w || CoversMore(cfg, s, w, SyllableAt(cfg, s, row))
  {
    var w := cfg.table[row].word;
    if SyllableAt(cfg, s, row) != w {
      var first := FirstRow(cfg, s[..|w| - 1], false);
      assert cfg.table[first].word == w[..|w| - 1];
    }
  }

  ghost function NextCut(cfg: Config, s: string): (c: Cut)
    requires Sound(cfg) && s != ""
    ensures c.Cut? ==> 0 < |c.word| <= |s|
  {
    var row := FirstRow(cfg, s, true);
    if row != -1 then Cut(SyllableAt(cfg, s, row), Syllable)
    else if Final(cfg, s, true) != -1 then Cut(cfg.finals[Final(cfg, s, true)].spelling, BareFinal)
    else if Initial(cfg, s, true) != -1 then Cut(cfg.initials[Initial(cfg, s, true)].spelling, BareInitial)
    else Skip
  }

  lemma CutIsWord(cfg: Config, s: string)
    requires Sound(cfg) && s != "" && NextCut(cfg, s).Cut?
    ensures Word(NextCut(cfg, s).word) && NextCut(cfg, s).word <= s
  {
    var row := FirstRow(cfg, s, true);
    if row != -1 {
      var w := cfg.table[row].word;
      assert s[..|w| - 1] == w[..|w| - 1];
    }
  }

  lemma RowFound(cfg: Config, row: nat, w: string)
    requires row < |cfg.table| && Usable(cfg, row) && cfg.table[row].word == w
    ensures FirstRow(cfg, w, false) != -1
  {
    NoneBefore(cfg, w, false, 0);
  }

  /** A piece cut off as a syllable is an enabled syllable, a bare final or initial a row of
      its table. */
  lemma CutIsKnown(cfg: Config, s: string)
    requires Sound(cfg) && s != "" && NextCut(cfg, s).Cut?
    ensures var c := NextCut(cfg, s); Known(cfg, c.word, c.kind)
  {
    var row := FirstRow(cfg, s, true);
    if row != -1 {
      RowFound(cfg, row, cfg.table[row].word);
      SplitCoversMore(cfg, s, row);
      CutIsWord(cfg, s);
    }
  }

  ghost predicate Known(cfg: Config, word: string, kind: Kind) {
    match kind
    case Syllable => word != "" && FirstRow(cfg, word, false) != -1
    case BareFinal => word != "" && HasRow(cfg.finals, word)
    case BareInitial => word != "" && HasRow(cfg.initials, word)
    case Trailing => word == ""
  }

  /** Row k is the first whose spelling the text begins with. */
  predicate FirstPrefix(t: seq<MapEntry>, s: string, k: nat) {
    k < |t| && t[k].spelling <= s && forall i :: 0 <= i < k ==> !(t[i].spelling <= s)
  }

  predicate NonePrefix(t: seq<MapEntry>, s: string) {
    forall i :: 0 <= i < |t| ==> !(t[i].spelling <= s)
  }

  /** Without a syllable in front of the text the first final it begins with is taken, and only
      without a final the first initial. */
  lemma BareCut(cfg: Config, s: string, k: nat)
    requires Sound(cfg) && s != ""
    requires forall i :: 0 <= i < |cfg.table| && Usable(cfg, i) ==> !(cfg.table[i].word <= s)
    ensures FirstPrefix(cfg.finals, s, k) ==> NextCut(cfg, s) == Cut(cfg.finals[k].spelling, BareFinal)
    ensures FirstPrefix(cfg.initials, s, k) && NonePrefix(cfg.finals, s) ==>
      NextCut(cfg, s) == Cut(cfg.initials[k].spelling, BareInitial)
  {
    hide Spelt, FirstFrom, EntryFrom;
    assert FirstRow(cfg, s, true) == -1;
    if FirstPrefix(cfg.finals, s, k) { EntryFound(cfg.finals, s, true, 0, k); }
    if FirstPrefix(cfg.initials, s, k) { EntryFound(cfg.initials, s, true, 0, k); }
  }

  /** The last branch of the parser is only for separators: a letter always starts a piece. */
  lemma LettersAreCut(cfg: Config, s: string)
    requires Sound(cfg) && s != "" && (Letter(s[0]) || s[0] == SEPARATOR)
    ensures NextCut(cfg, s).Cut? <==> Letter(s[0])
  {
    if Letter(s[0]) {
      if HasRow(cfg.initials, [s[0]]) {
        var k :| 0 <= k < |cfg.initials| && cfg.initials[k].spelling == [s[0]];
        EntryFound(cfg.initials, s, true, 0, k);
      } else {
        var k :| 0 <= k < |cfg.finals| && cfg.finals[k].spelling == [s[0]];
        EntryFound(cfg.finals, s, true, 0, k);
      }
    }
  }

  /* ----- cuts over the tables of the engine ----- */

  lemma NoFinalHere(s: string)
    requires s != "" && s[0] !in ['a', 'e', 'i', 'o', 'u', 'v']
    ensures EntryFrom(FINALS, s, true, 0) == -1
  {
    var f := EntryFrom(FINALS, s, true, 0);
    hide EntryFrom;
    if f != -1 { FinalsBeginWithVowels(f); }
  }

  lemma InitialB(s: string)
    requires s != "" && s[0] == 'b'
    ensures var i := EntryFrom(INITIALS, s, true, 0); i != -1 && INITIALS[i].spelling == "b"
  {
    var i := EntryFrom(INITIALS, s, true, 0);
    hide EntryFrom;
    EntryFound(INITIALS, s, true, 0, 29);
    StandardInitialWords();
    OnlyInitialB(i);
  }

  /** Where no syllable begins, a b is the initial b. */
  lemma InitialBCut(cfg: Config, s: string)
    requires Sound(cfg) && cfg.initials == INITIALS && cfg.finals == FINALS
    requires s != "" && s[0] == 'b' && FirstRow(cfg, s, true) == -1
    ensures NextCut(cfg, s) == Cut("b", BareInitial)
  {
    hide EntryFrom, Sound, FirstRow;
    NoFinalHere(s);
    InitialB(s);
  }

  /** The row of the letter alone comes before those of the finals that begin with it. */
  lemma FinalAlone(s: string)
    requires s != "" && (s[0] == 'i' || s[0] == 'u')
    ensures EntryFrom(FINALS, s, true, 0) == RowOfVowel(s[0])
  {
    hide EntryFrom;
    EntryFound(FINALS, s, true, 0, RowOfVowel(s[0]));
    FinalsBeginWithVowels(EntryFrom(FINALS, s, true, 0));
  }

  /** Where no syllable begins, an i or a u is a final. */
  lemma BareFinalCut(cfg: Config, s: string)
    requires Sound(cfg) && cfg.finals == FINALS
    requires s != "" && (s[0] == 'i' || s[0] == 'u') && FirstRow(cfg, s, true) == -1
    ensures NextCut(cfg, s) == Cut([s[0]], BareFinal)
  {
    hide EntryFrom, Sound, FirstRow;
    FinalAlone(s);
  }

  /* ----- the whole parse ----- */

  ghost function Pieces(cfg: Config, s: string, sep: bool): seq<Piece>
    requires Sound(cfg)
    decreases |s|
  {
    if s == "" then (if sep then [Piece(true, "", Trailing)] else [])
    else match NextCut(cfg, s)
      case Skip => Pieces(cfg, s[1..], true)
      case Cut(w, k) => [Piece(sep, w, k)] + Pieces(cfg, s[|w|..], false)
  }

  ghost function Parse(cfg: Config, s: string): seq<Piece>
    requires Sound(cfg)
  {
    Pieces(cfg, s, false)
  }

  function Mark(sep: bool): string {
    if sep then [SEPARATOR] else ""
  }

  function Text(p: Piece): string {
    Mark(p.sep) + p.word
  }

  function PieceCode(cfg: Config, p: Piece, mode: char): MapResult {
    if p.word == "" then Code('0', '0') else CodeOf(cfg, p.word, mode)
  }

  function Texts(ps: seq<Piece>): (r: seq<string>)
    ensures |r| == |ps|
  {
    if ps == [] then [] else Texts(ps[..|ps| - 1]) + [Text(ps[|ps| - 1])]
  }

  function Codes(cfg: Config, ps: seq<Piece>, mode: char): (r: seq<MapResult>)
    ensures |r| == |ps|
  {
    if ps == [] then [] else Codes(cfg, ps[..|ps| - 1], mode) + [PieceCode(cfg, ps[|ps| - 1], mode)]
  }

  const PARSE_ERROR := 0
  const PARSE_SINGLEHZ := 1
  const PARSE_PHRASE := 2
  const PARSE_ABBR := 4

  predicate Faulty(cfg: Config, p: Piece) {
    p.kind == BareFinal || (cfg.fullPY && p.kind == BareInitial)
  }

  predicate AnyFaulty(cfg: Config, ps: seq<Piece>) {
    exists i :: 0 <= i < |ps| && Faulty(cfg, ps[i])
  }

  predicate AnyInitial(ps: seq<Piece>) {
    exists i :: 0 <= i < |ps| && ps[i].kind == BareInitial
  }

  /** The mode: an error as soon as a final stands alone (with full pinyin demanded, an
      initial too), else one piece or several, and whether any piece is a bare initial. */
  function ModeOf(cfg: Config, ps: seq<Piece>): nat {
    if AnyFaulty(cfg, ps) then PARSE_ERROR
    else (if AnyInitial(ps) then PARSE_ABBR else 0) + (if |ps| > 1 then PARSE_PHRASE else PARSE_SINGLEHZ)
  }

  /** The mode names an error where a final stands alone, or an initial and full pinyin is demanded;
      else its bit 4 tells of an initial alone, and its rest is 1 for one piece and 2 for more. */
  lemma ModeMeans(cfg: Config, ps: seq<Piece>)
    ensures var mode := ModeOf(cfg, ps);
      var final := exists i :: 0 <= i < |ps| && ps[i].kind == BareFinal;
      var initial := exists i :: 0 <= i < |ps| && ps[i].kind == BareInitial;
      if final || (cfg.fullPY && initial) then mode == 0
      else mode == (if initial then 4 else 0) + if |ps| > 1 then 2 else 1
  {
    if i :| 0 <= i < |ps| && (ps[i].kind == BareFinal || (cfg.fullPY && ps[i].kind == BareInitial)) {
      assert Faulty(cfg, ps[i]);
    }
  }

  lemma {:induction false} OnePieceMore(cfg: Config, ps: seq<Piece>, p: Piece, mode: char)
    ensures Texts(ps + [p]) == Texts(ps) + [Text(p)]
    ensures Codes(cfg, ps + [p], mode) == Codes(cfg, ps, mode) + [PieceCode(cfg, p, mode)]
    ensures AnyFaulty(cfg, ps + [p]) <==> AnyFaulty(cfg, ps) || Faulty(cfg, p)
    ensures AnyInitial(ps + [p]) <==> AnyInitial(ps) || p.kind == BareInitial
  {
    hide PieceCode, Text, Faulty;
    var all := ps + [p];
    assert all[..|all| - 1] == ps && all[|ps|] == p;
    assert forall i :: 0 <= i < |ps| ==> all[i] == ps[i];
  }

  /** ParsePY for full pinyin.  `texts` and `codes` are the written part of the fields
      strPYParsed and strMap. */
  method ParsePY(cfg: Config, s: string, mode: char) returns (texts: seq<string>, codes: seq<MapResult>, iMode: nat)
    requires Sound(cfg) && s != "" && Typed(s)
    ensures texts == Texts(Parse(cfg, s))
    ensures codes == Codes(cfg, Parse(cfg, s), mode)
    ensures iMode == ModeOf(cfg, Parse(cfg, s))
  {
    ghost var whole := Parse(cfg, s);
    var error, abbr;
    texts, codes, error, abbr := CutAll(cfg, s, mode, whole);
    iMode := if error then PARSE_ERROR
      else (if abbr then PARSE_ABBR else 0) + (if |texts| > 1 then PARSE_PHRASE else PARSE_SINGLEHZ);
  }

  /** What the loop of ParsePY has written when it stands at position p: everything up to
      the pieces `done`, with the rest of the parse still in the text behind p. */
  ghost predicate Progress(cfg: Config, s: string, mode: char, whole: seq<Piece>, done: seq<Piece>, p: nat, sep: bool,
                           texts: seq<string>, codes: seq<MapResult>, error: bool, abbr: bool)
    requires Sound(cfg)
  {
    && p <= |s| && (p > 0 ==> sep == (s[p - 1] == SEPARATOR))
    && whole == done + Pieces(cfg, s[p..], sep)
    && texts == Texts(done) && codes == Codes(cfg, done, mode)
    && error == AnyFaulty(cfg, done)
    && (!error ==> abbr == AnyInitial(done))
  }

  lemma ProgressByPiece(cfg: Config, s: string, mode: char, whole: seq<Piece>, done: seq<Piece>, p: nat, sep: bool,
                        texts: seq<string>, codes: seq<MapResult>, error: bool, abbr: bool, cut: Cut)
    requires Sound(cfg) && Typed(s) && p < |s| && cut == NextCut(cfg, s[p..]) && cut.Cut?
    requires Progress(cfg, s, mode, whole, done, p, sep, texts, codes, error, abbr)
    ensures var piece := Piece(sep, cut.word, cut.kind);
      Progress(cfg, s, mode, whole, done + [piece], p + |cut.word|, false,
               texts + [Mark(sep) + cut.word], codes + [CodeOf(cfg, cut.word, mode)],
               error || Faulty(cfg, piece), abbr || cut.kind == BareInitial)
  {
    hide NextCut, CodeOf;
    var piece := Piece(sep, cut.word, cut.kind);
    UnfoldPieces(cfg, s, p, sep, cut);
    OnePieceMore(cfg, done, piece, mode);
    Associative(done, [piece], Pieces(cfg, s[p + |cut.word|..], false));
  }

  lemma {:induction false} ProgressAtEnd(cfg: Config, s: string, mode: char, whole: seq<Piece>, done: seq<Piece>,
      sep: bool, texts: seq<string>, codes: seq<MapResult>, error: bool, abbr: bool)
    requires Sound(cfg) && s != ""
    requires Progress(cfg, s, mode, whole, done, |s|, sep, texts, codes, error, abbr)
    ensures s[|s| - 1] == SEPARATOR ==>
      texts + [[SEPARATOR]] == Texts(whole) && codes + [Code('0', '0')] == Codes(cfg, whole, mode)
    ensures s[|s| - 1] != SEPARATOR ==> texts == Texts(whole) && codes == Codes(cfg, whole, mode)
    ensures error == AnyFaulty(cfg, whole)
    ensures !error ==> abbr == AnyInitial(whole)
  {
    hide NextCut, CodeOf;
    assert s[|s|..] == "";
    var last := Piece(true, "", Trailing);
    OnePieceMore(cfg, done, last, mode);
    if sep {
      assert whole == done + [last] && Text(last) == [SEPARATOR];
    } else {
      assert whole == done;
    }
  }

  /** The loop of ParsePY; `sep` is bSeperator, a separator waiting for its piece. */
  method CutAll(cfg: Config, s: string, mode: char, ghost whole: seq<Piece>)
      returns (texts: seq<string>, codes: seq<MapResult>, error: bool, abbr: bool)
    requires Sound(cfg) && s != "" && Typed(s) && whole == Pieces(cfg, s, false)
    ensures texts == Texts(whole) && codes == Codes(cfg, whole, mode)
    ensures error == AnyFaulty(cfg, whole)
    ensures !error ==> abbr == AnyInitial(whole)
  {
    hide NextCut, CodeOf, Spelled, Spelt, Retyped;
    texts, codes, error, abbr := [], [], false, false;
    var p := 0;
    var sep := false;
    ghost var done: seq<Piece> := [];
    assert s[0..] == s;
    while p < |s|
      invariant Progress(cfg, s, mode, whole, done, p, sep, texts, codes, error, abbr)
    {
      var cut := TakePiece(cfg, s[p..]);
      if cut.Cut? {
        ProgressByPiece(cfg, s, mode, whole, done, p, sep, texts, codes, error, abbr, cut);
        var piece := Piece(sep, cut.word, cut.kind);
        done := done + [piece];
        error, abbr := error || Faulty(cfg, piece), abbr || cut.kind == BareInitial;
        var code := MapPY(cfg, cut.word, mode);
        texts, codes := texts + [Mark(sep) + cut.word], codes + [code];
        p, sep := p + |cut.word|, false;
      } else {
        UnfoldPieces(cfg, s, p, sep, cut);
        p, sep := p + 1, true;
      }
    }
    ProgressAtEnd(cfg, s, mode, whole, done, sep, texts, codes, error, abbr);
    if s[|s| - 1] == SEPARATOR {
      texts, codes := texts + [[SEPARATOR]], codes + [Code('0', '0')];
    }
  }

  /** One round of the parser's loop: the pieces left at position p are the piece cut off
      there and those left behind it. */
  lemma {:induction false} UnfoldPieces(cfg: Config, s: string, p: nat, sep: bool, cut: Cut)
    requires Sound(cfg) && Typed(s) && p < |s| && cut == NextCut(cfg, s[p..])
    ensures cut.Skip? ==> s[p] == SEPARATOR && Pieces(cfg, s[p..], sep) == Pieces(cfg, s[p + 1..], true)
    ensures cut.Cut? ==> (p + |cut.word| <= |s| && |cut.word| > 0 && s[p + |cut.word| - 1] != SEPARATOR
                          && Pieces(cfg, s[p..], sep) ==
                            [Piece(sep, cut.word, cut.kind)] + Pieces(cfg, s[p + |cut.word|..], false))
  {
    hide NextCut;
    LettersAreCut(cfg, s[p..]);
    if cut.Skip? {
      assert s[p..][1..] == s[p + 1..];
    } else {
      CutIsWord(cfg, s[p..]);
      assert s[p..][|cut.word|..] == s[p + |cut.word|..];
      assert s[p..][|cut.word| - 1] == cut.word[|cut.word| - 1];
    }
  }

  /** The piece at the front of the text: the longest syllable, resplit if need be, else a
      final, else an initial, else a separator. */
  method TakePiece(cfg: Config, s: string) returns (cut: Cut)
    requires Sound(cfg) && s != ""
    ensures cut == NextCut(cfg, s)
  {
    var row := FindPYFAIndex(cfg, s, true);
    if row != -1 {
      var word := TakeSyllable(cfg, s, row);
      return Cut(word, Syllable);
    }
    var f := IsConsonant(cfg, s, true);
    if f != -1 { return Cut(cfg.finals[f].spelling, BareFinal); }
    var i := IsSyllabary(cfg, s, true);
    if i != -1 { return Cut(cfg.initials[i].spelling, BareInitial); }
    return Skip;
  }

  /** The resplit of one matched row (src/im/pinyin/pyParser.c:170-231). */
  method TakeSyllable(cfg: Config, s: string, row: nat) returns (word: string)
    requires WordTable(cfg.table) && row < |cfg.table| && cfg.table[row].word <= s
    ensures word == SyllableAt(cfg, s, row)
    ensures word == cfg.table[row].word || CoversMore(cfg, s, cfg.table[row].word, word)
  {
    SplitCoversMore(cfg, s, row);
    hide CoversMore, FirstFrom;
    var w := cfg.table[row].word;
    var last := w[|w| - 1];
    var temp := -1;
    if last == 'g' || last == 'n' || last == 'e' || last == 'a' {
      temp := FindPYFAIndex(cfg, s[..|w| - 1], false);
      if temp != -1 {
        var first := temp;
        temp := FindPYFAIndex(cfg, s[|cfg.table[first].word|..], true);
        if temp != -1 && (|cfg.table[temp].word| == 1 || cfg.table[temp].word == "ng") {
          temp := -1;
        }
        if temp != -1 {
          var next := FindPYFAIndex(cfg, s[|w|..], true);
          var resplit;
          if next == -1 {
            resplit := true;
          } else {
            var length1 := |w| + |cfg.table[next].word|;
            var length2 := |cfg.table[first].word| + |cfg.table[temp].word|;
            if length1 != length2 {
              resplit := length1 < length2;
            } else {
              resplit := cfg.freq(w, cfg.table[next].word) <= cfg.freq(cfg.table[first].word, cfg.table[temp].word);
            }
          }
          if resplit { return s[..|w| - 1]; }
          temp := -1;
        }
      }
    }
    word := w;
  }

  /* ----- every piece has a code ----- */

  lemma {:induction false} PiecesAreKnown(cfg: Config, s: string, sep: bool)
    requires Sound(cfg) && Typed(s)
    ensures forall i :: 0 <= i < |Pieces(cfg, s, sep)| ==>
      Known(cfg, Pieces(cfg, s, sep)[i].word, Pieces(cfg, s, sep)[i].kind)
    decreases |s|
  {
    hide NextCut, Known;
    if s == "" {
      TrailingIsKnown(cfg);
    } else {
      match NextCut(cfg, s)
      case Skip =>
        PiecesAreKnown(cfg, s[1..], true);
      case Cut(w, k) =>
        CutIsKnown(cfg, s);
        PiecesAreKnown(cfg, s[|w|..], false);
    }
  }

  lemma TrailingIsKnown(cfg: Config)
    ensures Known(cfg, "", Trailing)
  {
  }

  predicate EndsOpen(s: string, sep: bool) {
    if s == "" then sep else s[|s| - 1] == SEPARATOR
  }

  lemma {:induction false} SomePieces(cfg: Config, s: string, sep: bool)
    requires Sound(cfg)
    ensures Pieces(cfg, s, sep) == [] <==> s == "" && !sep
    decreases |s|
  {
    hide NextCut;
    if s != "" && NextCut(cfg, s).Skip? { SomePieces(cfg, s[1..], true); }
  }

  /** Only the last piece can be a separator alone, and it is one when the text ends in one. */
  lemma {:induction false} TrailingPieces(cfg: Config, s: string, sep: bool, i: nat)
    requires Sound(cfg) && Typed(s) && i < |Pieces(cfg, s, sep)|
    ensures Pieces(cfg, s, sep)[i].kind == Trailing <==> i == |Pieces(cfg, s, sep)| - 1 && EndsOpen(s, sep)
    decreases |s|
  {
    hide NextCut;
    if s != "" {
      var cut := NextCut(cfg, s);
      assert s[0..] == s;
      UnfoldPieces(cfg, s, 0, sep, cut);
      if cut.Skip? {
        TrailingPieces(cfg, s[1..], true, i);
      } else {
        CutIsKnown(cfg, s);
        var rest := s[|cut.word|..];
        SomePieces(cfg, rest, false);
        if i > 0 { TrailingPieces(cfg, rest, false, i - 1); }
      }
    }
  }

  lemma TrailingIsLast(cfg: Config, s: string, i: nat)
    requires Sound(cfg) && Typed(s) && i < |Parse(cfg, s)|
    ensures Parse(cfg, s)[i].kind == Trailing <==> i == |Parse(cfg, s)| - 1 && s != "" && s[|s| - 1] == SEPARATOR
  {
    TrailingPieces(cfg, s, false, i);
  }

  /** No initial or final is a gn misspelling, and every syllable that can be found has a code. */
  ghost predicate CodedTable(cfg: Config) {
    && NoneMistyped(cfg.initials) && NoneMistyped(cfg.finals)
    && forall i :: 0 <= i < |cfg.table| && Usable(cfg, i) ==> Spelled(cfg, Retyped(cfg, cfg.table[i].word))
  }

  lemma KnownIsCoded(cfg: Config, p: Piece, mode: char)
    requires Sound(cfg) && CodedTable(cfg) && Known(cfg, p.word, p.kind)
    ensures PieceCode(cfg, p, mode).Code?
  {
    hide CodeOf, FirstFrom;
    if p.word != "" {
      CodedSpellings(cfg, p.word, mode);
      if p.kind == Syllable {
        var row := FirstRow(cfg, p.word, false);
        assert Usable(cfg, row) && cfg.table[row].word == p.word;
      }
    }
  }

  predicate AllCoded(codes: seq<MapResult>) {
    forall i :: 0 <= i < |codes| ==> codes[i].Code?
  }

  lemma {:induction false} CodesAt(cfg: Config, ps: seq<Piece>, mode: char, i: nat)
    requires i < |ps|
    ensures Codes(cfg, ps, mode)[i] == PieceCode(cfg, ps[i], mode)
  {
    hide PieceCode;
    if i < |ps| - 1 { CodesAt(cfg, ps[..|ps| - 1], mode, i); }
  }

  /** Over a table whose syllables have codes every piece of every parse has one. */
  lemma {:induction false} ParseIsCoded(cfg: Config, s: string, mode: char)
    requires Sound(cfg) && Typed(s) && CodedTable(cfg)
    ensures AllCoded(Codes(cfg, Parse(cfg, s), mode))
  {
    hide PieceCode, Known, Pieces;
    var ps := Parse(cfg, s);
    PiecesAreKnown(cfg, s, false);
    forall i | 0 <= i < |ps|
      ensures Codes(cfg, ps, mode)[i].Code?
    {
      KnownIsCoded(cfg, ps[i], mode);
      CodesAt(cfg, ps, mode, i);
    }
  }

  /** The same, with a letter for the initial of every syllable. */
  ghost predicate HeadedTable(cfg: Config) {
    && NoneMistyped(cfg.initials) && NoneMistyped(cfg.finals)
    && forall i :: 0 <= i < |cfg.table| && Usable(cfg, i) ==> Headed(cfg, Retyped(cfg, cfg.table[i].word))
  }

  lemma HeadedIsCoded(cfg: Config)
    requires Spelt(cfg) && HeadedTable(cfg)
    ensures CodedTable(cfg)
  {
  }

  /** In a parse without an error over such a table the wildcard stands for an initial only
      where a separator ends the text. */
  lemma {:induction false} WildcardIsTrailing(cfg: Config, s: string, i: nat)
    requires Sound(cfg) && Typed(s) && HeadedTable(cfg) && i < |Parse(cfg, s)|
    requires ModeOf(cfg, Parse(cfg, s)) != PARSE_ERROR
    ensures var c := Codes(cfg, Parse(cfg, s), USER)[i];
      c.Code? && (c.first == USER <==> Parse(cfg, s)[i].kind == Trailing)
  {
    hide Known, Pieces, Headed, CodeOf;
    var ps := Parse(cfg, s);
    HeadedIsCoded(cfg);
    ParseIsCoded(cfg, s, USER);
    PiecesAreKnown(cfg, s, false);
    CodesAt(cfg, ps, USER, i);
    assert !Faulty(cfg, ps[i]);
    HeadOfPiece(cfg, ps[i]);
  }

  lemma HeadOfPiece(cfg: Config, p: Piece)
    requires Sound(cfg) && HeadedTable(cfg) && Known(cfg, p.word, p.kind) && p.kind != BareFinal
    requires PieceCode(cfg, p, USER).Code?
    ensures PieceCode(cfg, p, USER).first == USER <==> p.kind == Trailing
  {
    hide CodeOf, FirstFrom;
    if p.word != "" {
      WildcardInitials(cfg, p.word);
      if p.kind == Syllable {
        var row := FirstRow(cfg, p.word, false);
        assert Usable(cfg, row) && cfg.table[row].word == p.word;
      }
    }
  }

  /* ----- printing and parsing again ----- */

  /** The printer: the pieces one after the other. */
  function Print(ps: seq<Piece>): string {
    if ps == [] then "" else Text(ps[0]) + Print(ps[1..])
  }

  /** Every run of separators collapsed to one. */
  function Collapse(s: string): string {
    if s == "" then ""
    else if s[0] == SEPARATOR && |s| > 1 && s[1] == SEPARATOR then Collapse(s[1..])
    else [s[0]] + Collapse(s[1..])
  }

  lemma {:induction false} CollapseWord(w: string, s: string)
    requires Letters(w)
    ensures Collapse(w + s) == w + Collapse(s)
  {
    if w == "" {
      assert w + s == s;
    } else {
      assert (w + s)[1..] == w[1..] + s;
      CollapseWord(w[1..], s);
      assert w == [w[0]] + w[1..];
    }
  }

  lemma {:induction false} CollapseMark(sep: bool, s: string)
    requires s != "" ==> Letter(s[0])
    ensures Collapse(Mark(sep) + s) == Mark(sep) + Collapse(s)
  {
    assert sep ==> (Mark(sep) + s)[1..] == s;
    assert !sep ==> Mark(sep) + s == s;
  }

  lemma {:induction false} CollapseSeparator(sep: bool, s: string)
    requires s != "" && s[0] == SEPARATOR
    ensures Collapse(Mark(sep) + s) == Collapse(Mark(true) + s[1..])
  {
    assert s == Mark(true) + s[1..];
    if sep {
      assert (Mark(sep) + s)[1..] == s;
    } else {
      assert Mark(sep) + s == s;
    }
  }

  /** A word begins a text exactly when it begins the collapsed text. */
  lemma {:induction false} PrefixOfCollapse(w: string, s: string)
    requires Letters(w)
    ensures w <= s <==> w <= Collapse(s)
  {
    if w != "" && s != "" {
      CollapseHead(s);
      if Letter(s[0]) {
        PrefixOfCollapse(w[1..], s[1..]);
        assert w <= s <==> w[0] == s[0] && w[1..] <= s[1..];
        assert w <= Collapse(s) <==> w[0] == s[0] && w[1..] <= Collapse(s)[1..];
      }
    }
  }

  lemma {:induction false} CollapseHead(s: string)
    requires s != ""
    ensures Collapse(s) != "" && Collapse(s)[0] == s[0]
  {
    if s[0] == SEPARATOR && |s| > 1 && s[1] == SEPARATOR {
      CollapseHead(s[1..]);
    }
  }

  lemma {:induction false} FirstRowOfCollapse(cfg: Config, s: string, i: nat)
    requires WordTable(cfg.table) && i <= |cfg.table|
    ensures FirstFrom(cfg, Collapse(s), true, i) == FirstFrom(cfg, s, true, i)
    decreases |cfg.table| - i
  {
    if i < |cfg.table| {
      PrefixOfCollapse(cfg.table[i].word, s);
      FirstRowOfCollapse(cfg, s, i + 1);
    }
  }

  lemma {:induction false} EntryOfCollapse(t: seq<MapEntry>, s: string, i: nat)
    requires i <= |t| && AllWords(t)
    ensures EntryFrom(t, Collapse(s), true, i) == EntryFrom(t, s, true, i)
    decreases |t| - i
  {
    if i < |t| {
      PrefixOfCollapse(t[i].spelling, s);
      EntryOfCollapse(t, s, i + 1);
    }
  }

  /** Lookahead behind a word sees the same syllables in the collapsed text. */
  lemma {:induction false} LookaheadOfCollapse(cfg: Config, s: string, n: nat)
    requires WordTable(cfg.table) && n <= |s| && Letters(s[..n])
    ensures n <= |Collapse(s)| && Collapse(s)[..n] == s[..n] && Collapse(s)[n..] == Collapse(s[n..])
    ensures FirstRow(cfg, Collapse(s)[n..], true) == FirstRow(cfg, s[n..], true)
  {
    assert s == s[..n] + s[n..];
    CollapseWord(s[..n], s[n..]);
    FirstRowOfCollapse(cfg, s[n..], 0);
  }

  /** What the resplit looks at is the same in the collapsed text. */
  lemma {:induction false} SyllableOfCollapse(cfg: Config, s: string, row: nat)
    requires WordTable(cfg.table) && row < |cfg.table| && cfg.table[row].word <= s
    ensures cfg.table[row].word <= Collapse(s) && SyllableAt(cfg, Collapse(s), row) == SyllableAt(cfg, s, row)
  {
    var w := cfg.table[row].word;
    var n := |w| - 1;
    PrefixOfCollapse(w, s);
    assert s[..n] == w[..n] && s[..|w|] == w;
    LookaheadOfCollapse(cfg, s, |w|);
    LookaheadOfCollapse(cfg, s, n);
    SameLookahead(cfg, s, Collapse(s), row);
  }

  lemma SameLookahead(cfg: Config, s: string, t: string, row: nat)
    requires WordTable(cfg.table) && row < |cfg.table| && cfg.table[row].word <= s && cfg.table[row].word <= t
    requires var w := cfg.table[row].word;
      FirstRow(cfg, s[|w|..], true) == FirstRow(cfg, t[|w|..], true)
      && FirstRow(cfg, s[|w| - 1..], true) == FirstRow(cfg, t[|w| - 1..], true)
    ensures SyllableAt(cfg, s, row) == SyllableAt(cfg, t, row)
  {
    hide FirstFrom;
    var n := |cfg.table[row].word| - 1;
    assert s[..n] == t[..n];
    var first := FirstRow(cfg, s[..n], false);
    assert first != -1 ==> |cfg.table[first].word| == n;
  }

  lemma {:induction false} CutOfCollapse(cfg: Config, s: string)
    requires Sound(cfg) && s != ""
    ensures Collapse(s) != "" && NextCut(cfg, Collapse(s)) == NextCut(cfg, s)
  {
    CollapseHead(s);
    FirstRowOfCollapse(cfg, s, 0);
    EntryOfCollapse(cfg.finals, s, 0);
    EntryOfCollapse(cfg.initials, s, 0);
    if FirstRow(cfg, s, true) != -1 {
      SyllableOfCollapse(cfg, s, FirstRow(cfg, s, true));
    }
  }

  /** Printing the parse gives the typed text with every separator run collapsed. */
  lemma {:induction false} PrintedParse(cfg: Config, s: string, sep: bool)
    requires Sound(cfg) && Typed(s)
    ensures Print(Pieces(cfg, s, sep)) == Collapse(Mark(sep) + s)
    decreases |s|
  {
    hide NextCut;
    if s == "" {
      assert Mark(sep) + s == Mark(sep);
    } else {
      LettersAreCut(cfg, s);
      match NextCut(cfg, s)
      case Skip =>
        PrintedParse(cfg, s[1..], true);
        CollapseSeparator(sep, s);
      case Cut(w, k) =>
        CutIsWord(cfg, s);
        PrintedParse(cfg, s[|w|..], false);
        var ps := Pieces(cfg, s, sep);
        assert ps[0] == Piece(sep, w, k) && ps[1..] == Pieces(cfg, s[|w|..], false);
        assert Mark(false) + s[|w|..] == s[|w|..] && s == w + s[|w|..];
        PrintedCut(ps, sep, w, s[|w|..]);
    }
  }

  /** One step of PrintedParse: a word cut off in front of an already printed rest. */
  lemma {:induction false} PrintedCut(ps: seq<Piece>, sep: bool, w: string, rest: string)
    requires ps != [] && Text(ps[0]) == Mark(sep) + w && Word(w)
    requires Print(ps[1..]) == Collapse(rest)
    ensures Print(ps) == Collapse(Mark(sep) + (w + rest))
  {
    calc {
      Print(ps);
      (Mark(sep) + w) + Collapse(rest);
      { Associative(Mark(sep), w, Collapse(rest)); }
      Mark(sep) + (w + Collapse(rest));
      { CollapseWord(w, rest); }
      Mark(sep) + Collapse(w + rest);
      { assert (w + rest)[0] == w[0]; CollapseMark(sep, w + rest); }
      Collapse(Mark(sep) + (w + rest));
    }
  }

  lemma Associative<T>(a: seq<T>, b: seq<T>, c: seq<T>)
    ensures a + (b + c) == (a + b) + c
  {
  }

  /** The collapsed text parses into the very same pieces. */
  lemma {:induction false} ParseOfCollapse(cfg: Config, s: string, sep: bool)
    requires Sound(cfg) && Typed(s)
    ensures Pieces(cfg, Collapse(Mark(sep) + s), false) == Pieces(cfg, s, sep)
    decreases |s|
  {
    hide NextCut;
    if s == "" {
      if sep { LettersAreCut(cfg, Mark(true)); }
      assert Mark(sep) + s == Mark(sep);
    } else {
      LettersAreCut(cfg, s);
      match NextCut(cfg, s)
      case Skip =>
        ParseOfCollapse(cfg, s[1..], true);
        CollapseSeparator(sep, s);
      case Cut(w, k) =>
        var rest := s[|w|..];
        CutIsWord(cfg, s);
        ParseOfCollapse(cfg, rest, false);
        assert Mark(false) + rest == rest && s == w + rest;
        CollapseWord(w, rest);
        CollapseMark(sep, s);
        CutOfCollapse(cfg, s);
        var c := Collapse(s);
        assert c[|w|..] == Collapse(rest);
        if sep {
          assert (Mark(true) + c)[1..] == c;
          LettersAreCut(cfg, Mark(true) + c);
        } else {
          assert Mark(false) + c == c;
        }
    }
  }

  /** Print and parse undo each other. */
  lemma {:induction false} PrintThenParse(cfg: Config, s: string)
    requires Sound(cfg) && Typed(s)
    ensures Print(Parse(cfg, s)) == Collapse(s)
    ensures Parse(cfg, Print(Parse(cfg, s))) == Parse(cfg, s)
  {
    hide NextCut;
    assert Mark(false) + s == s;
    PrintedParse(cfg, s, false);
    ParseOfCollapse(cfg, s, false);
  }

  /** The pieces from k on are the pieces of what the parser had left at that point. */
  lemma {:induction false} TailIsParse(cfg: Config, s: string, sep: bool, k: nat) returns (left: string, mark: bool)
    requires Sound(cfg) && Typed(s)
    requires k <= |Pieces(cfg, s, sep)|
    ensures Typed(left) && Pieces(cfg, s, sep)[k..] == Pieces(cfg, left, mark)
    decreases |s|
  {
    hide NextCut;
    if k == 0 || s == "" {
      left, mark := (if k == 0 then s else ""), (k == 0 && sep);
    } else {
      var cut := NextCut(cfg, s);
      if cut.Skip? {
        left, mark := TailIsParse(cfg, s[1..], true, k);
      } else {
        DropHead(Pieces(cfg, s, sep), Pieces(cfg, s[|cut.word|..], false), k);
        left, mark := TailIsParse(cfg, s[|cut.word|..], false, k - 1);
      }
    }
  }

  /** Suffix stability: the text of the pieces from k on parses into exactly those pieces. */
  lemma SuffixStable(cfg: Config, s: string, k: nat)
    requires Sound(cfg) && Typed(s)
    requires k <= |Parse(cfg, s)|
    ensures Parse(cfg, Print(Parse(cfg, s)[k..])) == Parse(cfg, s)[k..]
  {
    hide NextCut;
    var left, mark := TailIsParse(cfg, s, false, k);
    PrintedParse(cfg, left, mark);
    ParseOfCollapse(cfg, left, mark);
  }

  lemma DropHead<T>(ps: seq<T>, rest: seq<T>, k: nat)
    requires ps != [] && ps == [ps[0]] + rest && 0 < k <= |ps|
    ensures |rest| == |ps| - 1 && ps[k..] == rest[k - 1..]
  {
  }

  lemma {:induction false} PrintConcat(a: seq<Piece>, b: seq<Piece>)
    ensures Print(a + b) == Print(a) + Print(b)
  {
    if a == [] {
      assert a + b == b;
    } else {
      assert (a + b)[1..] == a[1..] + b;
      PrintConcat(a[1..], b);
    }
  }
}
