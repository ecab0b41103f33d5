/** The limit on the pieces of a typed text: a text cut behind a piece never has more pieces
    than were kept (src/im/pinyin/py.c:587-596, 898-910), although lookahead can draw them
    differently (src/im/pinyin/pyParser.c:170-231).  Which keys keep the limit of 32 pieces
    and chosen characters, and how the others pass it. */
module WordLimit {
  import opened PyMapTable
  import opened Pyfa
  import opened PyParser
  import opened ParsePy
  import opened Editing

  /* ----- lookups in a text and in a part from its front ----- */

  /** What a search finds in a text it finds in a part that holds it; where it finds nothing
      it finds nothing in a part. */
  lemma {:induction false} RowOfPart(cfg: Config, s: string, v: string, i: nat)
    requires v <= s && i <= |cfg.table|
    ensures var r := FirstFrom(cfg, s, true, i);
      r == -1 || cfg.table[r].word <= v ==> FirstFrom(cfg, v, true, i) == r
    decreases |cfg.table| - i
  {
    if i < |cfg.table| { RowOfPart(cfg, s, v, i + 1); }
  }

  lemma {:induction false} EntryOfPart(t: seq<MapEntry>, s: string, v: string, i: nat)
    requires v <= s && i <= |t|
    ensures var r := EntryFrom(t, s, true, i);
      r == -1 || t[r].spelling <= v ==> EntryFrom(t, v, true, i) == r
    decreases |t| - i
  {
    if i < |t| { EntryOfPart(t, s, v, i + 1); }
  }

  /** A text that is an enabled syllable is its own longest match. */
  lemma WholeRow(cfg: Config, r: string)
    requires LongestFirst(cfg.table) && FirstRow(cfg, r, false) != -1
    ensures FirstRow(cfg, r, true) != -1 && cfg.table[FirstRow(cfg, r, true)].word == r
  {
    var x := FirstRow(cfg, r, false);
    NoneBefore(cfg, r, true, 0);
    assert RowMatches(cfg.table[x], r, true) && Usable(cfg, x);
  }

  /** It is one piece, since nothing of two letters can begin in its last one. */
  lemma WholeCut(cfg: Config, r: string)
    requires Sound(cfg) && LongestFirst(cfg.table) && FirstRow(cfg, r, false) != -1
    ensures r != "" && |Pieces(cfg, r, false)| == 1
  {
    WholeRow(cfg, r);
    var row := FirstRow(cfg, r, true);
    assert SyllableAt(cfg, r, row) == r;
    assert r[|r|..] == "";
  }

  lemma OneLetter(cfg: Config, r: string)
    requires Sound(cfg) && |r| == 1 && Letter(r[0])
    ensures |Pieces(cfg, r, false)| == 1
  {
    hide NextCut;
    LettersAreCut(cfg, r);
    assert r[|NextCut(cfg, r).word|..] == "";
  }

  /* ----- the decision to split, and what can change it ----- */

  /** The longest syllable a text begins with, "" when there is none. */
  function Front(cfg: Config, s: string): (w: string)
    ensures w <= s
  {
    if FirstRow(cfg, s, true) == -1 then "" else cfg.table[FirstRow(cfg, s, true)].word
  }

  /** The split of syllable w in front of `rest`, as the lengths and words decide it; `tail` is
      the last letter of w and the rest. */
  predicate SplitsOff(cfg: Config, w: string, rest: string, tail: string)
    requires w != ""
  {
    var last, w1 := w[|w| - 1], w[..|w| - 1];
    var y, x := Front(cfg, tail), Front(cfg, rest);
    && (last == 'g' || last == 'n' || last == 'e' || last == 'a')
    && FirstRow(cfg, w1, false) != -1
    && |y| >= 2 && y != "ng"
    && (x == "" || |w| + |x| < |w1| + |y| || (|w| + |x| == |w1| + |y| && cfg.freq(w, x) <= cfg.freq(w1, y)))
  }

  lemma SplitDecided(cfg: Config, s: string, row: nat)
    requires WordTable(cfg.table) && row < |cfg.table| && cfg.table[row].word <= s
    ensures var w := cfg.table[row].word;
      SyllableAt(cfg, s, row) == if SplitsOff(cfg, w, s[|w|..], s[|w| - 1..]) then w[..|w| - 1] else w
  {
    hide FirstFrom;
    var w := cfg.table[row].word;
    var w1 := w[..|w| - 1];
    assert s[..|w| - 1] == w1;
    var first := FirstRow(cfg, w1, false);
    if first != -1 {
      assert cfg.table[first].word == w1;
      RowsAreWords(cfg, s[|w| - 1..]);
      RowsAreWords(cfg, s[|w|..]);
    }
  }

  lemma RowsAreWords(cfg: Config, s: string)
    requires WordTable(cfg.table)
    ensures Front(cfg, s) == "" <==> FirstRow(cfg, s, true) == -1
  {
    hide FirstFrom;
  }

  /** The longest syllable in front of s reaches beyond its part r, but the piece taken there
      does not; so the piece is all of r. */
  lemma Overhang(cfg: Config, s: string, r: string)
    requires Sound(cfg) && r <= s && r != "" && |Front(cfg, s)| > |r| && NextCut(cfg, s).word <= r
    ensures FirstRow(cfg, r, false) != -1
  {
    var row := FirstRow(cfg, s, true);
    SplitCoversMore(cfg, s, row);
    assert SyllableAt(cfg, s, row) == r;
  }

  /** Two texts with the same syllable in front, the second a part of the first in which what
      follows the piece is whole as far as it goes.  Where the decision differs, one piece
      follows in the part. */
  lemma SplitOnlyInPart(cfg: Config, w: string, rest: string, r: string)
    requires Sound(cfg) && LongestFirst(cfg.table) && w != "" && r <= rest
    requires r != "" ==> NextCut(cfg, rest).Cut? ==> NextCut(cfg, rest).word <= r
    requires !SplitsOff(cfg, w, rest, w[|w| - 1..] + rest) && SplitsOff(cfg, w, r, w[|w| - 1..] + r)
    ensures r != "" && |Pieces(cfg, w[|w| - 1..] + r, false)| == 1
  {
    hide NextCut, Pieces, FirstFrom, LongestFirst, Sound, Usable;
    var tail, part := w[|w| - 1..] + rest, w[|w| - 1..] + r;
    assert part <= tail;
    RowOfPart(cfg, rest, r, 0);
    RowOfPart(cfg, tail, part, 0);
    if |Front(cfg, rest)| > |r| {
      FrontIsCut(cfg, rest);
      Overhang(cfg, rest, r);
      WholeRow(cfg, r);
      assert Front(cfg, part) == part;
      RowFound(cfg, FirstRow(cfg, part, true), part);
      WholeCut(cfg, part);
    }
  }

  lemma FrontIsCut(cfg: Config, s: string)
    requires Sound(cfg) && Front(cfg, s) != ""
    ensures s != "" && NextCut(cfg, s).Cut?
  {
  }

  lemma SplitOnlyInWhole(cfg: Config, w: string, rest: string, r: string)
    requires Sound(cfg) && LongestFirst(cfg.table) && w != "" && Letters(w) && r <= rest
    requires NextCut(cfg, w[|w| - 1..] + rest).Cut? ==> NextCut(cfg, w[|w| - 1..] + rest).word <= w[|w| - 1..] + r
    requires SplitsOff(cfg, w, rest, w[|w| - 1..] + rest) && !SplitsOff(cfg, w, r, w[|w| - 1..] + r)
    ensures |Pieces(cfg, r, false)| <= 1
  {
    hide NextCut, Pieces, FirstFrom, LongestFirst, Sound, Usable;
    var tail, part := w[|w| - 1..] + rest, w[|w| - 1..] + r;
    assert part <= tail;
    RowOfPart(cfg, rest, r, 0);
    RowOfPart(cfg, tail, part, 0);
    if r == "" {
      NothingLeft(cfg);
    } else {
      assert |Front(cfg, tail)| > |part|;
      FrontIsCut(cfg, tail);
      Overhang(cfg, tail, part);
      WholeRow(cfg, part);
      if part == "ng" {
        assert r == part[1..] && r[0] == 'g';
        OneLetter(cfg, r);
      } else {
        assert Front(cfg, r) == r;
        RowFound(cfg, FirstRow(cfg, r, true), r);
        WholeCut(cfg, r);
      }
    }
  }

  lemma NothingLeft(cfg: Config)
    requires Sound(cfg)
    ensures Pieces(cfg, "", false) == []
  {
  }

  /* ----- the pieces of a text cut behind a piece ----- */

  /** v is what the first m pieces of s take, the separators in front of each included. */
  ghost predicate Takes(cfg: Config, s: string, sep: bool, m: nat, v: string)
    requires Sound(cfg)
    decreases |s|
  {
    if m == 0 then v == "" && !sep
    else if s == "" then sep && m == 1 && v == ""
    else match NextCut(cfg, s)
      case Skip => v != "" && v[0] == s[0] && Takes(cfg, s[1..], true, m, v[1..])
      case Cut(w, _) => w <= v && Takes(cfg, s[|w|..], false, m - 1, v[|w|..])
  }

  lemma {:induction false} TakesPart(cfg: Config, s: string, sep: bool, m: nat, v: string)
    requires Sound(cfg) && Takes(cfg, s, sep, m, v)
    ensures v <= s
    decreases |s|
  {
    hide NextCut;
    if m > 0 && s != "" {
      match NextCut(cfg, s)
      case Skip => TakesPart(cfg, s[1..], true, m, v[1..]);
      case Cut(w, _) =>
        CutIsWord(cfg, s);
        TakesPart(cfg, s[|w|..], false, m - 1, v[|w|..]);
    }
  }

  /** In what pieces take the next piece is whole. */
  lemma NextIsWhole(cfg: Config, s: string, m: nat, v: string)
    requires Sound(cfg) && Takes(cfg, s, false, m, v) && v != "" && NextCut(cfg, s).Cut?
    ensures m > 0 && NextCut(cfg, s).word <= v
  {
  }

  /** Where the part is cut otherwise than the text, one piece at most is left of it, and more
      than one was to be taken. */
  lemma CutDiffers(cfg: Config, s: string, m: nat, v: string)
    requires Sound(cfg) && Typed(s) && LongestFirst(cfg.table) && s != "" && m > 0
    requires Takes(cfg, s, false, m, v) && NextCut(cfg, s).Cut?
    ensures v != "" && NextCut(cfg, v).Cut?
    ensures NextCut(cfg, v).word != NextCut(cfg, s).word ==>
      m > 1 && |Pieces(cfg, v[|NextCut(cfg, v).word|..], false)| <= 1
  {
    TakesPart(cfg, s, false, m, v);
    TakenWord(cfg, s, m, v);
    var row := FirstRow(cfg, s, true);
    if row == -1 {
      NoSyllableInPart(cfg, s, v);
    } else if cfg.table[row].word <= v {
      SyllableInPart(cfg, s, m, v);
    } else {
      SyllableBeyond(cfg, s, v);
    }
    hide Sound, Pieces, NextCut, Takes, FirstRow, LongestFirst;
  }

  lemma NoSyllableInPart(cfg: Config, s: string, v: string)
    requires Sound(cfg) && s != "" && v <= s && FirstRow(cfg, s, true) == -1
    requires NextCut(cfg, s).Cut? && NextCut(cfg, s).word <= v
    ensures v != "" && NextCut(cfg, v) == NextCut(cfg, s)
  {
    hide FirstFrom, EntryFrom, Usable;
    RowOfPart(cfg, s, v, 0);
    EntryOfPart(cfg.finals, s, v, 0);
    EntryOfPart(cfg.initials, s, v, 0);
  }

  lemma SyllableInPart(cfg: Config, s: string, m: nat, v: string)
    requires Sound(cfg) && LongestFirst(cfg.table) && s != "" && m > 0 && v <= s
    requires FirstRow(cfg, s, true) != -1 && cfg.table[FirstRow(cfg, s, true)].word <= v
    requires Takes(cfg, s[|NextCut(cfg, s).word|..], false, m - 1, v[|NextCut(cfg, s).word|..])
    ensures v != "" && NextCut(cfg, v).Cut?
    ensures NextCut(cfg, v).word != NextCut(cfg, s).word ==>
      m > 1 && |Pieces(cfg, v[|NextCut(cfg, v).word|..], false)| <= 1
  {
    hide Pieces, SplitsOff, Takes, FirstFrom, LongestFirst, Usable;
    RowOfPart(cfg, s, v, 0);
    var row := FirstRow(cfg, s, true);
    SplitDecided(cfg, s, row);
    SplitDecided(cfg, v, row);
    CutWhole(cfg, s, m, v, cfg.table[row].word);
  }

  /** The longest syllable of the text reaches beyond the part: then the part is one syllable. */
  lemma SyllableBeyond(cfg: Config, s: string, v: string)
    requires Sound(cfg) && LongestFirst(cfg.table) && s != "" && v <= s
    requires FirstRow(cfg, s, true) != -1 && !(cfg.table[FirstRow(cfg, s, true)].word <= v)
    requires NextCut(cfg, s).word <= v
    ensures v != "" && NextCut(cfg, v).Cut? && NextCut(cfg, v).word == NextCut(cfg, s).word
  {
    hide FirstFrom, LongestFirst, Usable;
    SplitCoversMore(cfg, s, FirstRow(cfg, s, true));
    assert NextCut(cfg, s).word == v;
    WholeSyllable(cfg, v);
  }

  lemma WholeSyllable(cfg: Config, r: string)
    requires Sound(cfg) && LongestFirst(cfg.table) && FirstRow(cfg, r, false) != -1
    ensures r != "" && NextCut(cfg, r) == Cut(r, Syllable)
  {
    WholeRow(cfg, r);
    var row := FirstRow(cfg, r, true);
    assert SyllableAt(cfg, r, row) == r;
  }

  lemma TakenWord(cfg: Config, s: string, m: nat, v: string)
    requires Sound(cfg) && s != "" && m > 0 && Takes(cfg, s, false, m, v) && NextCut(cfg, s).Cut?
    ensures NextCut(cfg, s).word <= v
    ensures var n := |NextCut(cfg, s).word|; Takes(cfg, s[n..], false, m - 1, v[n..])
  {
  }

  /** The same where the longest syllable w lies in the part. */
  lemma CutWhole(cfg: Config, s: string, m: nat, v: string, w: string)
    requires Sound(cfg) && LongestFirst(cfg.table) && Word(w) && w <= v <= s && m > 0
    requires var word := if SplitsOff(cfg, w, s[|w|..], s[|w| - 1..]) then w[..|w| - 1] else w;
      Takes(cfg, s[|word|..], false, m - 1, v[|word|..])
    ensures var off := SplitsOff(cfg, w, v[|w|..], v[|w| - 1..]);
      SplitsOff(cfg, w, s[|w|..], s[|w| - 1..]) != off ==>
        m > 1 && |Pieces(cfg, v[if off then |w| - 1 else |w|..], false)| <= 1
  {
    hide Pieces, SplitsOff, NextCut, LongestFirst, Sound, Takes;
    var rest, r := s[|w|..], v[|w|..];
    assert s[|w| - 1..] == w[|w| - 1..] + rest && v[|w| - 1..] == w[|w| - 1..] + r;
    if !SplitsOff(cfg, w, rest, s[|w| - 1..]) {
      if SplitsOff(cfg, w, r, v[|w| - 1..]) {
        if r != "" && NextCut(cfg, rest).Cut? { NextIsWhole(cfg, rest, m - 1, r); }
        SplitOnlyInPart(cfg, w, rest, r);
        SomethingTaken(cfg, rest, m - 1, r);
      }
    } else if !SplitsOff(cfg, w, r, v[|w| - 1..]) {
      var tail, part := s[|w| - 1..], v[|w| - 1..];
      if NextCut(cfg, tail).Cut? { NextIsWhole(cfg, tail, m - 1, part); }
      SplitOnlyInWhole(cfg, w, rest, r);
      SomethingTaken(cfg, tail, m - 1, part);
    }
  }

  lemma SomethingTaken(cfg: Config, s: string, m: nat, v: string)
    requires Sound(cfg) && Takes(cfg, s, false, m, v) && v != ""
    ensures m > 0
  {
  }

  /** What m pieces take parses into at most m pieces. */
  lemma {:induction false} NoMorePieces(cfg: Config, s: string, sep: bool, m: nat, v: string)
    requires Sound(cfg) && Typed(s) && LongestFirst(cfg.table) && Takes(cfg, s, sep, m, v)
    ensures |Pieces(cfg, v, sep)| <= m
    decreases |s|
  {
    hide NextCut;
    if m > 0 && s != "" {
      LettersAreCut(cfg, s);
      match NextCut(cfg, s)
      case Skip =>
        LettersAreCut(cfg, v);
        NoMorePieces(cfg, s[1..], true, m, v[1..]);
      case Cut(w, _) =>
        SeparatorAside(cfg, s, sep, m, v);
        CutDiffers(cfg, s, m, v);
        var word := NextCut(cfg, v).word;
        if word == w { NoMorePieces(cfg, s[|w|..], false, m - 1, v[|w|..]); }
    }
  }

  /** Whether a separator waits makes no difference to what is taken from a letter on. */
  lemma SeparatorAside(cfg: Config, s: string, sep: bool, m: nat, v: string)
    requires Sound(cfg) && s != "" && m > 0 && NextCut(cfg, s).Cut?
    ensures Takes(cfg, s, sep, m, v) <==> Takes(cfg, s, false, m, v)
  {
  }

  /** The first m pieces take some part, and their print is that part with its separator runs
      collapsed. */
  lemma {:induction false} PartTaken(cfg: Config, s: string, sep: bool, m: nat) returns (v: string)
    requires Sound(cfg) && Typed(s) && m <= |Pieces(cfg, s, sep)| && (m == 0 ==> !sep)
    ensures Takes(cfg, s, sep, m, v) && Typed(v)
    ensures Print(Pieces(cfg, s, sep)[..m]) == Collapse(Mark(sep) + v)
    decreases |s|
  {
    hide NextCut;
    if m == 0 || s == "" {
      v := "";
      assert Mark(sep) + v == Mark(sep);
      if m > 0 { assert Pieces(cfg, s, sep)[..m] == [Piece(true, "", Trailing)]; }
    } else {
      LettersAreCut(cfg, s);
      match NextCut(cfg, s)
      case Skip =>
        var u := PartTaken(cfg, s[1..], true, m);
        v := [s[0]] + u;
        assert v[1..] == u;
        CollapseSeparator(sep, v);
      case Cut(w, k) =>
        CutIsWord(cfg, s);
        var u := PartTaken(cfg, s[|w|..], false, m - 1);
        v := w + u;
        assert v[|w|..] == u && v[..|w|] == w;
        PrintOfFirst(Pieces(cfg, s[|w|..], false), sep, w, k, m, u);
    }
  }

  lemma PrintOfFirst(rest: seq<Piece>, sep: bool, w: string, k: Kind, m: nat, u: string)
    requires 0 < m <= |rest| + 1 && Letters(w) && w != ""
    requires Print(rest[..m - 1]) == Collapse(Mark(false) + u)
    ensures Print(([Piece(sep, w, k)] + rest)[..m]) == Collapse(Mark(sep) + (w + u))
  {
    var ps := ([Piece(sep, w, k)] + rest)[..m];
    assert ps[0] == Piece(sep, w, k) && ps[1..] == rest[..m - 1];
    assert Mark(false) + u == u;
    PrintedCut(ps, sep, w, u);
  }

  /** The text of the first k pieces of a parse has at most k pieces. */
  lemma CutKeepsLimit(cfg: Config, t: string, k: nat)
    requires Sound(cfg) && LongestFirst(cfg.table) && Typed(t) && k <= |Parse(cfg, t)|
    ensures |Parse(cfg, Print(Parse(cfg, t)[..k]))| <= k
  {
    hide Pieces, NextCut, Takes;
    var v := PartTaken(cfg, t, false, k);
    NoMorePieces(cfg, t, false, k, v);
    ParseOfCollapse(cfg, v, false);
    assert Mark(false) + v == v;
  }

  /* ----- the keys that keep the limit ----- */

  /** Chosen characters and open pieces together are at most 32. */
  ghost predicate Within(cfg: Config, e: Edit)
    requires Sound(cfg)
  {
    Taken(e.selected) + |Parse(cfg, e.find)| <= MAX_WORDS_USER_INPUT
  }

  /** An inserted key leaves no more pieces than there is room for, unless it changes nothing. */
  lemma InsertKeepsLimit(cfg: Config, e: Edit, c: char)
    requires Sound(cfg) && LongestFirst(cfg.table) && WellFormed(e) && (Letter(c) || c == SEPARATOR)
    ensures var r := InsertKey(cfg, e, c).edit;
      && (r == e || |Parse(cfg, r.find)| <= Room(r.selected))
      && (Within(cfg, e) ==> Within(cfg, r))
  {
    hide Parse, Print;
    var t := PutIn(e, c);
    assert Typed(t.find);
    if |Parse(cfg, t.find)| > Room(e.selected) { CutKeepsLimit(cfg, t.find, Room(e.selected)); }
  }

  /** A pick turns as many pieces into chosen characters. */
  lemma PickKeepsLimit(cfg: Config, e: Edit, hz: string, strMap: string)
    requires Sound(cfg) && WellFormed(e) && |hz| < |Parse(cfg, e.find)|
    ensures var r := Pick(cfg, e, hz, strMap);
      Taken(r.selected) + |Parse(cfg, r.find)| == Taken(e.selected) + |Parse(cfg, e.find)|
  {
    hide Parse, Print;
    PickKeepsWellFormed(cfg, e, hz, strMap);
    assert Pick(cfg, e, hz, strMap).selected[..|e.selected|] == e.selected;
  }

  /** A run of keys: the state, how many of its choices were made before the text was last
      changed, and the text as it was then. */
  datatype Session = Session(edit: Edit, behind: nat, base: string)

  datatype Key = Type(c: char) | Look(m: Move)

  /** Letters and separators may be typed, and choices taken back that were made since the text
      was last changed. */
  predicate Allowed(x: Session, k: Key) {
    match k
    case Type(c) => Letter(c) || c == SEPARATOR
    case Look(m) =>
      m == TakeBack || (m == GoLeft && x.edit.cursor == 0) ==> |x.edit.selected| > x.behind || x.edit.selected == []
  }

  ghost function Press(cfg: Config, x: Session, k: Key): Session
    requires Sound(cfg) && WellFormed(x.edit) && Allowed(x, k)
  {
    match k
    case Type(c) =>
      var e := InsertKey(cfg, x.edit, c).edit;
      if e == x.edit then x else Session(e, |e.selected|, e.find)
    case Look(m) => x.(edit := Browse(cfg, x.edit, m))
  }

  /** The choices made since the text was last changed, with the open text. */
  function Recent(x: Session): Edit
    requires x.behind <= |x.edit.selected|
  {
    x.edit.(selected := x.edit.selected[x.behind..])
  }

  ghost predicate InSession(cfg: Config, x: Session)
    requires Sound(cfg)
  {
    && WellFormed(x.edit) && Typed(x.base) && x.behind <= |x.edit.selected|
    && Browsed(cfg, x.base, Recent(x))
    && Taken(x.edit.selected[..x.behind]) + |Parse(cfg, x.base)| <= MAX_WORDS_USER_INPUT
  }

  lemma {:induction false} TakenConcat(a: seq<Selected>, b: seq<Selected>)
    ensures Taken(a + b) == Taken(a) + Taken(b)
    decreases |b|
  {
    if b == [] {
      assert a + b == a;
    } else {
      assert (a + b)[..|a + b| - 1] == a + b[..|b| - 1];
      TakenConcat(a, b[..|b| - 1]);
    }
  }

  lemma SessionIsWithin(cfg: Config, x: Session)
    requires Sound(cfg) && InSession(cfg, x)
    ensures Within(cfg, x.edit)
  {
    hide Parse, Print, Typed;
    var a, b := x.edit.selected[..x.behind], x.edit.selected[x.behind..];
    assert a + b == x.edit.selected;
    TakenConcat(a, b);
    BrowsedFacts(cfg, x.base, Recent(x));
  }

  lemma SessionBegins(cfg: Config, e: Edit)
    requires Sound(cfg) && WellFormed(e) && Within(cfg, e)
    ensures InSession(cfg, Session(e, |e.selected|, e.find))
  {
    hide Parse, Print;
    assert e.selected[..|e.selected|] == e.selected && e.selected[|e.selected|..] == [];
  }

  /** Looking around treats older choices as if they were not there. */
  lemma LookBehind(cfg: Config, x: Session, m: Move)
    requires Sound(cfg) && WellFormed(x.edit) && x.behind <= |x.edit.selected| && Allowed(x, Look(m))
    ensures var r := Browse(cfg, x.edit, m);
      && |r.selected| >= x.behind && r.selected[..x.behind] == x.edit.selected[..x.behind]
      && r.(selected := r.selected[x.behind..]) == Browse(cfg, Recent(x), m)
  {
    hide Parse, Print;
    var all, recent := x.edit.selected, x.edit.selected[x.behind..];
    if |all| > x.behind {
      assert all[..|all| - 1][x.behind..] == recent[..|recent| - 1];
      assert all[|all| - 1] == recent[|recent| - 1];
    }
  }

  lemma LookKeepsWellFormed(cfg: Config, e: Edit, m: Move)
    requires Sound(cfg) && WellFormed(e)
    ensures WellFormed(Browse(cfg, e, m))
  {
    hide Parse, Print, WellFormed;
    KeysKeepWellFormed(e);
    FirstAndLast(e);
    if m.Choose? && 0 < |m.hz| < |Parse(cfg, e.find)| { PickKeepsWellFormed(cfg, e, m.hz, m.strMap); }
  }

  lemma FirstAndLast(e: Edit)
    requires WellFormed(e)
    ensures e.cursor <= |e.find| && WellFormed(e.(cursor := 0)) && WellFormed(e.(cursor := |e.find|))
  {
  }

  lemma PressKeeps(cfg: Config, x: Session, k: Key)
    requires Sound(cfg) && LongestFirst(cfg.table) && InSession(cfg, x) && Allowed(x, k)
    ensures InSession(cfg, Press(cfg, x, k))
  {
    hide Parse, Print, WellFormed, Browsed, Typed, InsertKey, Browse, LongestFirst;
    match k
    case Type(c) =>
      SessionIsWithin(cfg, x);
      InsertKeepsLimit(cfg, x.edit, c);
      InsertKeepsWellFormed(cfg, x.edit, c);
      var e := InsertKey(cfg, x.edit, c).edit;
      SessionBegins(cfg, e);
    case Look(m) =>
      LookKeepsWellFormed(cfg, x.edit, m);
      LookBehind(cfg, x, m);
      FirstAndLast(x.edit);
      BrowseStep(cfg, x.base, Recent(x), m);
  }

  ghost predicate Legal(cfg: Config, x: Session, keys: seq<Key>)
    requires Sound(cfg)
    decreases |keys|
  {
    keys == [] || (WellFormed(x.edit) && Allowed(x, keys[0]) && Legal(cfg, Press(cfg, x, keys[0]), keys[1..]))
  }

  ghost function PressAll(cfg: Config, x: Session, keys: seq<Key>): Session
    requires Sound(cfg) && Legal(cfg, x, keys)
    decreases |keys|
  {
    if keys == [] then x else PressAll(cfg, Press(cfg, x, keys[0]), keys[1..])
  }

  lemma {:induction false} RunKeepsSession(cfg: Config, x: Session, keys: seq<Key>)
    requires Sound(cfg) && LongestFirst(cfg.table) && InSession(cfg, x) && Legal(cfg, x, keys)
    ensures InSession(cfg, PressAll(cfg, x, keys))
    decreases |keys|
  {
    hide InSession, Press, Allowed, LongestFirst;
    if keys != [] {
      PressKeeps(cfg, x, keys[0]);
      RunKeepsSession(cfg, Press(cfg, x, keys[0]), keys[1..]);
    }
  }

  /** Over every run of typing, picking, moving, and taking back choices made since the text was
      last changed, chosen characters and open pieces stay at most 32. */
  lemma RunKeepsLimit(cfg: Config, e: Edit, keys: seq<Key>)
    requires Sound(cfg) && LongestFirst(cfg.table) && WellFormed(e) && Within(cfg, e)
    requires Legal(cfg, Session(e, |e.selected|, e.find), keys)
    ensures Within(cfg, PressAll(cfg, Session(e, |e.selected|, e.find), keys).edit)
  {
    hide InSession, Within, Legal, PressAll, LongestFirst;
    var x := Session(e, |e.selected|, e.find);
    SessionBegins(cfg, e);
    RunKeepsSession(cfg, x, keys);
    SessionIsWithin(cfg, PressAll(cfg, x, keys));
  }

  /* ----- the keys that can pass it ----- */

  function LetterCount(s: string): nat {
    if s == "" then 0 else (if Letter(s[0]) then 1 else 0) + LetterCount(s[1..])
  }

  lemma {:induction false} CountConcat(a: string, b: string)
    ensures LetterCount(a + b) == LetterCount(a) + LetterCount(b)
  {
    if a == "" {
      assert a + b == b;
    } else {
      assert (a + b)[1..] == a[1..] + b;
      CountConcat(a[1..], b);
    }
  }

  lemma {:induction false} CountWord(w: string)
    requires Letters(w)
    ensures LetterCount(w) == |w|
  {
    if w != "" { CountWord(w[1..]); }
  }

  /** The most pieces a text can have: each letter, and a separator that ends it. */
  function Most(s: string, sep: bool): nat {
    LetterCount(s) + if EndsOpen(s, sep) then 1 else 0
  }

  lemma {:induction false} PiecesByLetters(cfg: Config, s: string, sep: bool)
    requires Sound(cfg) && Typed(s)
    ensures |Pieces(cfg, s, sep)| <= Most(s, sep)
    decreases |s|
  {
    hide NextCut;
    if s != "" {
      LettersAreCut(cfg, s);
      match NextCut(cfg, s)
      case Skip => PiecesByLetters(cfg, s[1..], true);
      case Cut(w, _) =>
        CutIsWord(cfg, s);
        var rest := s[|w|..];
        assert s == w + rest;
        CountWord(w);
        CountConcat(w, rest);
        PiecesByLetters(cfg, rest, false);
    }
  }

  /** The limit would be kept whatever the pieces of the text were. */
  predicate Fits(e: Edit) {
    Taken(e.selected) + Most(e.find, false) <= MAX_WORDS_USER_INPUT
  }

  lemma FitsIsWithin(cfg: Config, e: Edit)
    requires Sound(cfg) && WellFormed(e) && Fits(e)
    ensures Within(cfg, e)
  {
    hide Pieces;
    PiecesByLetters(cfg, e.find, false);
  }

  /** The table of the single letters: each letter is a piece. */
  function Alphabet(freq: (string, string) -> real): Config {
    Config(false, false, [], [], INITIALS, FINALS, seq(26, i requires 0 <= i < 26 => Row([LetterAt(i)], Always)), freq)
  }

  function LetterAt(i: nat): (c: char)
    requires i < 26
    ensures Letter(c)
  {
    ('a' as int + i) as char
  }

  lemma AlphabetIsSound(freq: (string, string) -> real)
    ensures Sound(Alphabet(freq))
  {
    hide SpellingTables;
    StandardTables();
  }

  lemma LetterIsPiece(freq: (string, string) -> real, s: string)
    requires s != "" && Letter(s[0])
    ensures Sound(Alphabet(freq)) && NextCut(Alphabet(freq), s) == Cut([s[0]], Syllable)
  {
    AlphabetIsSound(freq);
    hide Sound;
    var cfg := Alphabet(freq);
    var k := s[0] as int - 'a' as int;
    NoneBefore(cfg, s, true, 0);
    NoneBefore(cfg, "", false, 0);
    assert RowMatches(cfg.table[k], s, true) && Usable(cfg, k);
    assert FirstRow(cfg, "", false) == -1;
    var row := FirstRow(cfg, s, true);
    assert cfg.table[row].word == [s[0]];
    assert s[..0] == "";
  }

  lemma {:induction false} LettersArePieces(freq: (string, string) -> real, s: string, sep: bool)
    requires Typed(s)
    ensures Sound(Alphabet(freq)) && |Pieces(Alphabet(freq), s, sep)| == Most(s, sep)
    decreases |s|
  {
    AlphabetIsSound(freq);
    hide Sound, NextCut, Alphabet;
    if s != "" {
      if Letter(s[0]) {
        LetterIsPiece(freq, s);
        LettersArePieces(freq, s[1..], false);
      } else {
        LettersAreCut(Alphabet(freq), s);
        LettersArePieces(freq, s[1..], true);
      }
    }
  }

  /** It is kept whatever the syllable table is if and only if letters, a closing separator and
      chosen characters are at most 32. */
  lemma FitsExactly(e: Edit)
    requires WellFormed(e)
    ensures Fits(e) <==> forall cfg :: Sound(cfg) ==> Within(cfg, e)
  {
    hide Sound, Pieces, Most, Alphabet;
    forall cfg | Sound(cfg) && Fits(e)
      ensures Within(cfg, e)
    {
      FitsIsWithin(cfg, e);
    }
    var freq := (a: string, b: string) => 0.0;
    LettersArePieces(freq, e.find, false);
  }

  lemma CountWithout(s: string, from: nat, count: nat)
    requires from + count <= |s|
    ensures LetterCount(s) == LetterCount(Without(s, from, count)) + LetterCount(s[from..from + count])
  {
    hide LetterCount;
    var a, b, c := s[..from], s[from..from + count], s[from + count..];
    assert s == a + (b + c);
    CountConcat(a, b + c);
    CountConcat(b, c);
    CountConcat(a, c);
  }

  lemma {:induction false} LastCounts(s: string)
    requires s != "" && Letter(s[|s| - 1])
    ensures LetterCount(s) > 0
  {
    if |s| > 1 { LastCounts(s[1..]); }
  }

  lemma MostWithout(s: string, from: nat, count: nat)
    requires Typed(s) && from + count <= |s|
    ensures Most(Without(s, from, count), false) <= Most(s, false)
  {
    hide LetterCount;
    CountWithout(s, from, count);
    if count > 0 && from + count == |s| && Letter(s[|s| - 1]) { LastCounts(s[from..from + count]); }
  }

  /** Backspace and Delete leave a text that fits where it fitted before. */
  lemma RemovalKeepsLimit(cfg: Config, e: Edit)
    requires Sound(cfg) && WellFormed(e) && Fits(e)
    ensures e.selected == [] ==> Fits(Backspace(e).edit) && Within(cfg, Backspace(e).edit)
    ensures e.cursor < |e.find| ==> Fits(Delete(e).edit) && Within(cfg, Delete(e).edit)
  {
    hide Parse, Most, Within;
    KeysKeepWellFormed(e);
    if e.selected == [] {
      if e.cursor > 0 {
        var n := if e.cursor > 1 && e.find[e.cursor - 2] == SEPARATOR then 2 else 1;
        MostWithout(e.find, e.cursor - n, n);
      }
      FitsIsWithin(cfg, Backspace(e).edit);
    }
    if e.cursor < |e.find| {
      var n := if e.cursor + 1 < |e.find| && e.find[e.cursor + 1] == SEPARATOR then 2 else 1;
      MostWithout(e.find, e.cursor, n);
      FitsIsWithin(cfg, Delete(e).edit);
    }
  }

  /** Taking a choice back keeps the limit where the text it covered fits together with the open
      text. */
  lemma TakeBackKeepsLimit(cfg: Config, e: Edit, cursor: nat)
    requires Sound(cfg) && WellFormed(e) && e.selected != []
    requires var last := |e.selected| - 1;
      Taken(e.selected[..last]) + Most(e.selected[last].py + e.find, false) <= MAX_WORDS_USER_INPUT
    ensures Within(cfg, Unselect(e, cursor))
  {
    hide Pieces, Most;
    var py := e.selected[|e.selected| - 1].py;
    assert Typed(py + e.find);
    PiecesByLetters(cfg, py + e.find, false);
  }
}
