/** How the limit on the pieces of a typed text is passed: states that every engine reaches
    whose syllable table has a few usual syllables, and keys that leave more pieces than there
    is room for (src/im/pinyin/py.c:598-682).  The state is shown reached by keys from the
    empty one. */
module LimitPassed {
  import opened PyMapTable
  import opened Pyfa
  import opened PyParser
  import opened ParsePy
  import opened Editing
  import opened WordLimit

  /* ----- letters b ----- */

  function Bs(n: nat): (s: string)
    ensures |s| == n && forall i :: 0 <= i < n ==> s[i] == 'b'
  {
    seq(n, _ => 'b')
  }

  predicate Vowel(c: char) {
    c in "aeiou"
  }

  /** The engine's spelling tables, and a vowel second in every enabled syllable that begins
      with b. */
  ghost predicate Lettered(cfg: Config) {
    && WordTable(cfg.table) && cfg.initials == INITIALS && cfg.finals == FINALS
    && forall i :: 0 <= i < |cfg.table| && Usable(cfg, i) && cfg.table[i].word[0] == 'b' ==>
      |cfg.table[i].word| > 1 && Vowel(cfg.table[i].word[1])
  }

  lemma LetteredIsSound(cfg: Config)
    requires Lettered(cfg)
    ensures Sound(cfg)
  {
    hide SpellingTables;
    StandardTables();
  }

  lemma NoSyllableB(cfg: Config, s: string)
    requires Lettered(cfg) && s != "" && s[0] == 'b' && (|s| > 1 ==> !Vowel(s[1]))
    ensures FirstRow(cfg, s, true) == -1
  {
  }

  /** A b is the initial b there. */
  lemma LoneB(cfg: Config, s: string)
    requires Lettered(cfg) && s != "" && s[0] == 'b' && (|s| > 1 ==> !Vowel(s[1]))
    ensures Sound(cfg) && NextCut(cfg, s) == Cut("b", BareInitial)
  {
    LetteredIsSound(cfg);
    NoSyllableB(cfg, s);
    InitialBCut(cfg, s);
  }

  lemma FirstOfBs(cfg: Config, s: string)
    requires Lettered(cfg) && s != "" && s[0] == 'b' && (|s| > 1 ==> !Vowel(s[1]))
    ensures Sound(cfg) && |Pieces(cfg, s, false)| == 1 + |Pieces(cfg, s[1..], false)|
  {
    LoneB(cfg, s);
    hide Lettered, Sound, NextCut;
  }

  lemma OneMoreB(n: nat, rest: string)
    requires n > 0 && (rest != "" ==> !Vowel(rest[0]))
    ensures var s := Bs(n) + rest;
      s[0] == 'b' && s[1..] == Bs(n - 1) + rest && (|s| > 1 ==> !Vowel(s[1]))
  {
    assert (Bs(n) + rest)[1..] == Bs(n - 1) + rest;
  }

  /** Each b in front of such a text, or alone, is a piece. */
  lemma {:induction false} PiecesOfBs(cfg: Config, n: nat, rest: string)
    requires Lettered(cfg) && (rest != "" ==> !Vowel(rest[0]))
    ensures Sound(cfg) && |Pieces(cfg, Bs(n) + rest, false)| == n + |Pieces(cfg, rest, false)|
  {
    hide Sound, Lettered, Pieces, Vowel;
    if n == 0 {
      LetteredIsSound(cfg);
      assert Bs(n) + rest == rest;
    } else {
      OneMoreB(n, rest);
      FirstOfBs(cfg, Bs(n) + rest);
      PiecesOfBs(cfg, n - 1, rest);
    }
  }

  predicate Unsplit(cfg: Config, s: string) {
    var w := Front(cfg, s);
    w != "" && (w[|w| - 1] !in ['g', 'n', 'e', 'a'] || FirstRow(cfg, w[..|w| - 1], false) == -1
                || |Front(cfg, s[|w| - 1..])| < 2)
  }

  lemma UnsplitCut(cfg: Config, s: string)
    requires Sound(cfg) && Unsplit(cfg, s)
    ensures s != "" && NextCut(cfg, s) == Cut(Front(cfg, s), Syllable)
  {
    hide FirstFrom, Spelt, SyllableAt, EntryFrom;
    SplitDecided(cfg, s, FirstRow(cfg, s, true));
  }

  /** Such a syllable is the first piece. */
  lemma UnsplitFirst(cfg: Config, s: string, sep: bool)
    requires Sound(cfg) && Unsplit(cfg, s)
    ensures var w := Front(cfg, s);
      Pieces(cfg, s, sep) == [Piece(sep, w, Syllable)] + Pieces(cfg, s[|w|..], false)
  {
    UnsplitCut(cfg, s);
    hide NextCut, Unsplit, Front, Sound;
  }

  /* ----- runs of keys that begin with no text ----- */

  const START := Session(Edit("", 0, []), 0, "")

  ghost predicate Reached(cfg: Config, x: Session)
    requires Sound(cfg)
  {
    exists keys :: Legal(cfg, START, keys) && PressAll(cfg, START, keys) == x
  }

  lemma {:induction false} OneKeyMore(cfg: Config, x: Session, keys: seq<Key>, k: Key)
    requires Sound(cfg) && Legal(cfg, x, keys)
    requires var y := PressAll(cfg, x, keys); WellFormed(y.edit) && Allowed(y, k)
    ensures Legal(cfg, x, keys + [k]) && PressAll(cfg, x, keys + [k]) == Press(cfg, PressAll(cfg, x, keys), k)
    decreases |keys|
  {
    hide Press, Allowed, WellFormed;
    if keys == [] {
      assert [] + [k] == [k];
    } else {
      assert (keys + [k])[1..] == keys[1..] + [k];
      OneKeyMore(cfg, Press(cfg, x, keys[0]), keys[1..], k);
    }
  }

  lemma ReachedMore(cfg: Config, x: Session, k: Key)
    requires Sound(cfg) && Reached(cfg, x) && WellFormed(x.edit) && Allowed(x, k)
    ensures Reached(cfg, Press(cfg, x, k))
  {
    hide Press, Allowed, WellFormed, Legal, PressAll;
    var keys :| Legal(cfg, START, keys) && PressAll(cfg, START, keys) == x;
    OneKeyMore(cfg, START, keys, k);
  }

  /** The session of a text that was typed and nothing chosen from it. */
  function Unchosen(find: string, cursor: nat): Session {
    Session(Edit(find, cursor, []), 0, find)
  }

  lemma TypeOne(cfg: Config, a: string, c: char, b: string)
    requires Sound(cfg) && Typed(a + b) && (Letter(c) || (c == SEPARATOR && a != "" && a[|a| - 1] != SEPARATOR))
    requires Reached(cfg, Unchosen(a + b, |a|)) && |Parse(cfg, a + [c] + b)| <= MAX_WORDS_USER_INPUT
    ensures Reached(cfg, Unchosen(a + [c] + b, |a| + 1))
  {
    hide Parse, Reached;
    var x := Unchosen(a + b, |a|);
    assert (a + b)[..|a|] == a && (a + b)[|a|..] == b;
    ReachedMore(cfg, x, Type(c));
    assert PutIn(x.edit, c).find == a + [c] + b;
    assert Press(cfg, x, Type(c)) == Unchosen(a + [c] + b, |a| + 1);
  }

  lemma TypedParts(a: string, b: string, c: string)
    requires Typed(a + c) && Letters(b)
    ensures Typed(a + b + c)
  {
    assert forall i :: 0 <= i < |a| ==> (a + c)[i] == a[i];
    assert forall i :: 0 <= i < |c| ==> (a + c)[|a| + i] == c[i];
  }

  lemma {:induction false} TypeBs(cfg: Config, head: string, n: nat, tail: string)
    requires Sound(cfg) && Typed(head + tail) && Reached(cfg, Unchosen(head + tail, |head|))
    requires forall k: nat :: k <= n ==> |Parse(cfg, head + Bs(k) + tail)| <= MAX_WORDS_USER_INPUT
    ensures Reached(cfg, Unchosen(head + Bs(n) + tail, |head| + n))
  {
    hide Parse, Reached;
    if n == 0 {
      assert head + Bs(0) + tail == head + tail;
    } else {
      TypeBs(cfg, head, n - 1, tail);
      var a := head + Bs(n - 1);
      assert a + ['b'] == head + Bs(n);
      TypedParts(head, Bs(n - 1), tail);
      TypeOne(cfg, a, 'b', tail);
    }
  }

  predicate Plain(s: string) {
    && Typed(s) && (s != "" ==> s[0] != SEPARATOR)
    && forall i :: 0 < i < |s| ==> s[i] != SEPARATOR || s[i - 1] != SEPARATOR
  }

  lemma {:induction false} MostIsLength(s: string)
    requires Typed(s)
    ensures LetterCount(s) <= |s| && Most(s, false) <= |s|
  {
    if s != "" {
      MostIsLength(s[1..]);
      if |s| > 1 { assert s[1..][|s| - 2] == s[|s| - 1]; }
    }
  }

  lemma {:induction false} TypeText(cfg: Config, s: string)
    requires Sound(cfg) && Plain(s) && |s| <= MAX_WORDS_USER_INPUT
    ensures Reached(cfg, Unchosen(s, |s|))
  {
    hide Pieces, Most, LetterCount;
    if s == "" {
      assert Legal(cfg, START, []) && PressAll(cfg, START, []) == START;
    } else {
      var a := s[..|s| - 1];
      TypeText(cfg, a);
      assert a + [s[|s| - 1]] + "" == s && a + "" == a;
      MostIsLength(s);
      PiecesByLetters(cfg, s, false);
      TypeOne(cfg, a, s[|s| - 1], "");
    }
  }

  /* ----- Backspace and Delete can pass the limit ----- */

  /** "zhong" is a syllable, "zhon" is none, and none begins "zhng". */
  ghost predicate ZhongOnly(cfg: Config) {
    Front(cfg, "zhong") == "zhong" && FirstRow(cfg, "zhon", false) == -1 && Front(cfg, "zhng") == ""
  }

  lemma ZhongIsOne(cfg: Config)
    requires Sound(cfg) && ZhongOnly(cfg)
    ensures |Pieces(cfg, "zhong", false)| == 1
  {
    hide Front, FirstRow;
    assert "zhong"[..4] == "zhon" && "zhong"[5..] == "";
    UnsplitFirst(cfg, "zhong", false);
    NothingLeft(cfg);
  }

  lemma InitialZh(s: string)
    requires "zh" <= s
    ensures EntryFrom(INITIALS, s, true, 0) == 0 && INITIALS[0].spelling == "zh"
  {
  }

  lemma ZhCut(cfg: Config, s: string)
    requires Lettered(cfg) && "zh" <= s && Front(cfg, s) == ""
    ensures Sound(cfg) && NextCut(cfg, s) == Cut("zh", BareInitial)
  {
    hide EntryFrom, FirstFrom, SpellingTables;
    LetteredIsSound(cfg);
    RowsAreWords(cfg, s);
    NoFinalHere(s);
    InitialZh(s);
  }

  lemma ZhIsPiece(cfg: Config, s: string)
    requires Lettered(cfg) && "zh" <= s && |s| > 2 && Front(cfg, s) == ""
    ensures Sound(cfg) && |Pieces(cfg, s, false)| >= 2
  {
    hide Lettered, Sound, NextCut, Front;
    ZhCut(cfg, s);
    SomePieces(cfg, s[2..], false);
  }

  lemma WithoutO(n: nat)
    ensures var e, shorter := Edit(Bs(n) + "zhong", n + 3, []), Edit(Bs(n) + "zhng", n + 2, []);
      && WellFormed(e) && WellFormed(shorter)
      && Backspace(e).edit == shorter && Delete(e.(cursor := n + 2)).edit == shorter
  {
    assert Without(Bs(n) + "zhong", n + 2, 1) == Bs(n) + "zhng";
  }

  /** A pick of as many characters as are allowed leaves no room, and the next letter typed clears
      the open text. */
  lemma PickFillsUp(cfg: Config, e: Edit, hz: string, strMap: string)
    requires Sound(cfg) && WellFormed(e) && e.selected == []
    requires |hz| == MAX_WORDS_USER_INPUT < |Parse(cfg, e.find)|
    ensures FilledUp(cfg, Pick(cfg, e, hz, strMap))
  {
    hide Parse, Print;
    PickKeepsWellFormed(cfg, e, hz, strMap);
    var picked := Pick(cfg, e, hz, strMap);
    assert picked.selected[..0] == [] && |picked.selected| == 1 && Taken(picked.selected) == |hz|;
    forall c | Letter(c)
      ensures InsertKey(cfg, picked, c).edit.find == ""
    {
      NextClears(cfg, picked, c);
    }
  }

  lemma NextClears(cfg: Config, e: Edit, c: char)
    requires Sound(cfg) && WellFormed(e) && Room(e.selected) == 0 && Letter(c)
    ensures InsertKey(cfg, e, c).edit.find == ""
  {
    hide NextCut;
    SomePieces(cfg, PutIn(e, c).find, false);
    assert Print(Parse(cfg, PutIn(e, c).find)[..0]) == "";
  }

  /** Open text, no room for it, and any letter clears it. */
  ghost predicate FilledUp(cfg: Config, e: Edit)
    requires Sound(cfg)
  {
    && WellFormed(e) && e.find != "" && Room(e.selected) == 0
    && forall c :: Letter(c) ==> InsertKey(cfg, e, c).edit.find == ""
  }

  /** Taking the o out of the last of 32 pieces, by Backspace or by Delete, leaves more than 32.
      A pick of 32 characters then leaves open text and no room for it. */
  lemma RemovalPasses(cfg: Config, hz: string, strMap: string, n: nat)
    requires Lettered(cfg) && ZhongOnly(cfg) && |hz| == MAX_WORDS_USER_INPUT == n + 1
    ensures Sound(cfg)
    ensures var e, shorter := Edit(Bs(n) + "zhong", n + 3, []), Edit(Bs(n) + "zhng", n + 2, []);
      && Reached(cfg, Session(e, 0, e.find)) && Within(cfg, e)
      && Backspace(e).edit == shorter && Delete(e.(cursor := n + 2)).edit == shorter && !Within(cfg, shorter)
      && |hz| < |Parse(cfg, shorter.find)| && FilledUp(cfg, Pick(cfg, shorter, hz, strMap))
  {
    hide Lettered, Sound, ZhongOnly, Parse, Print, Reached, Bs, WellFormed, Delete, Backspace, Pick, FilledUp;
    ZhongIsReached(cfg, n);
    WithoutO(n);
    ZhongPieces(cfg, n);
    ZhngPieces(cfg, n);
    PickFillsUp(cfg, Edit(Bs(n) + "zhng", n + 2, []), hz, strMap);
  }

  lemma ZhongPieces(cfg: Config, n: nat)
    requires Lettered(cfg) && ZhongOnly(cfg)
    ensures Sound(cfg) && |Parse(cfg, Bs(n) + "zhong")| == n + 1
  {
    hide Lettered, Sound, Pieces, Front, FirstRow;
    PiecesOfBs(cfg, n, "zhong");
    ZhongIsOne(cfg);
  }

  lemma ZhngPieces(cfg: Config, n: nat)
    requires Lettered(cfg) && ZhongOnly(cfg)
    ensures Sound(cfg) && |Parse(cfg, Bs(n) + "zhng")| > n + 1
  {
    hide Lettered, Sound, Pieces, Front, FirstRow;
    PiecesOfBs(cfg, n, "zhng");
    ZhIsPiece(cfg, "zhng");
  }

  /** "zhong" is typed first, the letters b in front of it after, and the cursor moved behind
      the o. */
  lemma ZhongIsReached(cfg: Config, n: nat)
    requires Lettered(cfg) && ZhongOnly(cfg) && n < MAX_WORDS_USER_INPUT
    ensures Sound(cfg) && Reached(cfg, Unchosen(Bs(n) + "zhong", n + 3))
  {
    hide Lettered, Sound, ZhongOnly, Parse, Reached, Bs, Typed;
    ZhongPieces(cfg, n);
    ZhongFirst(cfg);
    assert "" + "zhong" == "zhong";
    forall k: nat | k <= n
      ensures |Parse(cfg, "" + Bs(k) + "zhong")| <= MAX_WORDS_USER_INPUT
    {
      ZhongPieces(cfg, k);
      assert "" + Bs(k) + "zhong" == Bs(k) + "zhong";
    }
    TypeBs(cfg, "", n, "zhong");
    var s := "" + Bs(n) + "zhong";
    assert s == Bs(n) + "zhong";
    WithoutO(n);
    MoveRight(cfg, s, n);
    MoveRight(cfg, s, n + 1);
    MoveRight(cfg, s, n + 2);
  }

  lemma ZhongFirst(cfg: Config)
    requires Sound(cfg)
    ensures Typed("zhong") && Reached(cfg, Unchosen("zhong", 0))
  {
    hide Sound, Reached;
    TypeText(cfg, "zhong");
    ReachedMore(cfg, Unchosen("zhong", 5), Look(GoHome));
  }

  lemma MoveRight(cfg: Config, s: string, cursor: nat)
    requires Sound(cfg) && Typed(s) && cursor < |s| && Reached(cfg, Unchosen(s, cursor))
    ensures Reached(cfg, Unchosen(s, cursor + 1))
  {
    hide Reached;
    ReachedMore(cfg, Unchosen(s, cursor), Look(GoRight));
  }

  /* ----- taking a choice back can pass it ----- */

  /** In front of b, "e'ruan" begins with the syllables "e" and "ruan", "eruan" with "er", "uan"
      with none and "an" with "an"; nothing of two letters begins with its n. */
  ghost predicate RuanFronts(cfg: Config, b: string) {
    && Front(cfg, "e'ruan" + b) == "e" && Front(cfg, "ruan" + b) == "ruan"
    && Front(cfg, "eruan" + b) == "er" && Front(cfg, "uan" + b) == ""
    && Front(cfg, "an" + b) == "an" && |Front(cfg, "n" + b)| < 2
  }

  ghost predicate RuanTable(cfg: Config) {
    FirstRow(cfg, "rua", false) == -1 && forall n: nat :: RuanFronts(cfg, Bs(n))
  }

  lemma NoEmptySyllable(cfg: Config)
    requires Sound(cfg)
    ensures FirstRow(cfg, "", false) == -1
  {
  }

  /** A syllable in front of a text, as the front of the two joined. */
  lemma FrontPiece(cfg: Config, w: string, rest: string, sep: bool)
    requires Sound(cfg) && w != "" && Front(cfg, w + rest) == w
    requires w[|w| - 1] !in ['g', 'n', 'e', 'a'] || FirstRow(cfg, w[..|w| - 1], false) == -1
             || |Front(cfg, [w[|w| - 1]] + rest)| < 2
    ensures Pieces(cfg, w + rest, sep) == [Piece(sep, w, Syllable)] + Pieces(cfg, rest, false)
  {
    hide Front, FirstRow, Sound, Pieces;
    assert (w + rest)[|w| - 1..] == [w[|w| - 1]] + rest && (w + rest)[|w|..] == rest;
    UnsplitFirst(cfg, w + rest, sep);
  }

  lemma RuanPieces(cfg: Config, n: nat, sep: bool)
    requires Lettered(cfg) && RuanTable(cfg)
    ensures Sound(cfg) && |Pieces(cfg, "ruan" + Bs(n), sep)| == n + 1
  {
    hide Lettered, Sound, Front, FirstRow, Pieces;
    assert RuanFronts(cfg, Bs(n));
    BsAlone(cfg, n);
    assert "ruan"[..3] == "rua";
    FrontPiece(cfg, "ruan", Bs(n), sep);
  }

  lemma BsAlone(cfg: Config, n: nat)
    requires Lettered(cfg)
    ensures Sound(cfg) && |Pieces(cfg, Bs(n), false)| == n
  {
    hide Lettered, Pieces, NextCut;
    PiecesOfBs(cfg, n, "");
    NothingLeft(cfg);
    assert Bs(n) + "" == Bs(n);
  }

  lemma SeparatedPiece(cfg: Config, s: string)
    requires Sound(cfg)
    ensures Pieces(cfg, "'" + s, false) == Pieces(cfg, s, true)
  {
    hide NextCut, Sound;
    LettersAreCut(cfg, "'" + s);
    assert ("'" + s)[1..] == s;
  }

  lemma ERuanPieces(cfg: Config, n: nat)
    requires Lettered(cfg) && RuanTable(cfg)
    ensures Sound(cfg)
    ensures var ps := Parse(cfg, "e'ruan" + Bs(n)); |ps| == n + 2 && ps[0] == Piece(false, "e", Syllable)
  {
    hide Lettered, Sound, Front, FirstRow, Pieces;
    assert RuanFronts(cfg, Bs(n));
    RuanPieces(cfg, n, true);
    NoEmptySyllable(cfg);
    assert "e'ruan" + Bs(n) == "e" + ("'" + ("ruan" + Bs(n)));
    assert "e"[..0] == "";
    FrontPiece(cfg, "e", "'" + ("ruan" + Bs(n)), false);
    SeparatedPiece(cfg, "ruan" + Bs(n));
  }

  lemma UCut(cfg: Config, s: string)
    requires Lettered(cfg) && s != "" && s[0] == 'u' && Front(cfg, s) == ""
    ensures Sound(cfg) && NextCut(cfg, s) == Cut("u", BareFinal)
  {
    hide EntryFrom, FirstFrom, SpellingTables;
    LetteredIsSound(cfg);
    RowsAreWords(cfg, s);
    BareFinalCut(cfg, s);
  }

  lemma UPiece(cfg: Config, s: string)
    requires Lettered(cfg) && Front(cfg, "u" + s) == ""
    ensures Sound(cfg) && |Pieces(cfg, "u" + s, false)| == 1 + |Pieces(cfg, s, false)|
  {
    hide Lettered, Sound, NextCut, Front;
    UCut(cfg, "u" + s);
    assert ("u" + s)[1..] == s;
  }

  lemma JoinedPieces(cfg: Config, n: nat)
    requires Lettered(cfg) && RuanTable(cfg)
    ensures Sound(cfg) && |Pieces(cfg, "eruan" + Bs(n), false)| == n + 3
  {
    hide Lettered, Sound, Front, FirstRow, Pieces;
    assert RuanFronts(cfg, Bs(n));
    BsAlone(cfg, n);
    FrontPiece(cfg, "an", Bs(n), false);
    assert "u" + ("an" + Bs(n)) == "uan" + Bs(n);
    UPiece(cfg, "an" + Bs(n));
    assert "er" + ("uan" + Bs(n)) == "eruan" + Bs(n);
    FrontPiece(cfg, "er", "uan" + Bs(n), false);
  }

  /** The first of the pieces is chosen; the rest stays as it was typed. */
  lemma ChooseE(cfg: Config, e: Edit, hz: string, strMap: string, n: nat)
    requires Lettered(cfg) && RuanTable(cfg) && e.find == "e'ruan" + Bs(n) && e.selected == [] && |hz| == 1
    ensures Sound(cfg) && |hz| < |Parse(cfg, e.find)|
    ensures var rest := "'ruan" + Bs(n);
      Pick(cfg, e, hz, strMap) == Edit(rest, |rest|, [Selected("e", strMap, hz)])
  {
    hide Lettered, Sound, Front, FirstRow, Pieces, RuanTable;
    ERuanPieces(cfg, n);
    var ps := Parse(cfg, e.find);
    assert ps[..1] == [ps[0]];
    assert Print([ps[0]]) == "e";
    PrintThenParse(cfg, e.find);
    CollapsedERuan(Bs(n));
    assert "e" + Print(ps[1..]) == "e" + ("'ruan" + Bs(n));
    SameTail("e", Print(ps[1..]), "'ruan" + Bs(n));
  }

  lemma SameTail(a: string, b: string, c: string)
    requires a + b == a + c
    ensures b == c
  {
    assert (a + b)[|a|..] == b && (a + c)[|a|..] == c;
  }

  lemma CollapsedERuan(b: string)
    requires Letters(b)
    ensures Collapse("e'ruan" + b) == "e" + ("'ruan" + b)
  {
    hide Collapse;
    var r := "ruan" + b;
    LettersOnly(r);
    CollapseMark(true, r);
    CollapseWord("e", Mark(true) + r);
    assert "e" + (Mark(true) + r) == "e'ruan" + b;
    assert Mark(true) + r == "'ruan" + b;
  }

  lemma LettersOnly(w: string)
    requires Letters(w)
    ensures Collapse(w) == w
  {
    CollapseWord(w, "");
    assert w + "" == w;
  }

  lemma ERuanIsReached(cfg: Config, n: nat)
    requires Lettered(cfg) && RuanTable(cfg) && n + 2 <= MAX_WORDS_USER_INPUT
    ensures Sound(cfg) && Reached(cfg, Unchosen("e'ruan" + Bs(n), n + 6))
  {
    hide Lettered, Sound, RuanTable, Parse, Reached, Bs;
    ERuanPieces(cfg, n);
    TypeText(cfg, "e'ruan");
    assert "e'ruan" + "" == "e'ruan";
    forall k: nat | k <= n
      ensures |Parse(cfg, "e'ruan" + Bs(k) + "")| <= MAX_WORDS_USER_INPUT
    {
      ERuanPieces(cfg, k);
      assert "e'ruan" + Bs(k) + "" == "e'ruan" + Bs(k);
    }
    TypeBs(cfg, "e'ruan", n, "");
    assert "e'ruan" + Bs(n) + "" == "e'ruan" + Bs(n);
  }

  /** One character is chosen for the e, and the cursor moved to the front. */
  lemma ChosenIsReached(cfg: Config, hz: string, strMap: string, n: nat)
    requires Lettered(cfg) && RuanTable(cfg) && |hz| == 1 && n + 2 <= MAX_WORDS_USER_INPUT
    ensures Sound(cfg)
    ensures var x := Session(Edit("'ruan" + Bs(n), 0, [Selected("e", strMap, hz)]), 0, "e'ruan" + Bs(n));
      Reached(cfg, x)
  {
    hide Lettered, Sound, RuanTable, Parse, Reached, Bs, Pick;
    ERuanIsReached(cfg, n);
    var x := Unchosen("e'ruan" + Bs(n), n + 6);
    ChooseE(cfg, x.edit, hz, strMap, n);
    ReachedMore(cfg, x, Look(Choose(hz, strMap)));
    var rest := "'ruan" + Bs(n);
    var y := Session(Edit(rest, |rest|, [Selected("e", strMap, hz)]), 0, "e'ruan" + Bs(n));
    ReachedMore(cfg, y, Look(GoHome));
  }

  lemma JoinE(c: Selected, b: string)
    requires c.py == "e" && |c.hz| == 1
    ensures var e, left := Edit("'ruan" + b, 0, [c]), Edit("ruan" + b, 0, [c]);
      Delete(e).edit == left && Backspace(left).edit == Edit("eruan" + b, 1, []) && Taken([c]) == 1
  {
    assert [c][..0] == [];
    assert ("'ruan" + b)[1] == 'r' && ("'ruan" + b)[1..] == "ruan" + b;
    assert "e" + ("ruan" + b) == "eruan" + b;
  }

  /** A choice is taken back behind an edit: "e'ruan" and 30 letters b are typed, a character is
      chosen for the e, and Delete takes the separator out, which leaves the limit kept.
      Backspace then joins the e to the text, which has 33 pieces. */
  lemma TakeBackPasses(cfg: Config, hz: string, strMap: string, n: nat)
    requires Lettered(cfg) && RuanTable(cfg) && |hz| == 1 && n + 2 == MAX_WORDS_USER_INPUT
    ensures Sound(cfg)
    ensures var chosen := [Selected("e", strMap, hz)];
      var e, left := Edit("'ruan" + Bs(n), 0, chosen), Edit("ruan" + Bs(n), 0, chosen);
      && Reached(cfg, Session(e, 0, "e'ruan" + Bs(n))) && Delete(e).edit == left && Within(cfg, left)
      && Backspace(left).edit == Edit("eruan" + Bs(n), 1, []) && !Within(cfg, Backspace(left).edit)
  {
    hide Lettered, Sound, RuanTable, Pieces, Reached, Bs, Delete, Backspace;
    ChosenIsReached(cfg, hz, strMap, n);
    RuanPieces(cfg, n, false);
    JoinedPieces(cfg, n);
    JoinE(Selected("e", strMap, hz), Bs(n));
  }

  /* ----- such tables exist ----- */

  function Five(freq: (string, string) -> real): Config {
    Config(false, false, [], [], INITIALS, FINALS,
      [Row("zhong", Always), Row("ruan", Always), Row("er", Always), Row("e", Always), Row("an", Always)], freq)
  }

  /** The two texts have other letters in one of the first three places. */
  predicate Apart(w: string, s: string) {
    && |w| > 0 && |s| > 0
    && (w[0] != s[0]
        || (|w| > 1 && |s| > 1 && (w[1] != s[1] || (|w| > 2 && |s| > 2 && w[2] != s[2]))))
  }

  lemma FrontIs(cfg: Config, s: string, k: nat)
    requires k < |cfg.table| && Usable(cfg, k) && cfg.table[k].word <= s
    requires forall i :: 0 <= i < k ==> Apart(cfg.table[i].word, s)
    ensures Front(cfg, s) == cfg.table[k].word
  {
    NoneBefore(cfg, s, true, 0);
    assert RowMatches(cfg.table[k], s, true) && Usable(cfg, k);
  }

  lemma NoFront(cfg: Config, s: string)
    requires forall i :: 0 <= i < |cfg.table| ==> Apart(cfg.table[i].word, s)
    ensures Front(cfg, s) == ""
  {
  }

  lemma FiveFronts(freq: (string, string) -> real, b: string)
    requires Letters(b)
    ensures RuanFronts(Five(freq), b)
  {
    hide Front, Bs;
    var cfg := Five(freq);
    assert "e" <= "e'ruan" + b && "ruan" <= "ruan" + b && "er" <= "eruan" + b && "an" <= "an" + b;
    FrontIs(cfg, "e'ruan" + b, 3);
    FrontIs(cfg, "ruan" + b, 1);
    FrontIs(cfg, "eruan" + b, 2);
    FrontIs(cfg, "an" + b, 4);
    NoFront(cfg, "uan" + b);
    NoFront(cfg, "n" + b);
  }

  lemma FiveSyllables(freq: (string, string) -> real)
    ensures FirstRow(Five(freq), "zhon", false) == -1 && FirstRow(Five(freq), "rua", false) == -1
  {
  }

  lemma FiveLettered(freq: (string, string) -> real)
    ensures Lettered(Five(freq)) && LongestFirst(Five(freq).table)
  {
    hide FirstFrom;
  }

  lemma FiveIsSuch(freq: (string, string) -> real)
    ensures Lettered(Five(freq)) && LongestFirst(Five(freq).table)
    ensures ZhongOnly(Five(freq)) && RuanTable(Five(freq))
  {
    hide Front, FirstRow, Lettered, LongestFirst, RuanFronts;
    var cfg := Five(freq);
    FiveSyllables(freq);
    FiveLettered(freq);
    FrontIs(cfg, "zhong", 0);
    NoFront(cfg, "zhng");
    forall n: nat
      ensures RuanFronts(cfg, Bs(n))
    {
      FiveFronts(freq, Bs(n));
    }
  }
}
