/** FcitxPinyinState, the part the editing keys change (src/im/pinyin/py.c).  The find
    string is a buffer shifted in place; every method is tied to the value-level key of
    Editing, and keeps the stored parse and the raw input buffer up to date. */
module PinyinState {
  import opened PyMapTable
  import opened Pyfa
  import opened PyParser
  import opened ParsePy
  import opened Editing

  class FcitxPinyinState {
    const cfg: Config
    const strFindString: array<char>
    var len: nat
    var iPYInsertPoint: nat
    var pySelected: seq<Selected>
    var strPYParsed: seq<string>
    var strMap: seq<MapResult>
    var iMode: nat
    var rawInput: string

    ghost predicate InBounds()
      reads this
    {
      iPYInsertPoint <= len <= strFindString.Length
    }

    ghost function View(): Edit
      requires InBounds()
      reads this, strFindString
    {
      Edit(strFindString[..len], iPYInsertPoint, pySelected)
    }

    /** The stored parse is the parse of the find string, and the raw input buffer holds
        the pinyin of the choices followed by the find string. */
    ghost predicate Valid()
      reads this, strFindString
    {
      && InBounds() && Sound(cfg)
      && WellFormed(View())
      && rawInput == RawInput(View()) && |rawInput| <= strFindString.Length
      && (len > 0 ==> Parsed())
    }

    ghost predicate Parsed()
      requires InBounds() && Sound(cfg)
      reads this, strFindString
    {
      && strPYParsed == Texts(Parse(cfg, View().find))
      && strMap == Codes(cfg, Parse(cfg, View().find), USER)
      && iMode == ModeOf(cfg, Parse(cfg, View().find))
    }

    constructor (cfg: Config, size: nat)
      requires Sound(cfg)
      ensures Valid() && fresh(strFindString) && this.cfg == cfg && strFindString.Length == size
      ensures View() == Edit("", 0, [])
    {
      this.cfg := cfg;
      strFindString := new char[size];
      len, iPYInsertPoint := 0, 0;
      pySelected, strPYParsed, strMap := [], [], [];
      iMode, rawInput := PARSE_SINGLEHZ, "";
    }

    /* ----- the buffer ----- */

    /** The insertion loop: the tail moves up by one and the key goes into the gap. */
    method OpenGap(c: char)
      requires InBounds() && len < strFindString.Length
      modifies this`len, this`iPYInsertPoint, strFindString
      ensures InBounds() && View() == PutIn(old(View()), c)
    {
      ghost var before := strFindString[..len];
      var p := iPYInsertPoint;
      MoveUp(p);
      strFindString[p] := c;
      iPYInsertPoint, len := p + 1, len + 1;
      assert strFindString[..len] == strFindString[..p] + [c] + strFindString[p + 1..len];
      assert strFindString[..p] == before[..p] && strFindString[p + 1..len] == before[p..];
    }

    method MoveUp(p: nat)
      requires p <= len < strFindString.Length
      modifies strFindString
      ensures strFindString[..p] == old(strFindString[..p])
      ensures strFindString[p + 1..len + 1] == old(strFindString[p..len])
    {
      ghost var before := strFindString[..len];
      var i := len;
      while i > p
        modifies strFindString
        invariant p <= i <= len
        invariant forall k :: 0 <= k < i ==> strFindString[k] == before[k]
        invariant forall k :: i < k <= len ==> strFindString[k] == before[k - 1]
      {
        strFindString[i] := strFindString[i - 1];
        i := i - 1;
      }
    }

    /** memmove over `count` letters from `from` on. */
    method CloseGap(from: nat, count: nat)
      requires InBounds() && from + count <= len
      modifies this`len, strFindString
      ensures len == old(len) - count && len <= strFindString.Length
      ensures strFindString[..len] == Without(old(strFindString[..len]), from, count)
    {
      ghost var before := strFindString[..len];
      var i := from;
      while i + count < len
        modifies strFindString
        invariant from <= i <= len - count
        invariant forall k :: 0 <= k < from ==> strFindString[k] == before[k]
        invariant forall k :: from <= k < i ==> strFindString[k] == before[k + count]
        invariant forall k :: i <= k < len ==> strFindString[k] == before[k]
      {
        strFindString[i] := strFindString[i + count];
        i := i + 1;
      }
      len := len - count;
      assert strFindString[..len] == Without(before, from, count);
    }

    /** strcpy of a whole new find string. */
    method Store(s: string)
      requires |s| <= strFindString.Length
      modifies this`len, strFindString
      ensures len == |s| <= strFindString.Length && strFindString[..len] == s
    {
      var i := 0;
      while i < |s|
        modifies strFindString
        invariant 0 <= i <= |s|
        invariant strFindString[..i] == s[..i]
      {
        strFindString[i] := s[i];
        i := i + 1;
      }
      len := |s|;
    }

    /** ParsePY on the find string; on an empty one it is left out, see the README. */
    method Reparse()
      requires InBounds() && Sound(cfg) && WellFormed(View())
      modifies this`strPYParsed, this`strMap, this`iMode
      ensures len > 0 ==> Parsed()
    {
      if len > 0 {
        strPYParsed, strMap, iMode := ParsePY(cfg, strFindString[..len], USER);
      }
    }

    /** UpdateCodeInputPY: the raw input is rebuilt from the choices and the find string. */
    method UpdateCodeInput()
      requires InBounds()
      modifies this`rawInput
      ensures rawInput == RawInput(View())
    {
      rawInput := "";
      var i := 0;
      while i < |pySelected|
        invariant 0 <= i <= |pySelected|
        invariant rawInput == SelectedText(pySelected[..i])
      {
        assert pySelected[..i + 1][..i] == pySelected[..i];
        rawInput := rawInput + pySelected[i].py;
        i := i + 1;
      }
      assert pySelected[..i] == pySelected;
      rawInput := rawInput + strFindString[..len];
    }

    /** UpdateFindString: the first `room` pieces, with the cursor drawn back into them. */
    method UpdateFindString(room: nat)
      requires Sound(cfg) && InBounds() && Parsed() && room <= |strPYParsed|
      requires |Print(Parse(cfg, View().find))| <= len
      modifies this`len, this`iPYInsertPoint, strFindString
      ensures InBounds() && View() == CutBack(cfg, old(View()), room) && len <= old(len)
    {
      hide Parse, Texts, Print, Codes, ModeOf, WellFormed;
      ghost var ps := Parse(cfg, View().find);
      var s := Join(strPYParsed[..room]);
      JoinedTexts(ps, 0, room);
      assert ps[0..room] == ps[..room] && strPYParsed[0..room] == strPYParsed[..room];
      assert ps == ps[..room] + ps[room..];
      PrintConcat(ps[..room], ps[room..]);
      Store(s);
      if iPYInsertPoint > len { iPYInsertPoint := len; }
    }

    /** The characters chosen so far. */
    method CountTaken() returns (val: nat)
      ensures val == Taken(pySelected)
    {
      val := 0;
      var i := 0;
      while i < |pySelected|
        invariant 0 <= i <= |pySelected|
        invariant val == Taken(pySelected[..i])
      {
        assert pySelected[..i + 1][..i] == pySelected[..i];
        val := val + |pySelected[i].hz|;
        i := i + 1;
      }
      assert pySelected[..i] == pySelected;
    }

    /* ----- the keys ----- */

    /** A letter or separator key. */
    method DoInsertKey(c: char) returns (r: Verdict)
      requires Valid() && (Letter(c) || c == SEPARATOR)
      requires |rawInput| < strFindString.Length
      modifies this, strFindString
      ensures Valid()
      ensures Outcome(View(), r) == InsertKey(cfg, old(View()), c)
    {
      hide Parse, Print, Texts, Codes, ModeOf, SelectedText, Taken, Typed, Room;
      if c == SEPARATOR {
        if iPYInsertPoint == 0 { return ToProcess; }
        if strFindString[iPYInsertPoint - 1] == SEPARATOR { return DoNothing; }
      }
      hide PutIn, LimitWords;
      PutInIsTyped(View(), c);
      PutInText(View(), c);
      OpenGap(c);
      Reparse();
      r := LimitText();
      UpdateCodeInput();
    }

    /** The word limit: pieces that have no room left beside the choices are cut off. */
    method LimitText() returns (r: Verdict)
      requires InBounds() && Sound(cfg) && WellFormed(View()) && len > 0 && Parsed()
      modifies this`len, this`iPYInsertPoint, this`strPYParsed, this`strMap, this`iMode, strFindString
      ensures InBounds() && WellFormed(View()) && len <= old(len) && (len > 0 ==> Parsed())
      ensures Outcome(View(), r) == LimitWords(cfg, old(View()))
    {
      hide Parse, Print, Texts, Codes, ModeOf, Room, WellFormed, CutBack;
      var val := CountTaken();
      r := Display;
      RoomIs(pySelected);
      LimitedIs(cfg, View());
      if |strPYParsed| > MAX_WORDS_USER_INPUT - val {
        var room := if val < MAX_WORDS_USER_INPUT then MAX_WORDS_USER_INPUT - val else 0;
        UpdateFindString(room);
        Reparse();
        r := DoNothing;
      }
    }

    /** The last choice goes back in front of the find string. */
    method GlueBack(cursor: nat)
      requires Valid() && pySelected != [] && cursor <= |pySelected[|pySelected| - 1].py| + len
      modifies this, strFindString
      ensures Valid() && View() == Unselect(old(View()), cursor)
    {
      hide Parse, Texts, Codes, ModeOf, WellFormed, Typed;
      UnselectIsWellFormed(View(), cursor);
      UnselectedText(View(), cursor);
      var last := pySelected[|pySelected| - 1];
      Store(last.py + strFindString[..len]);
      iPYInsertPoint := cursor;
      pySelected := pySelected[..|pySelected| - 1];
      Reparse();
      UpdateCodeInput();
    }

    method DoBackspace() returns (r: Verdict)
      requires Valid()
      modifies this, strFindString
      ensures Valid()
      ensures Outcome(View(), r) == Backspace(old(View()))
    {
      hide Parse, Texts, Codes, ModeOf;
      if pySelected != [] {
        GlueBack(iPYInsertPoint + |pySelected[|pySelected| - 1].py|);
        return Display;
      } else if iPYInsertPoint > 0 {
        var val := if iPYInsertPoint > 1 && strFindString[iPYInsertPoint - 2] == SEPARATOR then 2 else 1;
        r := Remove(iPYInsertPoint - val, val);
      } else {
        r := if len == 0 then ToProcess else DoNothing;
      }
    }

    /** The letters taken out of the find string leave the cursor where they were. */
    method Remove(from: nat, count: nat) returns (r: Verdict)
      requires Valid() && from + count <= len
      modifies this, strFindString
      ensures Valid() && pySelected == old(pySelected) && iPYInsertPoint == from
      ensures View().find == Without(old(View().find), from, count)
      ensures r == if View().find == "" then Clean else Display
    {
      hide Parse, Texts, Codes, ModeOf, SelectedText, Typed, Without;
      WithoutIsTyped(View().find, from, count);
      CloseGap(from, count);
      iPYInsertPoint := from;
      Reparse();
      r := if len == 0 then Clean else Display;
      UpdateCodeInput();
    }

    /** The Delete key, with the cursor before the end. */
    method DoDelete() returns (r: Verdict)
      requires Valid() && iPYInsertPoint < len
      modifies this, strFindString
      ensures Valid()
      ensures Outcome(View(), r) == Delete(old(View()))
    {
      var val := if iPYInsertPoint + 1 < len && strFindString[iPYInsertPoint + 1] == SEPARATOR then 2 else 1;
      r := Remove(iPYInsertPoint, val);
    }

    method DoLeft() returns (r: Verdict)
      requires Valid()
      modifies this, strFindString
      ensures Valid()
      ensures Outcome(View(), r) == Left(old(View()))
    {
      if iPYInsertPoint == 0 {
        if pySelected != [] {
          GlueBack(|pySelected[|pySelected| - 1].py|);
          return Display;
        }
        return DoNothing;
      }
      iPYInsertPoint := iPYInsertPoint - 1;
      return Display;
    }

    method DoRight() returns (r: Verdict)
      requires Valid()
      modifies this`iPYInsertPoint
      ensures Valid()
      ensures Outcome(View(), r) == Right(old(View()))
    {
      if iPYInsertPoint == len { return DoNothing; }
      iPYInsertPoint := iPYInsertPoint + 1;
      return Display;
    }

    method DoHome()
      requires Valid()
      modifies this`iPYInsertPoint
      ensures Valid() && View() == old(View()).(cursor := 0)
    {
      iPYInsertPoint := 0;
    }

    method DoEnd()
      requires Valid()
      modifies this`iPYInsertPoint
      ensures Valid() && View() == old(View()).(cursor := |old(View()).find|)
    {
      iPYInsertPoint := len;
    }

    /** PYGetCandWord for a candidate that covers the first pieces only. */
    method PickCandidate(hz: string, code: string)
      requires Valid() && len > 0 && |hz| < |Parse(cfg, View().find)|
      modifies this, strFindString
      ensures Valid() && View() == Pick(cfg, old(View()), hz, code)
    {
      hide Parse, Print, Texts, Codes, ModeOf, Typed;
      ghost var before := View();
      ghost var ps := Parse(cfg, before.find);
      var n := |strPYParsed|;
      var head := Join(strPYParsed[..|hz|]);
      var rest := Join(strPYParsed[|hz|..n]);
      JoinedTexts(ps, 0, |hz|);
      JoinedTexts(ps, |hz|, n);
      assert n == |ps| && ps[0..|hz|] == ps[..|hz|] && ps[|hz|..n] == ps[|hz|..];
      assert strPYParsed[0..|hz|] == strPYParsed[..|hz|];
      PickKeepsWellFormed(cfg, before, hz, code);
      PickKeepsLength(cfg, before, hz, code);
      pySelected := pySelected + [Selected(head, code, hz)];
      Store(rest);
      iPYInsertPoint := len;
      Reparse();
      UpdateCodeInput();
    }
  }

  lemma WithoutIsTyped(s: string, from: nat, count: nat)
    requires Typed(s) && from + count <= |s|
    ensures Typed(Without(s, from, count)) && |Without(s, from, count)| == |s| - count
  {
  }

  lemma PutInIsTyped(e: Edit, c: char)
    requires WellFormed(e) && (Letter(c) || c == SEPARATOR)
    ensures WellFormed(PutIn(e, c))
  {
  }

  lemma PutInText(e: Edit, c: char)
    requires e.cursor <= |e.find|
    ensures |PutIn(e, c).find| == |e.find| + 1 && PutIn(e, c).selected == e.selected
  {
  }

  lemma UnselectIsWellFormed(e: Edit, cursor: nat)
    requires WellFormed(e) && e.selected != [] && cursor <= |e.selected[|e.selected| - 1].py + e.find|
    ensures WellFormed(Unselect(e, cursor))
  {
  }

  lemma UnselectedText(e: Edit, cursor: nat)
    requires e.selected != []
    ensures |RawInput(Unselect(e, cursor))| == |RawInput(e)|
    ensures |Unselect(e, cursor).find| <= |RawInput(e)|
  {
  }

  lemma {:induction false} CollapseIsShorter(s: string)
    ensures |Collapse(s)| <= |s|
  {
    if s != "" { CollapseIsShorter(s[1..]); }
  }

  lemma {:induction false} RoomIs(selected: seq<Selected>)
    ensures Room(selected) == if Taken(selected) < MAX_WORDS_USER_INPUT
      then MAX_WORDS_USER_INPUT - Taken(selected) else 0
  {
  }

  /** What the word limit leaves, and that it is in order. */
  lemma {:induction false} LimitedIs(cfg: Config, e: Edit)
    requires Sound(cfg) && WellFormed(e) && e.find != ""
    ensures var n, room := |Parse(cfg, e.find)|, Room(e.selected);
      && n > 0
      && LimitWords(cfg, e) == (if n > room then Outcome(CutBack(cfg, e, room), DoNothing) else Outcome(e, Display))
      && (n > room ==> WellFormed(CutBack(cfg, e, room)))
    ensures |Print(Parse(cfg, e.find))| <= |e.find|
  {
    hide Parse, Print, Room;
    SomePieces(cfg, e.find, false);
    ParseIsPieces(cfg, e.find);
    KeptText(cfg, e.find, Room(e.selected));
    KeptLength(cfg, e.find, 0);
  }

  lemma {:induction false} ParseIsPieces(cfg: Config, s: string)
    requires Sound(cfg)
    ensures Parse(cfg, s) == Pieces(cfg, s, false)
  {
  }

  lemma KeptLength(cfg: Config, t: string, room: nat)
    requires Sound(cfg) && Typed(t) && room <= |Parse(cfg, t)|
    ensures |Print(Parse(cfg, t)[..room])| <= |Print(Parse(cfg, t))| <= |t|
  {
    hide Pieces;
    var ps := Parse(cfg, t);
    PrintThenParse(cfg, t);
    CollapseIsShorter(t);
    assert ps == ps[..room] + ps[room..];
    PrintConcat(ps[..room], ps[room..]);
  }

  lemma PickKeepsLength(cfg: Config, e: Edit, hz: string, code: string)
    requires Sound(cfg) && WellFormed(e) && |hz| < |Parse(cfg, e.find)|
    ensures |Pick(cfg, e, hz, code).find| <= |RawInput(Pick(cfg, e, hz, code))| <= |RawInput(e)|
  {
    hide Parse;
    var ps := Parse(cfg, e.find);
    KeptLength(cfg, e.find, |hz|);
    assert ps == ps[..|hz|] + ps[|hz|..];
    PrintConcat(ps[..|hz|], ps[|hz|..]);
    assert Pick(cfg, e, hz, code).selected[..|e.selected|] == e.selected;
  }

  /** strcat over pieces. */
  method Join(texts: seq<string>) returns (s: string)
    ensures s == Concat(texts)
  {
    s := "";
    var i := 0;
    while i < |texts|
      invariant 0 <= i <= |texts|
      invariant s == Concat(texts[..i])
    {
      assert texts[..i + 1][..i] == texts[..i];
      s := s + texts[i];
      i := i + 1;
    }
    assert texts[..i] == texts;
  }

  function Concat(texts: seq<string>): string {
    if texts == [] then "" else Concat(texts[..|texts| - 1]) + texts[|texts| - 1]
  }

  lemma {:induction false} TextsOfSlice(ps: seq<Piece>, lo: nat, hi: nat)
    requires lo <= hi <= |ps|
    ensures Texts(ps)[lo..hi] == Texts(ps[lo..hi])
    decreases |ps|
  {
    hide Text;
    if hi < |ps| {
      var init := ps[..|ps| - 1];
      TextsOfSlice(init, lo, hi);
      assert init[lo..hi] == ps[lo..hi];
    } else if lo < hi {
      var init := ps[..|ps| - 1];
      TextsOfSlice(init, lo, hi - 1);
      assert init[lo..hi - 1] == ps[lo..hi][..hi - lo - 1];
    }
  }

  lemma PrintOne(p: Piece)
    ensures Print([p]) == Text(p)
  {
    assert [p][1..] == [];
  }

  lemma {:induction false} ConcatIsPrint(ps: seq<Piece>)
    ensures Concat(Texts(ps)) == Print(ps)
    decreases |ps|
  {
    hide Text;
    if ps != [] {
      var init, last := ps[..|ps| - 1], ps[|ps| - 1];
      ConcatIsPrint(init);
      assert ps == init + [last];
      PrintConcat(init, [last]);
      PrintOne(last);
      assert (Texts(init) + [Text(last)])[..|init|] == Texts(init);
    }
  }

  lemma {:induction false} JoinedTexts(ps: seq<Piece>, lo: nat, hi: nat)
    requires lo <= hi <= |ps|
    ensures Concat(Texts(ps)[lo..hi]) == Print(ps[lo..hi])
  {
    TextsOfSlice(ps, lo, hi);
    ConcatIsPrint(ps[lo..hi]);
  }
}
