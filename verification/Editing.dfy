/** The editing state of full pinyin on values: the typed text, the cursor and the pieces
    already chosen, and what each key does to them (src/im/pinyin/py.c:540-690, 1165-1300). */
module Editing {
  import opened PyMapTable
  import opened Pyfa
  import opened PyParser
  import opened ParsePy

  const MAX_WORDS_USER_INPUT := 32

  /** One choice of the user: the pinyin it covers, its code (strMap) and its characters. */
  datatype Selected = Selected(py: string, strMap: string, hz: string)

  datatype Edit = Edit(find: string, cursor: nat, selected: seq<Selected>)

  /** What a key press tells the framework; Clean makes it reset the input method. */
  datatype Verdict = ToProcess | DoNothing | Display | Clean

  datatype Outcome = Outcome(edit: Edit, verdict: Verdict)

  function SelectedText(selected: seq<Selected>): string {
    if selected == [] then "" else SelectedText(selected[..|selected| - 1]) + selected[|selected| - 1].py
  }

  /** The characters chosen so far, one for every piece covered. */
  function Taken(selected: seq<Selected>): nat {
    if selected == [] then 0 else Taken(selected[..|selected| - 1]) + |selected[|selected| - 1].hz|
  }

  /** The raw input buffer: what was chosen from, then the text still open. */
  function RawInput(e: Edit): string {
    SelectedText(e.selected) + e.find
  }

  ghost predicate WellFormed(e: Edit) {
    && e.cursor <= |e.find|
    && Typed(e.find)
    && forall i :: 0 <= i < |e.selected| ==> Typed(e.selected[i].py)
  }

  /* ----- the keys ----- */

  /** How many pieces there is room for beside the choices. */
  function Room(selected: seq<Selected>): nat {
    if Taken(selected) < MAX_WORDS_USER_INPUT then MAX_WORDS_USER_INPUT - Taken(selected) else 0
  }

  /** A letter or separator at the cursor.  A separator needs something other than a
      separator in front of it; text beyond the word limit is cut off behind a piece, and all
      of it when the choices alone reach the limit. */
  ghost function InsertKey(cfg: Config, e: Edit, c: char): (o: Outcome)
    requires Sound(cfg) && WellFormed(e) && (Letter(c) || c == SEPARATOR)
  {
    if c == SEPARATOR && e.cursor == 0 then Outcome(e, ToProcess)
    else if c == SEPARATOR && e.find[e.cursor - 1] == SEPARATOR then Outcome(e, DoNothing)
    else LimitWords(cfg, PutIn(e, c))
  }

  /** The key goes in at the cursor. */
  function PutIn(e: Edit, c: char): Edit
    requires e.cursor <= |e.find|
  {
    Edit(e.find[..e.cursor] + [c] + e.find[e.cursor..], e.cursor + 1, e.selected)
  }

  /** The first pieces, with the cursor drawn back into them. */
  ghost function CutBack(cfg: Config, e: Edit, room: nat): Edit
    requires Sound(cfg) && room <= |Parse(cfg, e.find)|
  {
    var kept := Print(Parse(cfg, e.find)[..room]);
    Edit(kept, if e.cursor > |kept| then |kept| else e.cursor, e.selected)
  }

  ghost function LimitWords(cfg: Config, e: Edit): (o: Outcome)
    requires Sound(cfg)
  {
    var room := Room(e.selected);
    if |Parse(cfg, e.find)| > room then Outcome(CutBack(cfg, e, room), DoNothing) else Outcome(e, Display)
  }

  /** The last choice is taken back and its pinyin put in front of the open text. */
  function Unselect(e: Edit, cursor: nat): Edit
    requires e.selected != []
  {
    var last := |e.selected| - 1;
    Edit(e.selected[last].py + e.find, cursor, e.selected[..last])
  }

  function Without(s: string, from: nat, count: nat): string
    requires from + count <= |s|
  {
    s[..from] + s[from + count..]
  }

  function EmptyIsClean(e: Edit): Outcome {
    Outcome(e, if e.find == "" then Clean else Display)
  }

  /** Backspace takes the last choice back, else removes the letter before the cursor
      together with a separator in front of that letter. */
  function Backspace(e: Edit): Outcome
    requires e.cursor <= |e.find|
  {
    if e.selected != [] then
      Outcome(Unselect(e, e.cursor + |e.selected[|e.selected| - 1].py|), Display)
    else if e.cursor > 0 then
      var n := if e.cursor > 1 && e.find[e.cursor - 2] == SEPARATOR then 2 else 1;
      EmptyIsClean(Edit(Without(e.find, e.cursor - n, n), e.cursor - n, e.selected))
    else Outcome(e, if e.find == "" then ToProcess else DoNothing)
  }

  /** Delete removes the letter at the cursor together with a separator behind it. */
  function Delete(e: Edit): Outcome
    requires e.cursor < |e.find|
  {
    var n := if e.cursor + 1 < |e.find| && e.find[e.cursor + 1] == SEPARATOR then 2 else 1;
    EmptyIsClean(Edit(Without(e.find, e.cursor, n), e.cursor, e.selected))
  }

  function Left(e: Edit): Outcome {
    if e.cursor == 0 then
      if e.selected == [] then Outcome(e, DoNothing)
      else Outcome(Unselect(e, |e.selected[|e.selected| - 1].py|), Display)
    else Outcome(e.(cursor := e.cursor - 1), Display)
  }

  function Right(e: Edit): Outcome {
    if e.cursor == |e.find| then Outcome(e, DoNothing) else Outcome(e.(cursor := e.cursor + 1), Display)
  }

  /** A candidate that covers the first pieces only: they move to the choices, the text of
      the other pieces stays open, and the cursor goes to its end. */
  ghost function Pick(cfg: Config, e: Edit, hz: string, strMap: string): Edit
    requires Sound(cfg) && |hz| < |Parse(cfg, e.find)|
  {
    var ps := Parse(cfg, e.find);
    var rest := Print(ps[|hz|..]);
    Edit(rest, |rest|, e.selected + [Selected(Print(ps[..|hz|]), strMap, hz)])
  }

  /* ----- what the keys keep ----- */

  lemma PrintIsTyped(cfg: Config, s: string, lo: nat, hi: nat)
    requires Sound(cfg) && Typed(s) && lo <= hi <= |Parse(cfg, s)|
    ensures Typed(Print(Parse(cfg, s)[lo..hi]))
    ensures Print(Parse(cfg, s)) ==
      Print(Parse(cfg, s)[..lo]) + Print(Parse(cfg, s)[lo..hi]) + Print(Parse(cfg, s)[hi..])
  {
    hide Parse, Print, Collapse, Typed;
    var ps := Parse(cfg, s);
    PrintThenParse(cfg, s);
    CollapseIsTyped(s);
    assert ps[..hi] + ps[hi..] == ps && ps[..lo] + ps[lo..hi] == ps[..hi];
    PrintConcat(ps[..hi], ps[hi..]);
    PrintConcat(ps[..lo], ps[lo..hi]);
    PartIsTyped(Print(ps[..lo]), Print(ps[lo..hi]), Print(ps[hi..]));
  }

  lemma PartIsTyped(head: string, mid: string, tail: string)
    requires Typed(head + mid + tail)
    ensures Typed(mid)
  {
    assert forall i :: 0 <= i < |mid| ==> mid[i] == (head + mid + tail)[|head| + i];
  }

  lemma {:induction false} CollapseIsTyped(s: string)
    requires Typed(s)
    ensures Typed(Collapse(s)) && (s != "" ==> Collapse(s) != "")
  {
    if s != "" {
      CollapseIsTyped(s[1..]);
      CollapseHead(s);
    }
  }

  lemma PiecesAreText(cfg: Config, s: string, lo: nat, hi: nat)
    requires Sound(cfg) && Typed(s) && lo < hi <= |Parse(cfg, s)|
    ensures Print(Parse(cfg, s)[lo..hi]) != ""
  {
    var left, mark := TailIsParse(cfg, s, false, lo);
    var ps := Parse(cfg, s);
    assert ps[lo..hi][0] == ps[lo..][0];
    FirstPieceIsText(cfg, left, mark);
  }

  lemma {:induction false} FirstPieceIsText(cfg: Config, s: string, sep: bool)
    requires Sound(cfg) && Typed(s) && Pieces(cfg, s, sep) != []
    ensures Text(Pieces(cfg, s, sep)[0]) != ""
    decreases |s|
  {
    hide NextCut;
    if s != "" && NextCut(cfg, s).Skip? { FirstPieceIsText(cfg, s[1..], true); }
  }

  /** Every key keeps the cursor inside the text and the text typed. */
  lemma KeysKeepWellFormed(e: Edit)
    requires WellFormed(e)
    ensures WellFormed(Backspace(e).edit) && WellFormed(Left(e).edit) && WellFormed(Right(e).edit)
    ensures e.cursor < |e.find| ==> WellFormed(Delete(e).edit)
  {
  }

  lemma InsertKeepsWellFormed(cfg: Config, e: Edit, c: char)
    requires Sound(cfg) && WellFormed(e) && (Letter(c) || c == SEPARATOR)
    ensures WellFormed(InsertKey(cfg, e, c).edit)
    ensures InsertKey(cfg, e, c).edit.find == "" ==> e.find == "" || Room(e.selected) == 0
  {
    hide Parse, Print, Pieces, Room;
    var t := e.find[..e.cursor] + [c] + e.find[e.cursor..];
    KeptText(cfg, t, Room(e.selected));
  }

  lemma KeptText(cfg: Config, t: string, room: nat)
    requires Sound(cfg) && Typed(t)
    ensures |Parse(cfg, t)| > room ==> Typed(Print(Parse(cfg, t)[..room]))
    ensures |Parse(cfg, t)| > room > 0 ==> Print(Parse(cfg, t)[..room]) != ""
  {
    hide Pieces, NextCut;
    if |Parse(cfg, t)| > room {
      PrintIsTyped(cfg, t, 0, room);
      if room > 0 { PiecesAreText(cfg, t, 0, room); }
      assert Parse(cfg, t)[0..room] == Parse(cfg, t)[..room];
    }
  }

  lemma PickKeepsWellFormed(cfg: Config, e: Edit, hz: string, strMap: string)
    requires Sound(cfg) && WellFormed(e) && |hz| < |Parse(cfg, e.find)|
    ensures WellFormed(Pick(cfg, e, hz, strMap)) && Pick(cfg, e, hz, strMap).find != ""
    ensures Parse(cfg, Pick(cfg, e, hz, strMap).find) == Parse(cfg, e.find)[|hz|..]
  {
    hide Pieces, NextCut;
    var ps := Parse(cfg, e.find);
    PrintIsTyped(cfg, e.find, 0, |hz|);
    PrintIsTyped(cfg, e.find, |hz|, |ps|);
    PiecesAreText(cfg, e.find, |hz|, |ps|);
    assert ps[0..|hz|] == ps[..|hz|] && ps[|hz|..|ps|] == ps[|hz|..];
    SuffixStable(cfg, e.find, |hz|);
  }

  /* ----- what each key does to the text ----- */

  /** With nothing chosen Backspace takes the character in front of the cursor and a separator in
      front of that one. */
  lemma BackspaceTakes(u: string, m: string, c: char, v: string)
    requires m == [SEPARATOR] || (m == "" && (u == "" || u[|u| - 1] != SEPARATOR))
    ensures Backspace(Edit(u + m + [c] + v, |u + m| + 1, [])) ==
      Outcome(Edit(u + v, |u|, []), if u + v == "" then Clean else Display)
  {
    var s := u + m + [c] + v;
    assert s[..|u|] == u && s[|u + m| + 1..] == v;
    assert |u + m| > 0 ==> s[|u + m| - 1] == (u + m)[|u + m| - 1];
  }

  /** At the front of the text it takes nothing. */
  lemma BackspaceAtFront(v: string)
    ensures Backspace(Edit(v, 0, [])) == Outcome(Edit(v, 0, []), if v == "" then ToProcess else DoNothing)
  {
  }

  /** Delete takes the character at the cursor and a separator behind it, whatever is chosen. */
  lemma DeleteTakes(u: string, c: char, m: string, v: string, chosen: seq<Selected>)
    requires m == [SEPARATOR] || (m == "" && (v == "" || v[0] != SEPARATOR))
    ensures Delete(Edit(u + [c] + m + v, |u|, chosen)) ==
      Outcome(Edit(u + v, |u|, chosen), if u + v == "" then Clean else Display)
  {
    var s := u + [c] + m + v;
    assert s[..|u|] == u && s[|u| + 1 + |m|..] == v;
    assert m == "" && v != "" ==> s[|u| + 1] == v[0];
  }

  /** With choices Backspace, and Left at the front of the text, put the pinyin of the last one in
      front of the text; the cursor stays where it was in the text, or comes to its front. */
  lemma TakenBack(find: string, cursor: nat, before: seq<Selected>, x: Selected)
    requires cursor <= |find|
    ensures Backspace(Edit(find, cursor, before + [x])) ==
      Outcome(Edit(x.py + find, |x.py| + cursor, before), Display)
    ensures Left(Edit(find, 0, before + [x])) == Outcome(Edit(x.py + find, |x.py|, before), Display)
  {
    assert (before + [x])[..|before|] == before;
  }

  /** Left and Right move by one character as long as there is one. */
  lemma MovesByOne(u: string, c: char, v: string, chosen: seq<Selected>)
    ensures Right(Edit(u + [c] + v, |u|, chosen)) == Outcome(Edit(u + [c] + v, |u| + 1, chosen), Display)
    ensures Left(Edit(u + [c] + v, |u| + 1, chosen)) == Outcome(Edit(u + [c] + v, |u|, chosen), Display)
    ensures Right(Edit(u, |u|, chosen)) == Outcome(Edit(u, |u|, chosen), DoNothing)
    ensures Left(Edit(u, 0, [])) == Outcome(Edit(u, 0, []), DoNothing)
  {
  }

  /** A letter goes in between what is in front of the cursor and what is behind it, and so does a
      separator, but not at the front nor behind another one. */
  lemma InsertGoesBetween(cfg: Config, u: string, c: char, v: string, chosen: seq<Selected>)
    requires Sound(cfg) && WellFormed(Edit(u + v, |u|, chosen)) && (Letter(c) || c == SEPARATOR)
    ensures var o := InsertKey(cfg, Edit(u + v, |u|, chosen), c);
      if c == SEPARATOR && u == "" then o == Outcome(Edit(u + v, |u|, chosen), ToProcess)
      else if c == SEPARATOR && u[|u| - 1] == SEPARATOR then o == Outcome(Edit(u + v, |u|, chosen), DoNothing)
      else if |Parse(cfg, u + [c] + v)| <= Room(chosen) then o == Outcome(Edit(u + [c] + v, |u| + 1, chosen), Display)
      else o.verdict == DoNothing && o.edit.find == Print(Parse(cfg, u + [c] + v)[..Room(chosen)])
  {
    hide Parse, Print, Room;
    assert (u + v)[..|u|] == u && (u + v)[|u|..] == v;
    assert u != "" ==> (u + v)[|u| - 1] == u[|u| - 1];
  }

  /** The room is what the characters chosen leave of 32. */
  lemma RoomLeft(chosen: seq<Selected>, x: Selected)
    ensures Taken([]) == 0 && Room([]) == 32
    ensures Taken(chosen + [x]) == Taken(chosen) + |x.hz|
    ensures Room(chosen) > 0 ==> Room(chosen) + Taken(chosen) == 32
    ensures Room(chosen) == 0 <==> Taken(chosen) >= 32
  {
    assert (chosen + [x])[..|chosen|] == chosen;
  }

  /* ----- choosing and taking back ----- */

  /** Backspace undoes a pick: the open text is the one before the pick with its separator
      runs collapsed, it parses into the same pieces, and the cursor stands at its end. */
  lemma BackspaceUndoesPick(cfg: Config, e: Edit, hz: string, strMap: string)
    requires Sound(cfg) && WellFormed(e) && |hz| < |Parse(cfg, e.find)|
    ensures var back := Backspace(Pick(cfg, e, hz, strMap)).edit;
      && back == Edit(Collapse(e.find), |Collapse(e.find)|, e.selected)
      && Parse(cfg, back.find) == Parse(cfg, e.find)
    ensures var chosen := Pick(cfg, e, hz, strMap).selected;
      |chosen| == |e.selected| + 1 && chosen[|e.selected|].hz == hz && chosen[|e.selected|].strMap == strMap
  {
    hide Pieces, NextCut;
    var ps := Parse(cfg, e.find);
    assert ps == ps[..|hz|] + ps[|hz|..];
    PrintConcat(ps[..|hz|], ps[|hz|..]);
    PrintThenParse(cfg, e.find);
    assert Pick(cfg, e, hz, strMap).selected[..|e.selected|] == e.selected;
  }

  /** The moves that only look around: choosing candidates, taking choices back, and
      moving the cursor. */
  datatype Move = Choose(hz: string, strMap: string) | TakeBack | GoLeft | GoRight | GoHome | GoEnd

  ghost function Browse(cfg: Config, e: Edit, m: Move): Edit
    requires Sound(cfg) && e.cursor <= |e.find|
  {
    match m
    case Choose(hz, strMap) => if 0 < |hz| < |Parse(cfg, e.find)| then Pick(cfg, e, hz, strMap) else e
    case TakeBack => if e.selected != [] then Backspace(e).edit else e
    case GoLeft => Left(e).edit
    case GoRight => Right(e).edit
    case GoHome => e.(cursor := 0)
    case GoEnd => e.(cursor := |e.find|)
  }

  ghost function Run(cfg: Config, e: Edit, moves: seq<Move>): (r: Edit)
    requires Sound(cfg) && e.cursor <= |e.find|
    ensures r.cursor <= |r.find|
    decreases |moves|
  {
    if moves == [] then e else Browse(cfg, Run(cfg, e, moves[..|moves| - 1]), moves[|moves| - 1])
  }

  /** The choices cover the pieces one after the other, from the first one on. */
  ghost predicate Covers(selected: seq<Selected>, ps: seq<Piece>) {
    Taken(selected) <= |ps| && (selected != [] ==>
      (var before := selected[..|selected| - 1];
       Covers(before, ps) && selected[|selected| - 1].py == Print(ps[Taken(before)..Taken(selected)])))
  }

  /** The state is the text s with some first pieces chosen and the others still open. */
  ghost predicate Browsed(cfg: Config, s: string, e: Edit)
    requires Sound(cfg)
  {
    var ps := Parse(cfg, s);
    Covers(e.selected, ps) && (e.find == Print(ps[Taken(e.selected)..]) || (e.selected == [] && e.find == s))
  }

  lemma {:induction false} CoveredText(selected: seq<Selected>, ps: seq<Piece>)
    requires Covers(selected, ps)
    ensures SelectedText(selected) == Print(ps[..Taken(selected)])
    decreases |selected|
  {
    if selected != [] {
      var before := selected[..|selected| - 1];
      CoveredText(before, ps);
      PrintConcat(ps[..Taken(before)], ps[Taken(before)..Taken(selected)]);
      assert ps[..Taken(selected)] == ps[..Taken(before)] + ps[Taken(before)..Taken(selected)];
    }
  }

  lemma {:induction false} BrowsedFacts(cfg: Config, s: string, e: Edit)
    requires Sound(cfg) && Typed(s) && Browsed(cfg, s, e)
    ensures Parse(cfg, e.find) == Parse(cfg, s)[Taken(e.selected)..]
    ensures RawInput(e) == Collapse(s) || (e.selected == [] && RawInput(e) == s)
  {
    hide Parse, Print, Collapse;
    var ps := Parse(cfg, s);
    var n := Taken(e.selected);
    PrintThenParse(cfg, s);
    SuffixStable(cfg, s, n);
    CoveredText(e.selected, ps);
    PrintConcat(ps[..n], ps[n..]);
    assert ps[..n] + ps[n..] == ps;
    if e.selected == [] { assert ps[0..] == ps && RawInput(e) == e.find; }
  }

  lemma BrowseStep(cfg: Config, s: string, e: Edit, m: Move)
    requires Sound(cfg) && Typed(s) && Browsed(cfg, s, e) && e.cursor <= |e.find|
    ensures Browsed(cfg, s, Browse(cfg, e, m))
  {
    hide Parse, Print, Pieces;
    if m.Choose? && 0 < |m.hz| < |Parse(cfg, e.find)| {
      ChooseStep(cfg, s, e, m.hz, m.strMap);
    } else if e.selected != [] && (m.TakeBack? || (m.GoLeft? && e.cursor == 0)) {
      TakeBackStep(cfg, s, e);
    }
  }

  lemma ChooseStep(cfg: Config, s: string, e: Edit, hz: string, strMap: string)
    requires Sound(cfg) && Typed(s) && Browsed(cfg, s, e) && |hz| < |Parse(cfg, e.find)|
    ensures Browsed(cfg, s, Pick(cfg, e, hz, strMap))
  {
    hide Pieces, NextCut;
    var ps := Parse(cfg, s);
    var n, k := Taken(e.selected), |hz|;
    BrowsedFacts(cfg, s, e);
    assert Pick(cfg, e, hz, strMap).selected[..|e.selected|] == e.selected;
    assert ps[n..][..k] == ps[n..n + k] && ps[n..][k..] == ps[n + k..];
  }

  lemma TakeBackStep(cfg: Config, s: string, e: Edit)
    requires Sound(cfg) && Browsed(cfg, s, e) && e.selected != []
    ensures forall cursor: nat :: Browsed(cfg, s, Unselect(e, cursor))
  {
    hide Pieces, NextCut, Parse;
    var ps := Parse(cfg, s);
    var before := e.selected[..|e.selected| - 1];
    var k, n := Taken(before), Taken(e.selected);
    PrintConcat(ps[k..n], ps[n..]);
    assert ps[k..n] + ps[n..] == ps[k..];
  }

  /** Browsing never changes what was typed: after any run of choices, steps back and cursor
      moves the open text parses into exactly the pieces not chosen, the raw input is the
      typed text up to collapsed separators, and once every choice is taken back the whole
      parse is there again. */
  lemma {:induction false} BrowsingKeepsParse(cfg: Config, e: Edit, moves: seq<Move>)
    requires Sound(cfg) && WellFormed(e) && e.selected == []
    ensures var r := Run(cfg, e, moves);
      && Browsed(cfg, e.find, r)
      && Taken(r.selected) <= |Parse(cfg, e.find)|
      && Parse(cfg, r.find) == Parse(cfg, e.find)[Taken(r.selected)..]
      && Collapse(RawInput(r)) == Collapse(e.find)
      && (r.selected == [] ==> Parse(cfg, r.find) == Parse(cfg, e.find))
    decreases |moves|
  {
    hide Pieces, NextCut;
    var r := Run(cfg, e, moves);
    if moves != [] {
      var last := |moves| - 1;
      BrowsingKeepsParse(cfg, e, moves[..last]);
      BrowseStep(cfg, e.find, Run(cfg, e, moves[..last]), moves[last]);
    }
    BrowsedFacts(cfg, e.find, r);
    CollapseTwice(e.find);
    if r.selected == [] { assert Parse(cfg, e.find)[0..] == Parse(cfg, e.find); }
  }

  lemma {:induction false} CollapseTwice(s: string)
    ensures Collapse(Collapse(s)) == Collapse(s)
  {
    if s != "" {
      CollapseTwice(s[1..]);
      if !(s[0] == SEPARATOR && |s| > 1 && s[1] == SEPARATOR) {
        var c := Collapse(s[1..]);
        if |s| > 1 { CollapseHead(s[1..]); }
        assert ([s[0]] + c)[1..] == c;
        assert |s| == 1 ==> c == "";
      }
    }
  }
}
