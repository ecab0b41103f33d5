/** CreatePYPhrase: the phrases of every character kept sorted and without repeats, and their
    numbers, which run against the order of insertion (tools/cli/createPYMB.c:173-294). */
module PhraseLists {
  import opened Order
  import opened Keyed
  import opened PyMapTable
  import opened Pyfa
  import opened PyParser
  import opened ParsePy

  /** What two phrases of one character are compared by: codes and text behind the first. */
  datatype Key = Key(strMap: string, strPhrase: string)

  datatype Phrase = Phrase(key: Key, uIndex: nat)

  /** An input line: spelling and text. */
  datatype Line = Line(py: string, text: string)

  /** An accepted line: the codes of all its pieces, and its text. */
  datatype Reading = Reading(strMap: string, text: string)

  /** One character of one group, with its list of phrases. */
  class PyBase {
    const group: nat
    const code: string
    const strHZ: char
    var phrase: seq<Phrase>

    constructor (group: nat, code: string, strHZ: char)
      ensures this.group == group && this.code == code && this.strHZ == strHZ && phrase == []
    {
      this.group, this.code, this.strHZ, phrase := group, code, strHZ, [];
    }
  }

  function MapKey(): Phrase -> string {
    (e: Phrase) => e.key.strMap
  }

  function Keys(l: seq<Phrase>): (r: seq<Key>)
    ensures |r| == |l| && forall i :: 0 <= i < |l| ==> r[i] == l[i].key
  {
    if l == [] then [] else Keys(l[..|l| - 1]) + [l[|l| - 1].key]
  }

  /* ----- reading the lines ----- */

  function MapText(codes: seq<MapResult>): (r: string)
    requires AllCoded(codes)
    ensures |r| == 2 * |codes|
  {
    if codes == [] then ""
    else
      var last := codes[|codes| - 1];
      MapText(codes[..|codes| - 1]) + [last.first, last.second]
  }

  /** What the compiler runs with: the parser's tables, and strlen of a text in bytes. */
  ghost predicate Ready(cfg: Config) {
    Sound(cfg) && CodedTable(cfg)
  }

  const MIN_BYTES := 3

  /** Three bytes or more, one piece for each character, and a mode without the abbreviation
      bit; a parse with an error has no bit set. */
  ghost predicate Accepted(cfg: Config, strlen: string -> nat, line: Line)
    requires Sound(cfg) && line.py != ""
  {
    var ps := Parse(cfg, line.py);
    strlen(line.text) >= MIN_BYTES && |ps| == |line.text| && ModeOf(cfg, ps) < PARSE_ABBR
  }

  /** A line of three bytes of text or more with one piece for each character is accepted if and
      only if no piece is a bare initial, or an error covers it up: some piece is a bare final, or
      full pinyin is demanded. */
  lemma AcceptedExactly(cfg: Config, strlen: string -> nat, line: Line)
    requires Sound(cfg) && line.py != ""
    ensures var ps := Parse(cfg, line.py);
      Accepted(cfg, strlen, line) <==>
        && strlen(line.text) >= 3 && |ps| == |line.text|
        && (cfg.fullPY || !AnyInitial(ps) || exists i :: 0 <= i < |ps| && ps[i].kind == BareFinal)
  {
    hide Parse, ModeOf;
    ModeMeans(cfg, Parse(cfg, line.py));
  }

  /** So an abbreviated spelling is taken: where no syllable begins "b'i" or is "i", the pieces of
      "b'i" are a bare initial and a bare final. */
  lemma AbbreviationAccepted(cfg: Config, strlen: string -> nat, text: string)
    requires Sound(cfg) && cfg.initials == INITIALS && cfg.finals == FINALS && !cfg.fullPY
    requires FirstRow(cfg, "b'i", true) == -1 && FirstRow(cfg, "i", true) == -1
    requires |text| == 2 && strlen(text) >= MIN_BYTES
    ensures AnyInitial(Parse(cfg, "b'i")) && Accepted(cfg, strlen, Line("b'i", text))
  {
    hide Parse, Sound, FirstRow;
    InitialBCut(cfg, "b'i");
    BareFinalCut(cfg, "i");
    TwoBarePieces(cfg, "b'i");
    var ps := Parse(cfg, "b'i");
    assert ps[0].kind == BareInitial && Faulty(cfg, ps[1]);
  }

  lemma TwoBarePieces(cfg: Config, s: string)
    requires Sound(cfg) && s == "b'i"
    requires NextCut(cfg, s) == Cut("b", BareInitial) && NextCut(cfg, "i") == Cut("i", BareFinal)
    ensures Parse(cfg, s) == [Piece(false, "b", BareInitial), Piece(true, "i", BareFinal)]
  {
    hide Sound, NextCut;
    LettersAreCut(cfg, "'i");
    assert s[1..] == "'i" && "'i"[1..] == "i" && "i"[1..] == "";
    assert Pieces(cfg, "i", true) == [Piece(true, "i", BareFinal)] + Pieces(cfg, "", false);
    assert Parse(cfg, s) == [Piece(false, "b", BareInitial)] + Pieces(cfg, "'i", false);
  }

  /** Lines of typed spellings and texts. */
  ghost predicate Readable(line: Line) {
    line.py != "" && Typed(line.py) && line.text != ""
  }

  ghost predicate AllReadable(lines: seq<Line>) {
    forall i :: 0 <= i < |lines| ==> Readable(lines[i])
  }

  /** The code of the whole spelling. */
  ghost function CodeOfLine(cfg: Config, line: Line): string
    requires Ready(cfg) && Readable(line)
  {
    ParseIsCoded(cfg, line.py, SYSTEM);
    MapText(Codes(cfg, Parse(cfg, line.py), SYSTEM))
  }

  ghost function Readings(cfg: Config, strlen: string -> nat, lines: seq<Line>): seq<Reading>
    requires Ready(cfg) && AllReadable(lines)
  {
    if lines == [] then []
    else
      var last := lines[|lines| - 1];
      Readings(cfg, strlen, lines[..|lines| - 1])
      + if Accepted(cfg, strlen, last) then [Reading(CodeOfLine(cfg, last), last.text)] else []
  }

  method ReadLine(cfg: Config, strlen: string -> nat, line: Line) returns (reading: Option<Reading>)
    requires Ready(cfg) && Readable(line)
    ensures reading.Some? <==> Accepted(cfg, strlen, line)
    ensures reading.Some? ==> reading.value == Reading(CodeOfLine(cfg, line), line.text)
  {
    hide Parse, Codes, Texts, ModeOf, CodedTable;
    if strlen(line.text) < MIN_BYTES { return None; }
    var texts, codes, iMode := ParsePY(cfg, line.py, SYSTEM);
    ModeBits(cfg, Parse(cfg, line.py));
    if |texts| != |line.text| || iMode / PARSE_ABBR % 2 == 1 { return None; }
    ParseIsCoded(cfg, line.py, SYSTEM);
    var strMap := Join(codes);
    reading := Some(Reading(strMap, line.text));
  }

  lemma ModeBits(cfg: Config, ps: seq<Piece>)
    ensures ModeOf(cfg, ps) < 2 * PARSE_ABBR
    ensures ModeOf(cfg, ps) / PARSE_ABBR % 2 == 1 <==> ModeOf(cfg, ps) >= PARSE_ABBR
  {
  }

  method Join(codes: seq<MapResult>) returns (strMap: string)
    requires AllCoded(codes)
    ensures strMap == MapText(codes)
  {
    strMap := "";
    var i := 0;
    while i < |codes|
      invariant 0 <= i <= |codes| && strMap == MapText(codes[..i])
    {
      assert codes[..i + 1][..i] == codes[..i];
      strMap := strMap + [codes[i].first, codes[i].second];
      i := i + 1;
    }
    assert codes[..i] == codes;
  }

  /* ----- the lists ----- */

  predicate Matches(r: Reading, code: string, strHZ: char) {
    |r.strMap| >= 2 && r.text != "" && r.strMap[..2] == code && r.text[0] == strHZ
  }

  /** The phrases asked for a character of a group, in order, repeats and all. */
  function Requests(readings: seq<Reading>, code: string, strHZ: char): seq<Key> {
    if readings == [] then []
    else
      var r := readings[|readings| - 1];
      Requests(readings[..|readings| - 1], code, strHZ)
      + if Matches(r, code, strHZ) then [Key(r.strMap[2..], r.text[1..])] else []
  }

  /** The insertions in the order they were made: entry u was given the number u. */
  datatype Insertion = Insertion(b: nat, key: Key)

  function Of(log: seq<Insertion>, b: nat): seq<Phrase> {
    if log == [] then []
    else
      var u := |log| - 1;
      Of(log[..u], b) + if log[u].b == b then [Phrase(log[u].key, u)] else []
  }

  /** The list of character b: the first of each request, sorted by codes, equal codes in the
      order of insertion, with the numbers they were given. */
  ghost predicate Keeps(list: seq<Phrase>, log: seq<Insertion>, b: nat, requests: seq<Key>) {
    StableSort(MapKey(), Of(log, b), list) && Keys(Of(log, b)) == Dedup(requests)
  }

  /** The search and the insertion for one character. */
  method InsertInto(base: PyBase, key: Key, uIndex: nat) returns (inserted: bool)
    requires Sorted(MapKey(), base.phrase)
    modifies base
    ensures inserted <==> key !in Keys(old(base.phrase))
    ensures !inserted ==> base.phrase == old(base.phrase)
    ensures inserted ==> Sorted(MapKey(), base.phrase)
    ensures inserted ==>
      forall k :: OfKey(MapKey(), base.phrase, k) == OfKey(MapKey(), old(base.phrase) + [Phrase(key, uIndex)], k)
  {
    hide OfKey;
    var l := base.phrase;
    var j := 0;
    while j < |l|
      invariant 0 <= j <= |l|
      invariant forall i :: 0 <= i < j ==> l[i].key != key && Le(l[i].key.strMap, key.strMap)
    {
      if l[j].key == key {
        assert Keys(l)[j] == key;
        return false;
      }
      if Lt(key.strMap, l[j].key.strMap) { break; }
      j := j + 1;
    }
    forall i | j <= i < |l|
      ensures Lt(key.strMap, l[i].key.strMap)
    {
      if Le(l[i].key.strMap, key.strMap) && i > j { LeTransitive(l[j].key.strMap, l[i].key.strMap, key.strMap); }
    }
    LeReflexive(key.strMap);
    var e := Phrase(key, uIndex);
    FitsKeepsSorted(MapKey(), l, e, j);
    forall k { FitsAppends(MapKey(), l, e, j, k); }
    base.phrase := l[..j] + [e] + l[j..];
    inserted := true;
  }

  /* ----- one line, every character ----- */

  lemma {:induction false} OfOther(log: seq<Insertion>, b: nat, key: Key, c: nat)
    requires b != c
    ensures Of(log + [Insertion(b, key)], c) == Of(log, c)
  {
    assert (log + [Insertion(b, key)])[..|log|] == log;
  }

  lemma KeepsOther(list: seq<Phrase>, log: seq<Insertion>, b: nat, key: Key, c: nat, requests: seq<Key>)
    requires Keeps(list, log, c, requests) && b != c
    ensures Keeps(list, log + [Insertion(b, key)], c, requests)
  {
    OfOther(log, b, key, c);
  }

  /** The keys in a list are the keys asked for. */
  lemma {:induction false} KeysAsked(list: seq<Phrase>, log: seq<Insertion>, b: nat, requests: seq<Key>, key: Key)
    requires Keeps(list, log, b, requests)
    ensures key in Keys(list) <==> key in requests
  {
    hide Sorted, OfKey, Dedup, StableSort, Of;
    var of := Of(log, b);
    DedupMembers(requests, key);
    StableSortDistinct(MapKey(), of, list);
    if i :| 0 <= i < |list| && list[i].key == key {
      assert list[i] in of;
      var k :| 0 <= k < |of| && of[k] == list[i];
      assert Keys(of)[k] == key;
    }
    if k :| 0 <= k < |of| && of[k].key == key {
      assert of[k] in list;
      var i :| 0 <= i < |list| && list[i] == of[k];
      assert Keys(list)[i] == key;
    }
  }

  lemma {:induction false} KeepsRequest(was: seq<Phrase>, list: seq<Phrase>, log: seq<Insertion>, b: nat,
      requests: seq<Key>, key: Key)
    requires Keeps(was, log, b, requests) && key !in requests
    requires Sorted(MapKey(), list)
    requires forall k :: OfKey(MapKey(), list, k) == OfKey(MapKey(), was + [Phrase(key, |log|)], k)
    ensures Keeps(list, log + [Insertion(b, key)], b, requests + [key])
  {
    hide OfKey, Sorted;
    var e, more := Phrase(key, |log|), log + [Insertion(b, key)];
    assert more[..|log|] == log;
    var of := Of(log, b);
    assert Of(more, b) == of + [e];
    forall k ensures OfKey(MapKey(), list, k) == OfKey(MapKey(), of + [e], k) {
      OfKeyConcat(MapKey(), was, [e], k);
      OfKeyConcat(MapKey(), of, [e], k);
    }
    assert Keys(of + [e]) == Keys(of) + [key];
    assert (requests + [key])[..|requests|] == requests;
  }

  lemma KeepsRepeat(list: seq<Phrase>, log: seq<Insertion>, b: nat, requests: seq<Key>, key: Key)
    requires Keeps(list, log, b, requests) && key in requests
    ensures Keeps(list, log, b, requests + [key])
  {
    assert (requests + [key])[..|requests|] == requests;
  }

  lemma {:induction false} RequestsMore(readings: seq<Reading>, r: Reading, code: string, strHZ: char)
    ensures Requests(readings + [r], code, strHZ)
      == Requests(readings, code, strHZ) + if Matches(r, code, strHZ) then [Key(r.strMap[2..], r.text[1..])] else []
  {
    assert (readings + [r])[..|readings|] == readings;
  }

  /* ----- which line goes where ----- */

  lemma {:induction false} MapTextAt(codes: seq<MapResult>, i: nat)
    requires AllCoded(codes) && i < |codes|
    ensures MapText(codes)[2 * i] == codes[i].first && MapText(codes)[2 * i + 1] == codes[i].second
  {
    if i < |codes| - 1 { MapTextAt(codes[..|codes| - 1], i); }
  }

  /** The code of a line has two letters for each piece: those of the piece's own code, the first
      one first, and two wildcards where the piece is a separator alone. */
  lemma LineCodes(cfg: Config, line: Line, i: nat)
    requires Ready(cfg) && Readable(line) && i < |Parse(cfg, line.py)|
    ensures |CodeOfLine(cfg, line)| == 2 * |Parse(cfg, line.py)|
    ensures var w, code := Parse(cfg, line.py)[i].word, CodeOfLine(cfg, line);
      if w == "" then code[2 * i] == '0' && code[2 * i + 1] == '0'
      else CodeOf(cfg, w, SYSTEM) == Code(code[2 * i], code[2 * i + 1])
  {
    hide Parse, CodeOf, Codes, MapText, CodedTable;
    ParseIsCoded(cfg, line.py, SYSTEM);
    MapTextAt(Codes(cfg, Parse(cfg, line.py), SYSTEM), i);
    CodesAt(cfg, Parse(cfg, line.py), SYSTEM, i);
  }

  /** The line is accepted, its text begins with the character, its code with the code of the
      character's group, and what is behind them is the key. */
  ghost predicate Asks(cfg: Config, strlen: string -> nat, line: Line, code: string, strHZ: char, key: Key)
    requires Ready(cfg) && Readable(line)
  {
    && Accepted(cfg, strlen, line)
    && |code| == 2 && CodeOfLine(cfg, line) == code + key.strMap && line.text == [strHZ] + key.strPhrase
  }

  lemma MatchesExactly(r: Reading, code: string, strHZ: char, key: Key)
    ensures Matches(r, code, strHZ) && key == Key(r.strMap[2..], r.text[1..]) <==>
      |code| == 2 && r.strMap == code + key.strMap && r.text == [strHZ] + key.strPhrase
  {
    if Matches(r, code, strHZ) {
      assert r.strMap == code + r.strMap[2..] && r.text == [strHZ] + r.text[1..];
    }
  }

  /** The phrases asked for a character are those its lines ask for. */
  lemma {:induction false} RequestedExactly(cfg: Config, strlen: string -> nat, lines: seq<Line>, code: string,
      strHZ: char, key: Key)
    requires Ready(cfg) && AllReadable(lines)
    ensures key in Requests(Readings(cfg, strlen, lines), code, strHZ) <==>
      exists i :: 0 <= i < |lines| && Asks(cfg, strlen, lines[i], code, strHZ, key)
  {
    hide Sound, CodedTable, Accepted, CodeOfLine, Matches;
    if lines != [] {
      var init, last := lines[..|lines| - 1], lines[|lines| - 1];
      RequestedExactly(cfg, strlen, init, code, strHZ, key);
      assert forall i :: 0 <= i < |init| ==> init[i] == lines[i];
      if Accepted(cfg, strlen, last) {
        var r := Reading(CodeOfLine(cfg, last), last.text);
        MatchesExactly(r, code, strHZ, key);
        RequestsMore(Readings(cfg, strlen, init), r, code, strHZ);
      } else {
        assert Readings(cfg, strlen, lines) == Readings(cfg, strlen, init);
      }
      assert Asks(cfg, strlen, last, code, strHZ, key) ==> lines[|lines| - 1] == last;
    }
  }

  /** So the list of a character holds a phrase if and only if some line asks for it. */
  lemma ListedExactly(cfg: Config, strlen: string -> nat, lines: seq<Line>, list: seq<Phrase>, log: seq<Insertion>,
      b: nat, code: string, strHZ: char, key: Key)
    requires Ready(cfg) && AllReadable(lines)
    requires Keeps(list, log, b, Requests(Readings(cfg, strlen, lines), code, strHZ))
    ensures (exists p :: p in list && p.key == key) <==>
      exists i :: 0 <= i < |lines| && Asks(cfg, strlen, lines[i], code, strHZ, key)
  {
    hide Ready, AllReadable, Keeps, Requests, Readings, Asks;
    RequestedExactly(cfg, strlen, lines, code, strHZ, key);
    KeysAsked(list, log, b, Requests(Readings(cfg, strlen, lines), code, strHZ), key);
    if p :| p in list && p.key == key {
      var i :| 0 <= i < |list| && list[i] == p;
      assert Keys(list)[i] == key;
    }
    if key in Keys(list) {
      var i :| 0 <= i < |list| && Keys(list)[i] == key;
      assert list[i] in list;
    }
  }

  /** What character b of the file holds after these readings. */
  ghost predicate KeepsBase(base: PyBase, log: seq<Insertion>, b: nat, readings: seq<Reading>)
    reads base
  {
    Keeps(base.phrase, log, b, Requests(readings, base.code, base.strHZ))
  }

  predicate Separate(bases: seq<PyBase>) {
    forall b, c :: 0 <= b < c < |bases| ==> bases[b] != bases[c]
  }

  /** Insertions are made only for characters of the file. */
  predicate Placed(log: seq<Insertion>, n: nat) {
    forall u :: 0 <= u < |log| ==> log[u].b < n
  }

  /** One character: the phrase goes in if it matches and is not there yet. */
  method AddToBase(base: PyBase, b: nat, r: Reading, uIndex: nat, ghost log: seq<Insertion>,
      ghost readings: seq<Reading>)
    returns (next: nat, ghost more: seq<Insertion>)
    requires KeepsBase(base, log, b, readings) && uIndex == |log|
    modifies base
    ensures KeepsBase(base, more, b, readings + [r]) && next == |more|
    ensures more == log || exists key :: more == log + [Insertion(b, key)]
  {
    hide Keys, Of, OfKey, Sorted, Dedup, Requests;
    next, more := uIndex, log;
    RequestsMore(readings, r, base.code, base.strHZ);
    ghost var requests, was := Requests(readings, base.code, base.strHZ), base.phrase;
    if |r.strMap| >= 2 && r.text != "" && r.strMap[..2] == base.code && r.text[0] == base.strHZ {
      var key := Key(r.strMap[2..], r.text[1..]);
      KeysAsked(was, log, b, requests, key);
      var inserted := InsertInto(base, key, uIndex);
      if inserted {
        KeepsRequest(was, base.phrase, log, b, requests, key);
        next, more := uIndex + 1, log + [Insertion(b, key)];
      } else {
        KeepsRepeat(was, log, b, requests, key);
      }
    } else {
      assert requests + [] == requests;
    }
  }

  /** One line: all characters of all groups are tried. */
  method AddPhrase(bases: seq<PyBase>, r: Reading, uIndex: nat, ghost log: seq<Insertion>, ghost readings: seq<Reading>)
    returns (next: nat, ghost more: seq<Insertion>)
    requires Separate(bases) && uIndex == |log| && Placed(log, |bases|)
    requires forall b :: 0 <= b < |bases| ==> KeepsBase(bases[b], log, b, readings)
    modifies set b | 0 <= b < |bases| :: bases[b]
    ensures forall b :: 0 <= b < |bases| ==> KeepsBase(bases[b], more, b, readings + [r])
    ensures next == |more| && Placed(more, |bases|)
  {
    hide Keeps, Requests;
    next, more := uIndex, log;
    var b := 0;
    while b < |bases|
      invariant 0 <= b <= |bases| && next == |more| && Placed(more, |bases|)
      invariant forall c :: 0 <= c < b ==> KeepsBase(bases[c], more, c, readings + [r])
      invariant forall c :: b <= c < |bases| ==> KeepsBase(bases[c], more, c, readings)
    {
      ghost var before := more;
      next, more := AddToBase(bases[b], b, r, next, before, readings);
      if more != before {
        ghost var key :| more == before + [Insertion(b, key)];
        forall c | 0 <= c < |bases| && c != b
          ensures KeepsBase(bases[c], more, c, if c < b then readings + [r] else readings)
        {
          var seen := if c < b then readings + [r] else readings;
          KeepsOther(bases[c].phrase, before, b, key, c, Requests(seen, bases[c].code, bases[c].strHZ));
        }
      }
      b := b + 1;
    }
  }

  /** CreatePYPhrase: the reading loop. */
  method CreatePYPhrase(cfg: Config, strlen: string -> nat, bases: seq<PyBase>, lines: seq<Line>)
      returns (uIndex: nat, ghost log: seq<Insertion>)
    requires Ready(cfg) && AllReadable(lines)
    requires Separate(bases) && forall b :: 0 <= b < |bases| ==> bases[b].phrase == []
    modifies set b | 0 <= b < |bases| :: bases[b]
    ensures forall b :: 0 <= b < |bases| ==> KeepsBase(bases[b], log, b, Readings(cfg, strlen, lines))
    ensures uIndex == |log| && Placed(log, |bases|)
  {
    hide Keeps, Requests, Ready, Readable, Accepted, CodeOfLine;
    uIndex, log := 0, [];
    var l := 0;
    assert lines[..0] == [];
    forall b | 0 <= b < |bases|
      ensures KeepsBase(bases[b], [], b, [])
    {
      NothingKept(b, bases[b].code, bases[b].strHZ);
    }
    while l < |lines|
      invariant 0 <= l <= |lines| && uIndex == |log| && Placed(log, |bases|)
      invariant forall b :: 0 <= b < |bases| ==> KeepsBase(bases[b], log, b, Readings(cfg, strlen, lines[..l]))
    {
      var reading := ReadLine(cfg, strlen, lines[l]);
      ReadingsStep(cfg, strlen, lines, l);
      if reading.Some? {
        uIndex, log := AddPhrase(bases, reading.value, uIndex, log, Readings(cfg, strlen, lines[..l]));
      } else {
        assert Readings(cfg, strlen, lines[..l]) + [] == Readings(cfg, strlen, lines[..l]);
      }
      l := l + 1;
    }
    assert lines[..l] == lines;
  }

  lemma {:induction false} ReadingsStep(cfg: Config, strlen: string -> nat, lines: seq<Line>, l: nat)
    requires Ready(cfg) && AllReadable(lines) && l < |lines|
    ensures Readings(cfg, strlen, lines[..l + 1])
      == Readings(cfg, strlen, lines[..l])
         + if Accepted(cfg, strlen, lines[l]) then [Reading(CodeOfLine(cfg, lines[l]), lines[l].text)] else []
  {
    hide Ready, Accepted, CodeOfLine;
    assert lines[..l + 1][..l] == lines[..l] && lines[..l + 1][l] == lines[l];
  }

  lemma {:induction false} NothingKept(b: nat, code: string, strHZ: char)
    ensures Keeps([], [], b, Requests([], code, strHZ))
  {
  }

  /* ----- the numbers ----- */

  /** Phrase p of character b is written with the number v, when n phrases were inserted. */
  predicate Numbered(lists: seq<seq<Phrase>>, n: nat, b: nat, p: nat, v: int) {
    b < |lists| && p < |lists[b]| && v == n - 1 - lists[b][p].uIndex
  }

  ghost predicate Given(lists: seq<seq<Phrase>>, n: nat, v: int) {
    exists b: nat, p: nat :: Numbered(lists, n, b, p, v)
  }

  ghost predicate AllKept(lists: seq<seq<Phrase>>, log: seq<Insertion>, requests: seq<seq<Key>>) {
    |requests| == |lists| && forall b :: 0 <= b < |lists| ==> Keeps(lists[b], log, b, requests[b])
  }

  lemma {:induction false} OfMember(log: seq<Insertion>, b: nat, e: Phrase)
    ensures e in Of(log, b) <==> e.uIndex < |log| && log[e.uIndex] == Insertion(b, e.key)
  {
    if log != [] {
      var u := |log| - 1;
      OfMember(log[..u], b, e);
    }
  }

  lemma {:induction false} OfDistinct(log: seq<Insertion>, b: nat)
    ensures Distinct(Of(log, b))
  {
    if log != [] {
      var u := |log| - 1;
      OfDistinct(log[..u], b);
      OfMember(log[..u], b, Phrase(log[u].key, u));
    }
  }

  lemma EntryOf(lists: seq<seq<Phrase>>, log: seq<Insertion>, requests: seq<seq<Key>>, b: nat, e: Phrase)
    requires AllKept(lists, log, requests) && b < |lists|
    ensures e in lists[b] <==> e.uIndex < |log| && log[e.uIndex] == Insertion(b, e.key)
    ensures Distinct(lists[b])
  {
    hide StableSort;
    assert Keeps(lists[b], log, b, requests[b]);
    OfMember(log, b, e);
    OfDistinct(log, b);
    StableSortDistinct(MapKey(), Of(log, b), lists[b]);
  }

  /** The numbers run against the order of insertion: v is on entry n - 1 - v of the log, so
      the phrase inserted last has the number 0. */
  lemma NumberedEntry(lists: seq<seq<Phrase>>, log: seq<Insertion>, requests: seq<seq<Key>>, b: nat, p: nat, v: int)
    requires AllKept(lists, log, requests) && Numbered(lists, |log|, b, p, v)
    ensures 0 <= v < |log| && log[|log| - 1 - v] == Insertion(b, lists[b][p].key)
  {
    hide AllKept;
    EntryOf(lists, log, requests, b, lists[b][p]);
  }

  lemma NumberGiven(lists: seq<seq<Phrase>>, log: seq<Insertion>, requests: seq<seq<Key>>, v: int)
    requires AllKept(lists, log, requests) && Placed(log, |lists|) && 0 <= v < |log|
    ensures Given(lists, |log|, v)
  {
    hide AllKept;
    var u := |log| - 1 - v;
    var b, e := log[u].b, Phrase(log[u].key, u);
    EntryOf(lists, log, requests, b, e);
    var p :| 0 <= p < |lists[b]| && lists[b][p] == e;
    assert Numbered(lists, |log|, b, p, v);
  }

  /** The numbers written are exactly 0 to n - 1, each on one phrase. */
  lemma NumbersArePermutation(lists: seq<seq<Phrase>>, log: seq<Insertion>, requests: seq<seq<Key>>)
    requires AllKept(lists, log, requests) && Placed(log, |lists|)
    ensures forall v :: Given(lists, |log|, v) <==> 0 <= v < |log|
    ensures forall b: nat, p: nat, c: nat, q: nat, v ::
      Numbered(lists, |log|, b, p, v) && Numbered(lists, |log|, c, q, v) ==> b == c && p == q
  {
    hide AllKept, Numbered;
    forall v
      ensures Given(lists, |log|, v) <==> 0 <= v < |log|
    {
      if b: nat, p: nat :| Numbered(lists, |log|, b, p, v) { NumberedEntry(lists, log, requests, b, p, v); }
      if 0 <= v < |log| { NumberGiven(lists, log, requests, v); }
    }
    forall b: nat, p: nat, c: nat, q: nat, v | Numbered(lists, |log|, b, p, v) && Numbered(lists, |log|, c, q, v)
      ensures b == c && p == q
    {
      SamePlace(lists, log, requests, b, p, c, q, v);
    }
  }

  lemma SamePlace(lists: seq<seq<Phrase>>, log: seq<Insertion>, requests: seq<seq<Key>>, b: nat, p: nat, c: nat,
      q: nat, v: int)
    requires AllKept(lists, log, requests)
    requires Numbered(lists, |log|, b, p, v) && Numbered(lists, |log|, c, q, v)
    ensures b == c && p == q
  {
    hide AllKept;
    NumberedEntry(lists, log, requests, b, p, v);
    NumberedEntry(lists, log, requests, c, q, v);
    assert lists[b][p] == lists[c][q];
    EntryOf(lists, log, requests, b, lists[b][p]);
  }

  predicate Rising(l: seq<Phrase>) {
    forall i, j :: 0 <= i < j < |l| ==> l[i].uIndex < l[j].uIndex
  }

  lemma {:induction false} OfRises(log: seq<Insertion>, b: nat)
    ensures Rising(Of(log, b))
    ensures forall i :: 0 <= i < |Of(log, b)| ==> Of(log, b)[i].uIndex < |log|
  {
    if log != [] { OfRises(log[..|log| - 1], b); }
  }

  lemma {:induction false} OfKeyRises(l: seq<Phrase>, k: string)
    requires Rising(l)
    ensures Rising(OfKey(MapKey(), l, k))
  {
    if l != [] {
      var init, last := l[..|l| - 1], l[|l| - 1];
      OfKeyRises(init, k);
      forall e | e in OfKey(MapKey(), init, k)
        ensures e.uIndex < last.uIndex
      {
        OfKeyMember(MapKey(), init, k, e);
      }
    }
  }

  lemma {:induction false} RisesWithinKey(l: seq<Phrase>, p: nat, q: nat)
    requires p < q < |l| && l[p].key.strMap == l[q].key.strMap && Rising(OfKey(MapKey(), l, l[q].key.strMap))
    ensures l[p].uIndex < l[q].uIndex
  {
    var k, init := l[q].key.strMap, l[..|l| - 1];
    var r, ofLast := OfKey(MapKey(), init, k), OfKey(MapKey(), l, k);
    assert r == ofLast[..|r|];
    if q == |l| - 1 {
      OfKeyMember(MapKey(), init, k, init[p]);
      var i :| 0 <= i < |r| && r[i] == l[p];
      assert ofLast[i] == l[p] && ofLast[|r|] == l[q];
    } else {
      assert Rising(r);
      RisesWithinKey(init, p, q);
    }
  }

  lemma KeysDiffer(list: seq<Phrase>, log: seq<Insertion>, b: nat, requests: seq<Key>, p: nat, q: nat)
    requires Keeps(list, log, b, requests) && p < q < |list|
    ensures list[p].key != list[q].key
  {
    hide StableSort, Of, Dedup;
    var of := Of(log, b);
    OfDistinct(log, b);
    StableSortDistinct(MapKey(), of, list);
    DedupDistinct(requests);
    assert list[p] in of && list[q] in of;
    var i :| 0 <= i < |of| && of[i] == list[p];
    var j :| 0 <= j < |of| && of[j] == list[q];
    assert Keys(of)[i] == list[p].key && Keys(of)[j] == list[q].key;
  }

  /** In a list no phrase occurs twice, codes do not fall, and among equal codes the written
      numbers fall. */
  lemma ListInOrder(list: seq<Phrase>, log: seq<Insertion>, b: nat, requests: seq<Key>, p: nat, q: nat)
    requires Keeps(list, log, b, requests) && p < q < |list|
    ensures list[p].key != list[q].key && Le(list[p].key.strMap, list[q].key.strMap)
    ensures list[p].key.strMap == list[q].key.strMap ==> |log| - 1 - list[p].uIndex > |log| - 1 - list[q].uIndex
  {
    hide OfKey, Of, Dedup;
    KeysDiffer(list, log, b, requests, p, q);
    var k := list[q].key.strMap;
    OfRises(log, b);
    OfKeyRises(Of(log, b), k);
    assert OfKey(MapKey(), list, k) == OfKey(MapKey(), Of(log, b), k);
    if list[p].key.strMap == k { RisesWithinKey(list, p, q); }
  }

  /* ----- writing the file ----- */

  /** What is written for one character: its group, the character, and each phrase with its
      number. */
  datatype Record = Record(group: nat, strHZ: char, phrases: seq<Phrase>)

  datatype Head = Head(group: nat, strHZ: char)

  /** The written number of every phrase, in the order of the list. */
  function Renumbered(l: seq<Phrase>, n: nat): (r: seq<Phrase>)
    requires forall i :: 0 <= i < |l| ==> l[i].uIndex < n
    ensures |r| == |l|
    ensures forall i :: 0 <= i < |l| ==> r[i] == Phrase(l[i].key, n - 1 - l[i].uIndex)
  {
    if l == [] then [] else Renumbered(l[..|l| - 1], n) + [Phrase(l[|l| - 1].key, n - 1 - l[|l| - 1].uIndex)]
  }

  predicate Below(lists: seq<seq<Phrase>>, n: nat) {
    forall b :: 0 <= b < |lists| ==> forall i :: 0 <= i < |lists[b]| ==> lists[b][i].uIndex < n
  }

  function Lists(bases: seq<PyBase>): (r: seq<seq<Phrase>>)
    reads set b | 0 <= b < |bases| :: bases[b]
    ensures |r| == |bases| && forall b :: 0 <= b < |bases| ==> r[b] == bases[b].phrase
  {
    if bases == [] then [] else Lists(bases[..|bases| - 1]) + [bases[|bases| - 1].phrase]
  }

  function Heads(bases: seq<PyBase>): (r: seq<Head>)
    ensures |r| == |bases| && forall b :: 0 <= b < |bases| ==> r[b] == Head(bases[b].group, bases[b].strHZ)
  {
    if bases == [] then []
    else Heads(bases[..|bases| - 1]) + [Head(bases[|bases| - 1].group, bases[|bases| - 1].strHZ)]
  }

  /** One record for each character that has phrases, in order. */
  function Records(heads: seq<Head>, lists: seq<seq<Phrase>>, n: nat): seq<Record>
    requires Below(lists, n) && |heads| == |lists|
  {
    if lists == [] then []
    else
      var b := |lists| - 1;
      Records(heads[..b], lists[..b], n)
      + if lists[b] == [] then [] else [Record(heads[b].group, heads[b].strHZ, Renumbered(lists[b], n))]
  }

  lemma {:induction false} RecordsStep(heads: seq<Head>, lists: seq<seq<Phrase>>, n: nat, b: nat)
    requires Below(lists, n) && |heads| == |lists| && b < |lists|
    ensures Records(heads[..b + 1], lists[..b + 1], n) == Records(heads[..b], lists[..b], n)
      + if lists[b] == [] then [] else [Record(heads[b].group, heads[b].strHZ, Renumbered(lists[b], n))]
  {
    hide Renumbered;
    assert lists[..b + 1][..b] == lists[..b] && heads[..b + 1][..b] == heads[..b];
  }

  method WritePhrases(bases: seq<PyBase>, uIndex: nat) returns (records: seq<Record>)
    requires Below(Lists(bases), uIndex)
    ensures records == Records(Heads(bases), Lists(bases), uIndex)
  {
    hide Renumbered, Lists, Heads;
    ghost var lists, heads := Lists(bases), Heads(bases);
    records := [];
    var b := 0;
    while b < |bases|
      invariant 0 <= b <= |bases| && records == Records(heads[..b], lists[..b], uIndex)
    {
      RecordsStep(heads, lists, uIndex, b);
      if |bases[b].phrase| > 0 {
        var phrases := Renumber(bases[b].phrase, uIndex);
        records := records + [Record(bases[b].group, bases[b].strHZ, phrases)];
      }
      b := b + 1;
    }
    assert lists[..b] == lists && heads[..b] == heads;
  }

  method Renumber(l: seq<Phrase>, uIndex: nat) returns (phrases: seq<Phrase>)
    requires forall i :: 0 <= i < |l| ==> l[i].uIndex < uIndex
    ensures phrases == Renumbered(l, uIndex)
  {
    phrases := [];
    var t := 0;
    while t < |l|
      invariant 0 <= t <= |l| && phrases == Renumbered(l[..t], uIndex)
    {
      assert l[..t + 1][..t] == l[..t];
      phrases := phrases + [Phrase(l[t].key, uIndex - 1 - l[t].uIndex)];
      t := t + 1;
    }
    assert l[..t] == l;
  }

  /** Every character with phrases has its record, with all its phrases. */
  lemma {:induction false} RecordOf(heads: seq<Head>, lists: seq<seq<Phrase>>, n: nat, b: nat)
    requires Below(lists, n) && |heads| == |lists| && b < |lists| && lists[b] != []
    ensures Record(heads[b].group, heads[b].strHZ, Renumbered(lists[b], n)) in Records(heads, lists, n)
  {
    if b < |lists| - 1 { RecordOf(heads[..|lists| - 1], lists[..|lists| - 1], n, b); }
  }

  predicate Writes(r: Record, v: int) {
    exists i :: 0 <= i < |r.phrases| && r.phrases[i].uIndex == v
  }

  predicate AnyWrites(records: seq<Record>, v: int) {
    exists k :: 0 <= k < |records| && Writes(records[k], v)
  }

  lemma {:induction false} RecordsGive(heads: seq<Head>, lists: seq<seq<Phrase>>, n: nat, v: int)
    requires Below(lists, n) && |heads| == |lists|
    ensures AnyWrites(Records(heads, lists, n), v) <==> Given(lists, n, v)
    decreases |lists|
  {
    if lists != [] {
      var b := |lists| - 1;
      var init, records := Records(heads[..b], lists[..b], n), Records(heads, lists, n);
      RecordsGive(heads[..b], lists[..b], n, v);
      assert init == records[..|init|];
      if c: nat, p: nat :| Numbered(lists, n, c, p, v) {
        if c < b {
          assert Numbered(lists[..b], n, c, p, v);
          var k :| 0 <= k < |init| && Writes(init[k], v);
          assert Writes(records[k], v);
        } else {
          assert records[|init|].phrases[p].uIndex == v;
        }
      }
      if k :| 0 <= k < |records| && Writes(records[k], v) {
        if k < |init| {
          assert Writes(init[k], v);
          var c: nat, p: nat :| Numbered(lists[..b], n, c, p, v);
          assert Numbered(lists, n, c, p, v);
        } else {
          var i :| 0 <= i < |records[k].phrases| && records[k].phrases[i].uIndex == v;
          assert Numbered(lists, n, b, i, v);
        }
      }
    }
  }

  lemma KeptIsBelow(lists: seq<seq<Phrase>>, log: seq<Insertion>, requests: seq<seq<Key>>)
    requires AllKept(lists, log, requests)
    ensures Below(lists, |log|)
  {
    hide AllKept;
    forall b, i | 0 <= b < |lists| && 0 <= i < |lists[b]|
      ensures lists[b][i].uIndex < |log|
    {
      EntryOf(lists, log, requests, b, lists[b][i]);
    }
  }

  /** The records of the file hold exactly the numbers 0 to n - 1. */
  lemma {:induction false} WrittenNumbers(heads: seq<Head>, lists: seq<seq<Phrase>>, log: seq<Insertion>,
      requests: seq<seq<Key>>, v: int)
    requires AllKept(lists, log, requests) && Placed(log, |lists|) && |heads| == |lists|
    ensures Below(lists, |log|) && (AnyWrites(Records(heads, lists, |log|), v) <==> 0 <= v < |log|)
  {
    hide AllKept, Below, AnyWrites, Given;
    KeptIsBelow(lists, log, requests);
    RecordsGive(heads, lists, |log|, v);
    NumbersArePermutation(lists, log, requests);
  }
}
