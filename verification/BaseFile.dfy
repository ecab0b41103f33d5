/** CreatePYBase: characters sorted by syllable code and written as groups of equal code,
    under a header that counts syllables (tools/cli/createPYMB.c:296-418). */
module BaseFile {
  import opened Order
  import opened Keyed
  import opened PyMapTable
  import opened Pyfa
  import opened PyParser

  /** One line of the input: a spelling and a character (or a text beginning with it). */
  datatype Line = Line(py: string, hz: string)

  /** One node of the sorted list. */
  datatype Item = Item(code: string, hz: string)

  datatype CodeGroup = CodeGroup(code: string, hzs: seq<string>)

  function ItemKey(): Item -> string {
    (e: Item) => e.code
  }

  /** The run's settings: everything off. */
  ghost predicate Plain(cfg: Config) {
    Spelt(cfg) && !cfg.misstypeNGGN && !FuzzyEng(cfg)
  }

  predicate Readable(cfg: Config, lines: seq<Line>) {
    forall i :: 0 <= i < |lines| ==>
      lines[i].py != "" && lines[i].hz != "" && !CodeOf(cfg, lines[i].py, SYSTEM).OutOfTable?
  }

  predicate Accepted(cfg: Config, line: Line)
    requires line.py != ""
  {
    CodeOf(cfg, line.py, SYSTEM).Code?
  }

  function ItemOf(cfg: Config, line: Line): Item
    requires line.py != "" && line.hz != "" && Accepted(cfg, line)
  {
    var c := CodeOf(cfg, line.py, SYSTEM);
    Item([c.first, c.second], line.hz[..1])
  }

  /** The accepted lines in order, with over-long texts cut to their first character. */
  function Items(cfg: Config, lines: seq<Line>): seq<Item>
    requires Readable(cfg, lines)
  {
    if lines == [] then []
    else
      var last := lines[|lines| - 1];
      Items(cfg, lines[..|lines| - 1]) + (if Accepted(cfg, last) then [ItemOf(cfg, last)] else [])
  }

  /** The line has a code, and the item has its two letters and the first character of the text. */
  predicate Files(cfg: Config, line: Line, e: Item)
    requires line.py != "" && line.hz != ""
  {
    |e.code| == 2 && CodeOf(cfg, line.py, SYSTEM) == Code(e.code[0], e.code[1]) && e.hz == [line.hz[0]]
  }

  lemma {:induction false} FiledExactly(cfg: Config, lines: seq<Line>, e: Item)
    requires Readable(cfg, lines)
    ensures e in Items(cfg, lines) <==> exists i :: 0 <= i < |lines| && Files(cfg, lines[i], e)
  {
    hide CodeOf, Readable;
    if lines != [] {
      var init, last := lines[..|lines| - 1], lines[|lines| - 1];
      ReadableLine(cfg, lines);
      FiledExactly(cfg, init, e);
      assert forall i :: 0 <= i < |init| ==> init[i] == lines[i];
      assert lines[|lines| - 1] == last && last.hz[..1] == [last.hz[0]];
      if |e.code| == 2 { assert e.code == [e.code[0], e.code[1]]; }
    }
  }

  lemma ReadableLine(cfg: Config, lines: seq<Line>)
    requires Readable(cfg, lines)
    ensures forall i :: 0 <= i < |lines| ==> lines[i].py != "" && lines[i].hz != ""
    ensures lines != [] ==> Readable(cfg, lines[..|lines| - 1])
  {
  }

  /** Some accepted line spells w. */
  predicate Spells(cfg: Config, lines: seq<Line>, w: string)
    requires Readable(cfg, lines)
  {
    exists i :: 0 <= i < |lines| && lines[i].py == w && Accepted(cfg, lines[i])
  }

  /* ----- the sorted list ----- */

  /** The new node goes behind the last one whose code is not above its own. */
  method InsertSorted(list: seq<Item>, e: Item) returns (out: seq<Item>)
    requires Sorted(ItemKey(), list)
    ensures Sorted(ItemKey(), out)
    ensures forall k :: OfKey(ItemKey(), out, k) == OfKey(ItemKey(), list + [e], k)
    ensures |out| == |list| + 1
  {
    var p := |list|;
    while p > 0 && !Le(list[p - 1].code, e.code)
      invariant 0 <= p <= |list|
      invariant forall i :: p <= i < |list| ==> Lt(e.code, list[i].code)
    {
      p := p - 1;
    }
    forall i | 0 <= i < p
      ensures Le(list[i].code, e.code)
    {
      if i < p - 1 { LeTransitive(list[i].code, list[p - 1].code, e.code); }
    }
    FitsKeepsSorted(ItemKey(), list, e, p);
    forall k {
      FitsAppends(ItemKey(), list, e, p, k);
    }
    out := list[..p] + [e] + list[p..];
  }

  /* ----- the header count ----- */

  predicate StandardRow(row: Row) {
    row.control == Always
  }

  /** The rows whose tally is not zero. */
  function Tallied(cfg: Config, table: seq<Row>, lines: seq<Line>): nat
    requires Readable(cfg, lines)
  {
    if table == [] then 0
    else
      var last := table[|table| - 1];
      Tallied(cfg, table[..|table| - 1], lines) + if StandardRow(last) && Spells(cfg, lines, last.word) then 1 else 0
  }

  lemma SpellsMore(cfg: Config, lines: seq<Line>, l: nat, w: string)
    requires Readable(cfg, lines) && l < |lines|
    ensures Spells(cfg, lines[..l + 1], w) <==>
      Spells(cfg, lines[..l], w) || (lines[l].py == w && Accepted(cfg, lines[l]))
  {
    hide Accepted;
    assert forall i :: 0 <= i < l ==> lines[..l + 1][i] == lines[..l][i];
    assert lines[..l + 1][l] == lines[l];
  }

  /** The reading loop: the sorted list, the tallies and the number of entries. */
  method ReadLines(cfg: Config, table: seq<Row>, lines: seq<Line>) returns (list: seq<Item>, yy: array<nat>, count: nat)
    requires Readable(cfg, lines)
    ensures StableSort(ItemKey(), Items(cfg, lines), list) && count == |list| == |Items(cfg, lines)|
    ensures yy.Length == |table|
    ensures forall i :: 0 <= i < |table| ==> (yy[i] > 0 <==> StandardRow(table[i]) && Spells(cfg, lines, table[i].word))
  {
    hide Spells, CodeOf, Sorted, OfKey, Items;
    yy := new nat[|table|](_ => 0);
    list, count := [], 0;
    var l := 0;
    NothingRead(cfg, table);
    assert lines[..0] == [] && lines[..|lines|] == lines;
    while l < |lines|
      invariant 0 <= l <= |lines|
      invariant StableSort(ItemKey(), Items(cfg, lines[..l]), list) && count == |list| == |Items(cfg, lines[..l])|
      invariant forall i :: 0 <= i < |table| ==> (yy[i] > 0 <==>
        StandardRow(table[i]) && Spells(cfg, lines[..l], table[i].word))
    {
      var code := MapPY(cfg, lines[l].py, SYSTEM);
      ItemsStep(cfg, lines, l);
      forall i | 0 <= i < |table|
        ensures Spells(cfg, lines[..l + 1], table[i].word) <==>
          Spells(cfg, lines[..l], table[i].word) || (lines[l].py == table[i].word && Accepted(cfg, lines[l]))
      {
        SpellsMore(cfg, lines, l, table[i].word);
      }
      if code.Code? {
        TallyLine(table, yy, lines[l].py);
        ghost var was, e := list, ItemOf(cfg, lines[l]);
        list := InsertSorted(list, Item([code.first, code.second], lines[l].hz[..1]));
        OneItemMore(Items(cfg, lines[..l]), was, e, list);
        count := count + 1;
      }
      l := l + 1;
    }
  }

  lemma {:induction false} ItemsStep(cfg: Config, lines: seq<Line>, l: nat)
    requires Readable(cfg, lines) && l < |lines|
    ensures Items(cfg, lines[..l + 1])
      == if Accepted(cfg, lines[l]) then Items(cfg, lines[..l]) + [ItemOf(cfg, lines[l])] else Items(cfg, lines[..l])
  {
    hide CodeOf;
    assert lines[..l + 1][..l] == lines[..l] && lines[..l + 1][l] == lines[l];
  }

  lemma {:induction false} OneItemMore(items: seq<Item>, was: seq<Item>, e: Item, list: seq<Item>)
    requires StableSort(ItemKey(), items, was) && Sorted(ItemKey(), list)
    requires forall k :: OfKey(ItemKey(), list, k) == OfKey(ItemKey(), was + [e], k)
    ensures StableSort(ItemKey(), items + [e], list)
  {
    hide OfKey, Sorted;
    forall k ensures OfKey(ItemKey(), list, k) == OfKey(ItemKey(), items + [e], k) {
      OfKeyConcat(ItemKey(), was, [e], k);
      OfKeyConcat(ItemKey(), items, [e], k);
    }
  }

  /** YY[i] += 1 for every standard row of this spelling. */
  method TallyLine(table: seq<Row>, yy: array<nat>, py: string)
    requires yy.Length == |table|
    modifies yy
    ensures forall i :: 0 <= i < |table| ==>
      yy[i] == old(yy[i]) + if StandardRow(table[i]) && table[i].word == py then 1 else 0
  {
    var i := 0;
    while i < |table|
      invariant 0 <= i <= |table|
      invariant forall k :: 0 <= k < i ==>
        yy[k] == old(yy[k]) + if StandardRow(table[k]) && table[k].word == py then 1 else 0
      invariant forall k :: i <= k < |table| ==> yy[k] == old(yy[k])
    {
      if table[i].word == py && table[i].control == Always {
        yy[i] := yy[i] + 1;
      }
      i := i + 1;
    }
  }

  lemma {:induction false} NothingRead(cfg: Config, table: seq<Row>)
    ensures StableSort(ItemKey(), Items(cfg, []), []) && Items(cfg, []) == []
    ensures forall w :: !Spells(cfg, [], w)
  {
  }

  method CountTallies(cfg: Config, table: seq<Row>, yy: array<nat>, ghost lines: seq<Line>) returns (count: nat)
    requires Readable(cfg, lines) && yy.Length == |table|
    requires forall i :: 0 <= i < |table| ==> (yy[i] > 0 <==>
      StandardRow(table[i]) && Spells(cfg, lines, table[i].word))
    ensures count == Tallied(cfg, table, lines)
  {
    hide Spells, Readable;
    count := 0;
    var i := 0;
    while i < |table|
      invariant 0 <= i <= |table| && count == Tallied(cfg, table[..i], lines)
    {
      assert table[..i + 1][..i] == table[..i];
      if yy[i] != 0 { count := count + 1; }
      i := i + 1;
    }
    assert table[..i] == table;
  }

  /* ----- the groups ----- */

  /** What the groups hold, one after the other. */
  function Flatten(groups: seq<CodeGroup>): seq<Item> {
    if groups == [] then []
    else Flatten(groups[..|groups| - 1]) + GroupItems(groups[|groups| - 1].code, groups[|groups| - 1].hzs)
  }

  function GroupItems(code: string, hzs: seq<string>): (r: seq<Item>)
    ensures |r| == |hzs| && forall i :: 0 <= i < |hzs| ==> r[i] == Item(code, hzs[i])
  {
    if hzs == [] then [] else GroupItems(code, hzs[..|hzs| - 1]) + [Item(code, hzs[|hzs| - 1])]
  }

  /** Groups are never empty and their codes increase strictly, so each is as long as it can
      be and no code has two. */
  predicate Maximal(groups: seq<CodeGroup>) {
    && (forall g :: 0 <= g < |groups| ==> groups[g].hzs != [])
    && (forall g, h :: 0 <= g < h < |groups| ==> Lt(groups[g].code, groups[h].code))
  }

  /** The codes of all groups are below `code`. */
  predicate CodesBelow(groups: seq<CodeGroup>, code: string) {
    forall g :: 0 <= g < |groups| ==> Lt(groups[g].code, code)
  }

  /** The writing loop: a group is written when the code changes, the last one at the end. */
  method WriteGroups(list: seq<Item>) returns (groups: seq<CodeGroup>)
    requires list != [] && Sorted(ItemKey(), list)
    ensures Flatten(groups) == list && Maximal(groups)
  {
    var code := list[0].code;
    var iCount, t, p := 0, 0, 0;
    groups := [];
    assert GroupItems(code, []) == [];
    while p < |list|
      invariant 0 <= t <= p <= |list| && t + iCount == p && (p > 0 ==> iCount > 0)
      invariant Flatten(groups) == list[..t] && Maximal(groups) && CodesBelow(groups, code)
      invariant forall i :: t <= i < p ==> list[i].code == code
      invariant t < |list| && list[t].code == code
    {
      if code == list[p].code {
        iCount := iCount + 1;
      } else {
        var hzs := Texts(list, t, iCount);
        CloseGroup(groups, list, t, p, code, hzs);
        LeTotal(code, list[p].code);
        if Le(list[p].code, code) { LeAntisymmetric(code, list[p].code); }
        AboveAll(groups, code, hzs, list[p].code);
        groups := groups + [CodeGroup(code, hzs)];
        t, iCount, code := p, 1, list[p].code;
      }
      p := p + 1;
    }
    var hzs := Texts(list, t, iCount);
    CloseGroup(groups, list, t, p, code, hzs);
    AboveAll(groups, code, hzs, code);
    groups := groups + [CodeGroup(code, hzs)];
    assert list[..p] == list;
  }

  method Texts(list: seq<Item>, t: nat, iCount: nat) returns (hzs: seq<string>)
    requires t + iCount <= |list|
    ensures |hzs| == iCount && forall i :: 0 <= i < iCount ==> hzs[i] == list[t + i].hz
  {
    hzs := [];
    var i := 0;
    while i < iCount
      invariant 0 <= i <= iCount == |hzs| + iCount - i
      invariant forall k :: 0 <= k < i ==> hzs[k] == list[t + k].hz
    {
      hzs := hzs + [list[t + i].hz];
      i := i + 1;
    }
  }

  lemma {:induction false} CloseGroup(groups: seq<CodeGroup>, list: seq<Item>, t: nat, p: nat, code: string,
      hzs: seq<string>)
    requires t < p <= |list| && Flatten(groups) == list[..t] && |hzs| == p - t
    requires forall i :: t <= i < p ==> list[i].code == code
    requires forall i :: 0 <= i < |hzs| ==> hzs[i] == list[t + i].hz
    ensures Flatten(groups + [CodeGroup(code, hzs)]) == list[..p]
  {
    var more := groups + [CodeGroup(code, hzs)];
    assert more[..|more| - 1] == groups;
    var r := GroupItems(code, hzs);
    assert forall i :: 0 <= i < |r| ==> r[i] == list[..p][t + i];
    assert list[..p] == list[..t] + r;
  }

  lemma AboveAll(groups: seq<CodeGroup>, code: string, hzs: seq<string>, next: string)
    requires Maximal(groups) && CodesBelow(groups, code) && hzs != []
    ensures Maximal(groups + [CodeGroup(code, hzs)])
    ensures Lt(code, next) ==> CodesBelow(groups + [CodeGroup(code, hzs)], next)
  {
    if Lt(code, next) {
      forall g | 0 <= g < |groups| ensures Lt(groups[g].code, next) {
        LeTotal(code, next);
        if Le(next, groups[g].code) { LeTransitive(code, next, groups[g].code); }
      }
    }
  }

  /* ----- the header and the groups ----- */

  /** CreatePYBase: the header, the groups, and the number of entries for the numbering. */
  method CreatePYBase(cfg: Config, table: seq<Row>, lines: seq<Line>)
      returns (header: nat, groups: seq<CodeGroup>, iAllCount: nat)
    requires Readable(cfg, lines) && Items(cfg, lines) != []
    ensures header == Tallied(cfg, table, lines)
    ensures StableSort(ItemKey(), Items(cfg, lines), Flatten(groups)) && Maximal(groups)
    ensures iAllCount == |Items(cfg, lines)| == |Flatten(groups)|
  {
    hide Spells, CodeOf, OfKey, Readable;
    var list, yy, count := ReadLines(cfg, table, lines);
    header := CountTallies(cfg, table, yy, lines);
    iAllCount := count;
    groups := WriteGroups(list);
  }

  /** The code of a spelling as it stands in the list. */
  function CodeText(cfg: Config, w: string): string {
    if w == "" then "" else match CodeOf(cfg, w, SYSTEM)
      case Code(a, b) => [a, b]
      case _ => ""
  }

  ghost function Spellings(cfg: Config, lines: seq<Line>): set<string>
    requires Readable(cfg, lines)
  {
    set i | 0 <= i < |lines| && Accepted(cfg, lines[i]) :: lines[i].py
  }

  ghost function GroupCodes(groups: seq<CodeGroup>): set<string> {
    set g | 0 <= g < |groups| :: groups[g].code
  }

  ghost function TalliedWords(cfg: Config, table: seq<Row>, lines: seq<Line>): set<string>
    requires Readable(cfg, lines)
  {
    set i | 0 <= i < |table| && StandardRow(table[i]) && Spells(cfg, lines, table[i].word) :: table[i].word
  }

  predicate NoRepeats(table: seq<Row>) {
    forall i, j :: 0 <= i < j < |table| && StandardRow(table[i]) && StandardRow(table[j]) ==>
      table[i].word != table[j].word
  }

  predicate Standard(table: seq<Row>, w: string) {
    exists i :: 0 <= i < |table| && table[i].control == Always && table[i].word == w
  }

  lemma {:induction false} TalliedSize(cfg: Config, table: seq<Row>, lines: seq<Line>)
    requires Readable(cfg, lines) && NoRepeats(table)
    ensures Tallied(cfg, table, lines) == |TalliedWords(cfg, table, lines)|
  {
    hide Spells, Readable, TalliedWords;
    NothingTallied(cfg, lines);
    if table != [] {
      var init, last := table[..|table| - 1], table[|table| - 1];
      TalliedSize(cfg, init, lines);
      TalliedStep(cfg, table, lines);
      if StandardRow(last) && Spells(cfg, lines, last.word) { LastWordIsNew(cfg, table, lines); }
    }
  }

  lemma NothingTallied(cfg: Config, lines: seq<Line>)
    requires Readable(cfg, lines)
    ensures TalliedWords(cfg, [], lines) == {}
  {
  }

  lemma TalliedStep(cfg: Config, table: seq<Row>, lines: seq<Line>)
    requires Readable(cfg, lines) && table != []
    ensures var init, last := table[..|table| - 1], table[|table| - 1];
      TalliedWords(cfg, table, lines)
        == TalliedWords(cfg, init, lines) + if StandardRow(last) && Spells(cfg, lines, last.word)
          then {last.word} else {}
  {
    hide Spells, Readable;
  }

  lemma LastWordIsNew(cfg: Config, table: seq<Row>, lines: seq<Line>)
    requires Readable(cfg, lines) && table != [] && NoRepeats(table) && StandardRow(table[|table| - 1])
    ensures table[|table| - 1].word !in TalliedWords(cfg, table[..|table| - 1], lines)
  {
    hide Spells, Readable;
  }

  lemma {:induction false} GroupCodesSize(groups: seq<CodeGroup>)
    requires Maximal(groups)
    ensures |GroupCodes(groups)| == |groups|
  {
    if groups != [] {
      var init, last := groups[..|groups| - 1], groups[|groups| - 1];
      GroupCodesSize(init);
      LeReflexive(last.code);
      assert last.code !in GroupCodes(init);
      assert GroupCodes(groups) == GroupCodes(init) + {last.code};
    }
  }

  lemma {:induction false} InjectiveImage(cfg: Config, a: set<string>, b: set<string>)
    requires forall x, y :: x in a && y in a && CodeText(cfg, x) == CodeText(cfg, y) ==> x == y
    requires b == set x | x in a :: CodeText(cfg, x)
    ensures |b| == |a|
  {
    hide CodeText;
    if a != {} {
      var x :| x in a;
      var a', b' := a - {x}, b - {CodeText(cfg, x)};
      assert b' == set y | y in a' :: CodeText(cfg, y);
      InjectiveImage(cfg, a', b');
    }
  }

  lemma {:induction false} FlattenCodes(groups: seq<CodeGroup>, code: string)
    requires Maximal(groups)
    ensures code in GroupCodes(groups) <==> exists e :: e in Flatten(groups) && e.code == code
  {
    hide Maximal, Flatten, GroupCodes;
    NoGroups();
    if groups != [] {
      var init, last := groups[..|groups| - 1], groups[|groups| - 1];
      MaximalPrefix(groups);
      FlattenCodes(init, code);
      LastGroup(groups);
      var r := GroupItems(last.code, last.hzs);
      assert r[0] in r;
      assert forall e :: e in Flatten(groups) <==> e in Flatten(init) || e in r;
    }
  }

  lemma NoGroups()
    ensures GroupCodes([]) == {} && Flatten([]) == []
  {
  }

  lemma MaximalPrefix(groups: seq<CodeGroup>)
    requires Maximal(groups) && groups != []
    ensures Maximal(groups[..|groups| - 1]) && groups[|groups| - 1].hzs != []
  {
  }

  lemma LastGroup(groups: seq<CodeGroup>)
    requires groups != []
    ensures var init, last := groups[..|groups| - 1], groups[|groups| - 1];
      && Flatten(groups) == Flatten(init) + GroupItems(last.code, last.hzs)
      && GroupCodes(groups) == GroupCodes(init) + {last.code}
  {
  }

  lemma {:induction false} ItemsCodes(cfg: Config, lines: seq<Line>, code: string)
    requires Readable(cfg, lines)
    ensures (exists e :: e in Items(cfg, lines) && e.code == code) <==>
      exists w :: w in Spellings(cfg, lines) && CodeText(cfg, w) == code
  {
    hide CodeOf;
    if lines != [] {
      var init, last := lines[..|lines| - 1], lines[|lines| - 1];
      ItemsCodes(cfg, init, code);
      if Accepted(cfg, last) {
        assert Spellings(cfg, lines) == Spellings(cfg, init) + {last.py};
        assert Items(cfg, lines) == Items(cfg, init) + [ItemOf(cfg, last)];
        assert CodeText(cfg, last.py) == ItemOf(cfg, last).code;
      } else {
        assert Spellings(cfg, lines) == Spellings(cfg, init);
        assert Items(cfg, lines) == Items(cfg, init);
      }
    }
  }

  lemma SortedCodes(l: seq<Item>, out: seq<Item>, code: string)
    requires StableSort(ItemKey(), l, out)
    ensures (exists e :: e in out && e.code == code) <==> exists e :: e in l && e.code == code
  {
    hide OfKey, Sorted;
    assert OfKey(ItemKey(), out, code) == OfKey(ItemKey(), l, code);
    if e :| e in out && e.code == code {
      OfKeyMember(ItemKey(), out, code, e);
      OfKeyMember(ItemKey(), l, code, e);
    }
    if e :| e in l && e.code == code {
      OfKeyMember(ItemKey(), out, code, e);
      OfKeyMember(ItemKey(), l, code, e);
    }
  }

  /** As many groups are written as there are different accepted spellings. */
  lemma {:induction false} GroupsAreSpellings(cfg: Config, lines: seq<Line>, groups: seq<CodeGroup>)
    requires Plain(cfg) && Readable(cfg, lines)
    requires StableSort(ItemKey(), Items(cfg, lines), Flatten(groups)) && Maximal(groups)
    ensures |groups| == |Spellings(cfg, lines)|
  {
    hide CodeOf, Items, Flatten, Maximal, StableSort, Spelt;
    var a, b := Spellings(cfg, lines), GroupCodes(groups);
    forall x, y | x in a && y in a && CodeText(cfg, x) == CodeText(cfg, y)
      ensures x == y
    {
      CodesAreInjective(cfg, x, y);
    }
    forall code
      ensures code in b <==> exists w :: w in a && CodeText(cfg, w) == code
    {
      FlattenCodes(groups, code);
      SortedCodes(Items(cfg, lines), Flatten(groups), code);
      ItemsCodes(cfg, lines, code);
    }
    assert b == set x | x in a :: CodeText(cfg, x);
    InjectiveImage(cfg, a, b);
    GroupCodesSize(groups);
  }

  /** The header counts the groups if and only if every accepted spelling is a standard
      syllable, a row of the table without an option; otherwise it counts too few. */
  lemma {:induction false} HeaderCountsGroups(cfg: Config, table: seq<Row>, lines: seq<Line>, groups: seq<CodeGroup>)
    requires Plain(cfg) && NoRepeats(table) && Readable(cfg, lines)
    requires StableSort(ItemKey(), Items(cfg, lines), Flatten(groups)) && Maximal(groups)
    ensures Tallied(cfg, table, lines) == |groups| <==>
      forall i :: 0 <= i < |lines| && Accepted(cfg, lines[i]) ==> Standard(table, lines[i].py)
    ensures Tallied(cfg, table, lines) <= |groups|
  {
    hide CodeOf, Items, Flatten, Maximal, StableSort, Spelt, Tallied;
    GroupsAreSpellings(cfg, lines, groups);
    TalliedSize(cfg, table, lines);
    var a, t := Spellings(cfg, lines), TalliedWords(cfg, table, lines);
    assert t <= a;
    SubsetSize(t, a);
    forall i | 0 <= i < |lines| && Accepted(cfg, lines[i])
      ensures lines[i].py in a && (lines[i].py in t <==> Standard(table, lines[i].py))
    {
      assert Spells(cfg, lines, lines[i].py);
    }
  }

  /** An initial is accepted as a spelling.  One line spelled "b" makes a group, which the header
      does not count where the table has no syllable "b". */
  lemma InitialIsNotCounted(cfg: Config, table: seq<Row>, hz: string, groups: seq<CodeGroup>)
    requires Plain(cfg) && NoRepeats(table) && !Standard(table, "b") && hz != ""
    ensures var lines := [Line("b", hz)];
      && Readable(cfg, lines) && Accepted(cfg, lines[0])
      && Tallied(cfg, table, lines) == 0
      && (StableSort(ItemKey(), Items(cfg, lines), Flatten(groups)) && Maximal(groups) ==> |groups| == 1)
  {
    hide CodeOf, Items, Flatten, Maximal, StableSort, Tallied;
    var lines := [Line("b", hz)];
    LetterIsCoded(cfg, "b");
    TalliedSize(cfg, table, lines);
    assert TalliedWords(cfg, table, lines) == {};
    if StableSort(ItemKey(), Items(cfg, lines), Flatten(groups)) && Maximal(groups) {
      GroupsAreSpellings(cfg, lines, groups);
      assert lines[0].py in Spellings(cfg, lines);
      assert Spellings(cfg, lines) == {"b"};
    }
  }

  lemma LetterIsCoded(cfg: Config, s: string)
    requires Plain(cfg) && |s| == 1 && Letter(s[0])
    ensures CodeOf(cfg, s, SYSTEM).Code?
  {
    hide CodeOf;
    assert s == [s[0]];
    CodedSpellings(cfg, s, SYSTEM);
  }

  lemma SubsetSize(t: set<string>, a: set<string>)
    requires t <= a
    ensures |t| <= |a| && (|t| == |a| <==> t == a)
  {
    var d := a - t;
    assert a == t + d && |a| == |t| + |d|;
  }
}
