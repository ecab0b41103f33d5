/** The file of user phrases: saving, loading, and the stand-alone reader
    (src/im/pinyin/py.c:263-329, 1677-1703, tools/cli/pyTools.c:27-112). */
module PhraseFile {
  import opened Binary
  import opened Dictionary

  /** What the file holds for one character that has user phrases. */
  datatype Saved = Saved(group: nat, hz: string, phrases: seq<Phrase>)

  const UTF8_MAX_LENGTH := 6
  const INT32 := 0x8000_0000

  /** The sizes the file format can hold; stamps and hit counts take all 32 bits. */
  predicate Storable(p: Phrase) {
    |p.strMap| < INT32 && |p.text| < INT32 && p.stamp < 0x1_0000_0000 && p.hit < 0x1_0000_0000
  }

  predicate StorableEntry(e: Saved) {
    && e.group < INT32 && 0 < |e.hz| <= UTF8_MAX_LENGTH && |e.phrases| < INT32
    && forall k :: 0 <= k < |e.phrases| ==> Storable(e.phrases[k])
  }

  predicate StorableAll(es: seq<Saved>) {
    forall i :: 0 <= i < |es| ==> StorableEntry(es[i])
  }

  /* ----- bytes ----- */

  function PhraseBytes(p: Phrase): string {
    U32(|p.strMap|) + p.strMap + U32(|p.text|) + p.text + U32(p.stamp) + U32(p.hit)
  }

  function PhrasesBytes(ps: seq<Phrase>): string {
    if ps == [] then "" else PhrasesBytes(ps[..|ps| - 1]) + PhraseBytes(ps[|ps| - 1])
  }

  function EntryBytes(e: Saved): string {
    U32(e.group) + [(|e.hz| % 256) as char] + e.hz + U32(|e.phrases|) + PhrasesBytes(e.phrases)
  }

  function FileBytes(es: seq<Saved>): string
    requires StorableAll(es)
  {
    if es == [] then "" else FileBytes(es[..|es| - 1]) + EntryBytes(es[|es| - 1])
  }

  lemma {:induction false} PhrasesCons(ps: seq<Phrase>)
    requires ps != []
    ensures PhrasesBytes(ps) == PhraseBytes(ps[0]) + PhrasesBytes(ps[1..])
  {
    hide PhraseBytes;
    var last := |ps| - 1;
    if last > 0 {
      PhrasesCons(ps[..last]);
      assert ps[..last][1..] == ps[1..][..last - 1];
    } else {
      assert ps[..0] == [] && ps[1..] == [];
      assert "" + PhraseBytes(ps[0]) == PhraseBytes(ps[0]) + "";
    }
  }

  lemma {:induction false} FileCons(es: seq<Saved>)
    requires StorableAll(es) && es != []
    ensures FileBytes(es) == EntryBytes(es[0]) + FileBytes(es[1..])
  {
    hide EntryBytes, StorableEntry;
    var last := |es| - 1;
    if last > 0 {
      FileCons(es[..last]);
      assert es[..last][1..] == es[1..][..last - 1];
    } else {
      assert es[..0] == [] && es[1..] == [];
      assert "" + EntryBytes(es[0]) == EntryBytes(es[0]) + "";
    }
  }

  /* ----- saving ----- */

  function GroupEntries(i: nat, bases: seq<Base>): seq<Saved> {
    if bases == [] then []
    else
      var last := bases[|bases| - 1];
      GroupEntries(i, bases[..|bases| - 1]) + (if last.user == [] then [] else [Saved(i, last.hz, last.user)])
  }

  /** One entry for every character with user phrases, in dictionary order. */
  function Entries(dict: seq<Group>): seq<Saved> {
    if dict == [] then []
    else Entries(dict[..|dict| - 1]) + GroupEntries(|dict| - 1, dict[|dict| - 1].bases)
  }

  predicate StorableDict(dict: seq<Group>) {
    |dict| < INT32 &&
    forall i, j :: 0 <= i < |dict| && 0 <= j < |dict[i].bases| ==>
      var b := dict[i].bases[j];
      0 < |b.hz| <= UTF8_MAX_LENGTH && |b.user| < INT32 && forall k :: 0 <= k < |b.user| ==> Storable(b.user[k])
  }

  lemma {:induction false} GroupEntriesStorable(i: nat, bases: seq<Base>)
    requires i < INT32
    requires forall j :: 0 <= j < |bases| ==>
      0 < |bases[j].hz| <= UTF8_MAX_LENGTH && |bases[j].user| < INT32 && forall k :: 0 <= k < |bases[j].user| ==>
        Storable(bases[j].user[k])
    ensures StorableAll(GroupEntries(i, bases))
  {
    hide Storable;
    if bases != [] { GroupEntriesStorable(i, bases[..|bases| - 1]); }
  }

  lemma {:induction false} EntriesStorable(dict: seq<Group>)
    requires StorableDict(dict)
    ensures StorableAll(Entries(dict))
  {
    hide Storable, StorableEntry;
    if dict != [] {
      EntriesStorable(dict[..|dict| - 1]);
      GroupEntriesStorable(|dict| - 1, dict[|dict| - 1].bases);
    }
  }

  lemma {:induction false} FileConcat(a: seq<Saved>, b: seq<Saved>)
    requires StorableAll(a) && StorableAll(b)
    ensures StorableAll(a + b) && FileBytes(a + b) == FileBytes(a) + FileBytes(b)
    decreases |b|
  {
    hide EntryBytes, StorableEntry;
    if b == [] {
      assert a + b == a;
    } else {
      assert (a + b)[..|a + b| - 1] == a + b[..|b| - 1];
      FileConcat(a, b[..|b| - 1]);
    }
  }

  method SavePhrases(ps: seq<Phrase>) returns (bytes: string)
    ensures bytes == PhrasesBytes(ps)
  {
    hide PhraseBytes;
    bytes := "";
    var k := 0;
    while k < |ps|
      invariant 0 <= k <= |ps| && bytes == PhrasesBytes(ps[..k])
    {
      assert ps[..k + 1][..k] == ps[..k];
      bytes := bytes + PhraseBytes(ps[k]);
      k := k + 1;
    }
    assert ps[..k] == ps;
  }

  /** SavePYUserPhrase: the characters without user phrases are passed over. */
  method SavePYUserPhrase(dict: seq<Group>) returns (bytes: string)
    requires StorableDict(dict)
    ensures StorableAll(Entries(dict)) && bytes == FileBytes(Entries(dict))
  {
    hide Storable, StorableEntry, EntryBytes;
    bytes := "";
    var i := 0;
    while i < |dict|
      invariant 0 <= i <= |dict|
      invariant StorableAll(Entries(dict[..i])) && bytes == FileBytes(Entries(dict[..i]))
    {
      var group := SaveGroup(i, dict[i].bases);
      FileConcat(Entries(dict[..i]), GroupEntries(i, dict[i].bases));
      assert dict[..i + 1][..i] == dict[..i];
      bytes := bytes + group;
      i := i + 1;
    }
    assert dict[..i] == dict;
  }

  method SaveGroup(i: nat, bases: seq<Base>) returns (bytes: string)
    requires i < INT32
    requires forall j :: 0 <= j < |bases| ==>
      0 < |bases[j].hz| <= UTF8_MAX_LENGTH && |bases[j].user| < INT32 && forall k :: 0 <= k < |bases[j].user| ==>
        Storable(bases[j].user[k])
    ensures StorableAll(GroupEntries(i, bases)) && bytes == FileBytes(GroupEntries(i, bases))
  {
    hide Storable, EntryBytes;
    bytes := "";
    var j := 0;
    while j < |bases|
      invariant 0 <= j <= |bases|
      invariant StorableAll(GroupEntries(i, bases[..j])) && bytes == FileBytes(GroupEntries(i, bases[..j]))
    {
      assert bases[..j + 1][..j] == bases[..j];
      if bases[j].user != [] {
        OneEntryMore(GroupEntries(i, bases[..j]), Saved(i, bases[j].hz, bases[j].user));
        var entry := SaveEntry(i, bases[j]);
        bytes := bytes + entry;
      } else {
        assert GroupEntries(i, bases[..j + 1]) == GroupEntries(i, bases[..j]);
      }
      j := j + 1;
    }
    assert bases[..j] == bases;
  }

  method SaveEntry(i: nat, base: Base) returns (bytes: string)
    ensures bytes == EntryBytes(Saved(i, base.hz, base.user))
  {
    hide PhrasesBytes;
    var clen := (|base.hz| % 256) as char;
    var phrases := SavePhrases(base.user);
    bytes := U32(i) + [clen] + base.hz + U32(|base.user|) + phrases;
  }

  lemma {:induction false} OneEntryMore(es: seq<Saved>, e: Saved)
    requires StorableAll(es) && StorableEntry(e)
    ensures StorableAll(es + [e]) && FileBytes(es + [e]) == FileBytes(es) + EntryBytes(e)
  {
    hide StorableEntry, EntryBytes;
    assert (es + [e])[..|es|] == es;
  }

  /* ----- reading ----- */

  /** Where the fields of one phrase lie in front of `rest`. */
  lemma {:induction false} PhraseFields(p: Phrase, rest: string)
    requires Storable(p)
    ensures var f := PhraseBytes(p) + rest;
      var n, m := |p.strMap|, |p.text|;
      && |f| == 16 + n + m + |rest| && f[16 + n + m..] == rest
      && U32At(f, 0) == n && f[4..4 + n] == p.strMap
      && U32At(f, 4 + n) == m && f[8 + n..8 + n + m] == p.text
      && U32At(f, 8 + n + m) == p.stamp && U32At(f, 12 + n + m) == p.hit
  {
    hide U32, U32At;
    var f := PhraseBytes(p) + rest;
    var n, m := |p.strMap|, |p.text|;
    TextFields(p.strMap, p.text, U32(p.stamp) + U32(p.hit) + rest);
    var head := U32(n) + p.strMap + U32(m) + p.text;
    assert f == head + (U32(p.stamp) + U32(p.hit) + rest);
    assert f == head + U32(p.stamp) + (U32(p.hit) + rest);
    U32RoundTrip(head, p.stamp, U32(p.hit) + rest);
    assert f == (head + U32(p.stamp)) + U32(p.hit) + rest;
    U32RoundTrip(head + U32(p.stamp), p.hit, rest);
  }

  /** Two texts, each behind its length. */
  lemma {:induction false} TextFields(a: string, b: string, rest: string)
    requires |a| < INT32 && |b| < INT32
    ensures var f := U32(|a|) + a + U32(|b|) + b + rest;
      var n, m := |a|, |b|;
      && U32At(f, 0) == n && f[4..4 + n] == a
      && U32At(f, 4 + n) == m && f[8 + n..8 + n + m] == b
      && f[8 + n + m..] == rest
  {
    hide U32, U32At;
    var f := U32(|a|) + a + U32(|b|) + b + rest;
    assert f == "" + U32(|a|) + (a + U32(|b|) + b + rest);
    U32RoundTrip("", |a|, a + U32(|b|) + b + rest);
    assert f == (U32(|a|) + a) + U32(|b|) + (b + rest);
    U32RoundTrip(U32(|a|) + a, |b|, b + rest);
  }

  /** One phrase in front of `rest`, as the loader reads it; `size` is its length. */
  method ReadPhrase(ahead: string, ghost p: Phrase, ghost rest: string) returns (q: Phrase, size: nat)
    requires Storable(p) && ahead == PhraseBytes(p) + rest
    ensures q == p && size <= |ahead| && ahead[size..] == rest
  {
    hide PhraseBytes, U32At;
    PhraseFields(p, rest);
    var n := U32At(ahead, 0);
    var m := U32At(ahead, 4 + n);
    q := Phrase(ahead[8 + n..8 + n + m], ahead[4..4 + n], U32At(ahead, 12 + n + m), U32At(ahead, 8 + n + m));
    size := 16 + n + m;
  }

  /** The fields in front of an entry's phrases. */
  method ReadHeader(ahead: string, ghost e: Saved, ghost rest: string)
      returns (group: nat, hz: string, count: nat, size: nat)
    requires StorableEntry(e) && ahead == EntryBytes(e) + rest
    ensures group == e.group && hz == e.hz && count == |e.phrases|
    ensures size <= |ahead| && ahead[size..] == PhrasesBytes(e.phrases) + rest
  {
    hide U32, U32At, PhrasesBytes;
    HeaderFields(e, rest);
    group := U32At(ahead, 0);
    var clen := ahead[4] as nat;
    hz := ahead[5..5 + clen];
    count := U32At(ahead, 5 + clen);
    size := 9 + clen;
  }

  /** Where the fields of an entry lie in front of its phrases. */
  lemma {:induction false} HeaderFields(e: Saved, rest: string)
    requires StorableEntry(e)
    ensures var f := EntryBytes(e) + rest;
      var n := |e.hz|;
      && |f| >= 9 + n && f[4] as nat == n && f[5..5 + n] == e.hz
      && U32At(f, 0) == e.group && U32At(f, 5 + n) == |e.phrases|
      && f[9 + n..] == PhrasesBytes(e.phrases) + rest
  {
    hide U32, U32At, PhrasesBytes;
    var f, n := EntryBytes(e) + rest, |e.hz|;
    var body := PhrasesBytes(e.phrases) + rest;
    var head := U32(e.group) + [n as char] + e.hz;
    assert f == head + U32(|e.phrases|) + body;
    U32RoundTrip(head, |e.phrases|, body);
    var tail := [n as char] + e.hz + U32(|e.phrases|) + body;
    assert f == "" + U32(e.group) + tail;
    U32RoundTrip("", e.group, tail);
  }

  /** The first character of the group with this text, or the number of characters. */
  function BaseIndex(bases: seq<Base>, hz: string): (r: nat)
    ensures r <= |bases| && (r < |bases| ==> bases[r].hz == hz)
  {
    if bases == [] then 0 else if bases[0].hz == hz then 0 else 1 + BaseIndex(bases[1..], hz)
  }

  method GetBaseIndex(dict: seq<Group>, i: nat, hz: string) returns (j: int)
    ensures j == if i < |dict| && BaseIndex(dict[i].bases, hz) < |dict[i].bases|
      then BaseIndex(dict[i].bases, hz) else -1
  {
    if i < |dict| {
      ghost var bases := dict[i].bases;
      var k := 0;
      while k < |dict[i].bases|
        invariant 0 <= k <= |bases| && BaseIndex(bases, hz) == k + BaseIndex(bases[k..], hz)
      {
        if hz == dict[i].bases[k].hz { return k; }
        assert bases[k..][1..] == bases[k + 1..];
        k := k + 1;
      }
    }
    return -1;
  }

  predicate Known(dict: seq<Group>, e: Saved) {
    e.group < |dict| && BaseIndex(dict[e.group].bases, e.hz) < |dict[e.group].bases|
  }

  predicate AllKnown(dict: seq<Group>, es: seq<Saved>) {
    forall i :: 0 <= i < |es| ==> Known(dict, es[i])
  }

  /** The list of one character replaced. */
  function Put(dict: seq<Group>, e: Saved): seq<Group> {
    if Known(dict, e) then
      var bases := dict[e.group].bases;
      var j := BaseIndex(bases, e.hz);
      dict[e.group := dict[e.group].(bases := bases[j := bases[j].(user := e.phrases)])]
    else dict
  }

  function Fill(dict: seq<Group>, es: seq<Saved>): seq<Group> {
    if es == [] then dict else Put(Fill(dict, es[..|es| - 1]), es[|es| - 1])
  }

  /** iCounter raised to the stamps met. */
  function Raised(counter: nat, ps: seq<Phrase>): nat {
    if ps == [] then counter
    else
      var c := Raised(counter, ps[..|ps| - 1]);
      if ps[|ps| - 1].stamp > c then ps[|ps| - 1].stamp else c
  }

  function RaisedAll(counter: nat, es: seq<Saved>): nat {
    if es == [] then counter else Raised(RaisedAll(counter, es[..|es| - 1]), es[|es| - 1].phrases)
  }

  /** The phrases of one entry, each linked behind the one before. */
  method ReadPhrases(ahead: string, count: nat, iCounter: nat, ghost ps: seq<Phrase>, ghost rest: string)
      returns (list: seq<Phrase>, counter: nat, size: nat)
    requires count == |ps| && (forall k :: 0 <= k < |ps| ==> Storable(ps[k])) && ahead == PhrasesBytes(ps) + rest
    ensures list == ps && counter == Raised(iCounter, ps) && size <= |ahead| && ahead[size..] == rest
  {
    hide Storable, PhraseBytes, PhrasesBytes;
    list, counter, size := [], iCounter, 0;
    var k := 0;
    assert ps[0..] == ps && ahead[0..] == ahead;
    while k < count
      invariant 0 <= k <= count && size <= |ahead|
      invariant list == ps[..k] && counter == Raised(iCounter, ps[..k])
      invariant ahead[size..] == PhrasesBytes(ps[k..]) + rest
    {
      PhrasesCons(ps[k..]);
      assert ps[k..][1..] == ps[k + 1..];
      assert ahead[size..] == PhraseBytes(ps[k]) + (PhrasesBytes(ps[k + 1..]) + rest);
      var p, n := ReadPhrase(ahead[size..], ps[k], PhrasesBytes(ps[k + 1..]) + rest);
      assert ahead[size..][n..] == ahead[size + n..];
      assert ps[..k + 1][..k] == ps[..k];
      if p.stamp > counter { counter := p.stamp; }
      list, size, k := list + [p], size + n, k + 1;
    }
    assert ps[..k] == ps;
    NoPhrases(ps, k);
  }

  lemma NoPhrases(ps: seq<Phrase>, k: nat)
    requires k == |ps|
    ensures PhrasesBytes(ps[k..]) == "" && forall rest: string :: "" + rest == rest
  {
  }

  lemma {:induction false} FileAhead(es: seq<Saved>, n: nat)
    requires StorableAll(es) && n <= |es|
    ensures n == |es| ==> FileBytes(es[n..]) == ""
    ensures n < |es| ==> FileBytes(es[n..]) == EntryBytes(es[n]) + FileBytes(es[n + 1..]) && |FileBytes(es[n..])| >= 4
  {
    hide U32;
    if n < |es| {
      FileCons(es[n..]);
      assert es[n..][1..] == es[n + 1..];
    }
  }

  predicate SameChars(a: seq<Base>, b: seq<Base>) {
    |a| == |b| && forall i :: 0 <= i < |a| ==> a[i].hz == b[i].hz
  }

  lemma {:induction false} SameIndex(a: seq<Base>, b: seq<Base>, hz: string)
    requires SameChars(a, b)
    ensures BaseIndex(a, hz) == BaseIndex(b, hz)
  {
    if a != [] { SameIndex(a[1..], b[1..], hz); }
  }

  /** Filling lists changes no characters, so every entry stays known. */
  lemma {:induction false} StillKnown(dict: seq<Group>, es: seq<Saved>, e: Saved)
    ensures Known(Fill(dict, es), e) <==> Known(dict, e)
  {
    if es != [] {
      var before := Fill(dict, es[..|es| - 1]);
      var last := es[|es| - 1];
      StillKnown(dict, es[..|es| - 1], e);
      if Known(before, last) && e.group == last.group {
        SameIndex(before[e.group].bases, Put(before, last)[e.group].bases, e.hz);
      }
    }
  }

  /** LoadPYPhraseDict for the user file: every entry is looked up and its list filled. */
  method LoadUserPhrases(dict: seq<Group>, iCounter: nat, file: string, ghost es: seq<Saved>)
      returns (loaded: seq<Group>, counter: nat)
    requires StorableAll(es) && file == FileBytes(es) && AllKnown(dict, es)
    ensures loaded == Fill(dict, es) && counter == RaisedAll(iCounter, es)
  {
    hide EntryBytes, Storable, PhrasesBytes, FileBytes, Known;
    loaded, counter := dict, iCounter;
    var p := 0;
    ghost var n := 0;
    assert es[0..] == es && file[0..] == file;
    FileAhead(es, 0);
    while p + 4 <= |file|
      invariant 0 <= n <= |es| && p <= |file|
      invariant file[p..] == FileBytes(es[n..]) && (n < |es| <==> p + 4 <= |file|)
      invariant loaded == Fill(dict, es[..n]) && counter == RaisedAll(iCounter, es[..n])
      decreases |es| - n
    {
      ghost var e := es[n];
      FileAhead(es, n);
      var i, strBase, count, size := ReadHeader(file[p..], e, FileBytes(es[n + 1..]));
      StillKnown(dict, es[..n], e);
      var j := GetBaseIndex(loaded, i, strBase);
      assert j != -1 by { assert Known(loaded, e); KnownIndex(loaded, e); }
      var list, raised, length := ReadPhrases(file[p..][size..], count, counter, e.phrases, FileBytes(es[n + 1..]));
      KnownIndex(loaded, e);
      counter := raised;
      loaded := loaded[i := loaded[i].(bases := loaded[i].bases[j := loaded[i].bases[j].(user := list)])];
      assert file[p..][size..][length..] == file[p + size + length..];
      assert es[..n + 1][..n] == es[..n];
      FileAhead(es, n + 1);
      p, n := p + size + length, n + 1;
    }
    assert es[..n] == es;
  }

  lemma KnownIndex(dict: seq<Group>, e: Saved)
    requires Known(dict, e)
    ensures e.group < |dict| && BaseIndex(dict[e.group].bases, e.hz) < |dict[e.group].bases|
  {
  }

  /* ----- saving and loading undo each other ----- */

  function NoUser(bases: seq<Base>): (r: seq<Base>)
    ensures |r| == |bases| && forall j :: 0 <= j < |bases| ==> r[j] == bases[j].(user := [])
  {
    if bases == [] then [] else NoUser(bases[..|bases| - 1]) + [bases[|bases| - 1].(user := [])]
  }

  /** The dictionary before the user file is loaded. */
  function Emptied(dict: seq<Group>): (r: seq<Group>)
    ensures |r| == |dict| && forall i :: 0 <= i < |dict| ==> r[i] == dict[i].(bases := NoUser(dict[i].bases))
  {
    if dict == [] then []
    else
      var last := dict[|dict| - 1];
      Emptied(dict[..|dict| - 1]) + [last.(bases := NoUser(last.bases))]
  }

  predicate DistinctChars(bases: seq<Base>) {
    forall i, j :: 0 <= i < j < |bases| ==> bases[i].hz != bases[j].hz
  }

  lemma {:induction false} IndexOfOwn(bases: seq<Base>, j: nat)
    requires DistinctChars(bases) && j < |bases|
    ensures BaseIndex(bases, bases[j].hz) == j
  {
    if j > 0 {
      assert bases[0].hz != bases[j].hz;
      IndexOfOwn(bases[1..], j - 1);
    }
  }

  lemma {:induction false} FillConcat(dict: seq<Group>, a: seq<Saved>, b: seq<Saved>)
    ensures Fill(dict, a + b) == Fill(Fill(dict, a), b)
    decreases |b|
  {
    hide Put;
    if b == [] {
      assert a + b == a;
    } else {
      assert (a + b)[..|a + b| - 1] == a + b[..|b| - 1];
      FillConcat(dict, a, b[..|b| - 1]);
    }
  }

  function With(dict: seq<Group>, i: nat, bases: seq<Base>): seq<Group>
    requires i < |dict|
  {
    dict[i := dict[i].(bases := bases)]
  }

  /** The first n characters with their user phrases, the others still without. */
  function Half(bases: seq<Base>, n: nat): (r: seq<Base>)
    requires n <= |bases|
    ensures |r| == |bases|
    ensures forall j :: 0 <= j < |bases| ==> r[j] == if j < n then bases[j] else bases[j].(user := [])
  {
    bases[..n] + NoUser(bases)[n..]
  }

  lemma HalfStep(bases: seq<Base>, m: nat)
    requires m < |bases|
    ensures Half(bases, m + 1) == Half(bases, m)[m := Half(bases, m)[m].(user := bases[m].user)]
    ensures bases[m].user == [] ==> Half(bases, m + 1) == Half(bases, m)
    ensures SameChars(bases, Half(bases, m))
  {
    hide NoUser;
    var next := Half(bases, m)[m := Half(bases, m)[m].(user := bases[m].user)];
    assert forall j :: 0 <= j < |bases| ==> Half(bases, m + 1)[j] == next[j];
  }

  /** Filling one group character by character. */
  lemma {:induction false} FillGroup(dict: seq<Group>, i: nat, bases: seq<Base>, n: nat)
    requires i < |dict| && dict[i].bases == NoUser(bases) && DistinctChars(bases) && n <= |bases|
    ensures Fill(dict, GroupEntries(i, bases[..n])) == With(dict, i, Half(bases, n))
    decreases n
  {
    hide NoUser, DistinctChars, Half, Put, SameChars;
    if n == 0 {
      HalfNone(bases);
      assert With(dict, i, dict[i].bases) == dict;
    } else {
      FillGroup(dict, i, bases, n - 1);
      FillGroupStep(dict, i, bases, n - 1);
    }
  }

  lemma {:induction false} FillGroupStep(dict: seq<Group>, i: nat, bases: seq<Base>, m: nat)
    requires i < |dict| && DistinctChars(bases) && m < |bases|
    requires Fill(dict, GroupEntries(i, bases[..m])) == With(dict, i, Half(bases, m))
    ensures Fill(dict, GroupEntries(i, bases[..m + 1])) == With(dict, i, Half(bases, m + 1))
  {
    hide NoUser, DistinctChars, Half, Put, SameChars, Fill;
    HalfStep(bases, m);
    var e := Saved(i, bases[m].hz, bases[m].user);
    EntriesStep(i, bases, m);
    if bases[m].user != [] {
      IndexOfOwn(bases, m);
      SameIndex(bases, Half(bases, m), e.hz);
      PutAt(With(dict, i, Half(bases, m)), e, m);
      FillSnoc(dict, GroupEntries(i, bases[..m]), e);
    }
  }

  lemma {:induction false} EntriesStep(i: nat, bases: seq<Base>, m: nat)
    requires m < |bases|
    ensures GroupEntries(i, bases[..m + 1]) ==
      if bases[m].user == [] then GroupEntries(i, bases[..m])
      else GroupEntries(i, bases[..m]) + [Saved(i, bases[m].hz, bases[m].user)]
  {
    assert bases[..m + 1][..m] == bases[..m] && bases[..m + 1][m] == bases[m];
  }

  lemma {:induction false} HalfNone(bases: seq<Base>)
    ensures Half(bases, 0) == NoUser(bases) && Half(bases, |bases|) == bases
  {
    hide NoUser;
    assert bases[..0] + NoUser(bases)[0..] == NoUser(bases);
    assert bases[..|bases|] + NoUser(bases)[|bases|..] == bases;
  }

  lemma PutAt(dict: seq<Group>, e: Saved, m: nat)
    requires e.group < |dict| && m < |dict[e.group].bases| && BaseIndex(dict[e.group].bases, e.hz) == m
    ensures Put(dict, e) == With(dict, e.group, dict[e.group].bases[m := dict[e.group].bases[m].(user := e.phrases)])
  {
  }

  lemma {:induction false} FillSnoc(dict: seq<Group>, es: seq<Saved>, e: Saved)
    ensures Fill(dict, es + [e]) == Put(Fill(dict, es), e)
  {
    hide Put;
    assert (es + [e])[..|es|] == es;
  }

  lemma {:induction false} FillPrefix(dict: seq<Group>, n: nat)
    requires n <= |dict| && forall i :: 0 <= i < |dict| ==> DistinctChars(dict[i].bases)
    ensures Fill(Emptied(dict), Entries(dict[..n])) == dict[..n] + Emptied(dict)[n..]
    decreases n
  {
    hide DistinctChars, Fill, NoUser, Half, Emptied;
    if n == 0 {
      assert dict[..0] + Emptied(dict)[0..] == Emptied(dict);
      FillNone(dict);
    } else {
      var m := n - 1;
      FillPrefix(dict, m);
      assert dict[..n][..m] == dict[..m] && dict[..n][m] == dict[m];
      var was := dict[..m] + Emptied(dict)[m..];
      FillConcat(Emptied(dict), Entries(dict[..m]), GroupEntries(m, dict[m].bases));
      assert was[m].bases == NoUser(dict[m].bases);
      FillGroup(was, m, dict[m].bases, |dict[m].bases|);
      assert dict[m].bases[..|dict[m].bases|] == dict[m].bases;
      HalfNone(dict[m].bases);
      PrefixStep(dict, Emptied(dict), m);
    }
  }

  lemma {:induction false} FillNone(dict: seq<Group>)
    ensures Fill(Emptied(dict), Entries(dict[..0])) == Emptied(dict)
  {
  }

  lemma PrefixStep(dict: seq<Group>, empty: seq<Group>, m: nat)
    requires |dict| == |empty| && m < |dict| && empty[m].strMap == dict[m].strMap
    ensures With(dict[..m] + empty[m..], m, dict[m].bases) == dict[..m + 1] + empty[m + 1..]
  {
  }

  /** Loading what was saved into the dictionary without user phrases gives back every list,
      in order, stamps and hits included; and the counter ends no lower than any stamp. */
  lemma {:induction false} SaveThenLoad(dict: seq<Group>, iCounter: nat)
    requires forall i :: 0 <= i < |dict| ==> DistinctChars(dict[i].bases)
    ensures Fill(Emptied(dict), Entries(dict)) == dict
    ensures RaisedAll(iCounter, Entries(dict)) >= iCounter
    ensures forall i, k :: 0 <= i < |Entries(dict)| && 0 <= k < |Entries(dict)[i].phrases| ==>
      Entries(dict)[i].phrases[k].stamp <= RaisedAll(iCounter, Entries(dict))
  {
    hide DistinctChars;
    FillPrefix(dict, |dict|);
    assert dict[..|dict|] == dict && dict + Emptied(dict)[|dict|..] == dict;
    RaisedIsBound(iCounter, Entries(dict));
  }

  lemma {:induction false} RaisedByOne(c: nat, ps: seq<Phrase>)
    ensures Raised(c, ps) >= c && forall k :: 0 <= k < |ps| ==> ps[k].stamp <= Raised(c, ps)
    ensures Raised(c, ps) == c || exists k :: 0 <= k < |ps| && ps[k].stamp == Raised(c, ps)
  {
    if ps != [] { RaisedByOne(c, ps[..|ps| - 1]); }
  }

  lemma {:induction false} RaisedIsBound(c: nat, es: seq<Saved>)
    ensures RaisedAll(c, es) >= c
    ensures forall i, k :: 0 <= i < |es| && 0 <= k < |es[i].phrases| ==> es[i].phrases[k].stamp <= RaisedAll(c, es)
  {
    if es != [] {
      RaisedIsBound(c, es[..|es| - 1]);
      RaisedByOne(RaisedAll(c, es[..|es| - 1]), es[|es| - 1].phrases);
    }
  }

  /** What was saved can be loaded: every entry is known to the emptied dictionary. */
  lemma {:induction false} SavedIsKnown(dict: seq<Group>, es: seq<Saved>)
    requires es == Entries(dict)
    ensures AllKnown(Emptied(dict), es)
  {
    forall k | 0 <= k < |es| ensures Known(Emptied(dict), es[k]) {
      var i, j := EntryOrigin(dict, k);
      HasIndex(NoUser(dict[i].bases), j);
    }
  }

  lemma {:induction false} HasIndex(bases: seq<Base>, j: nat)
    requires j < |bases|
    ensures BaseIndex(bases, bases[j].hz) < |bases|
  {
    if j > 0 && bases[0].hz != bases[j].hz { HasIndex(bases[1..], j - 1); }
  }

  lemma {:induction false} EntryOrigin(dict: seq<Group>, k: nat) returns (i: nat, j: nat)
    requires k < |Entries(dict)|
    ensures i < |dict| && j < |dict[i].bases|
    ensures Entries(dict)[k].group == i && Entries(dict)[k].hz == dict[i].bases[j].hz
  {
    hide GroupEntries;
    var last := |dict| - 1;
    var n := |Entries(dict[..last])|;
    if k < n {
      i, j := EntryOrigin(dict[..last], k);
    } else {
      i := last;
      j := GroupOrigin(last, dict[last].bases, k - n);
    }
  }

  lemma {:induction false} GroupOrigin(i: nat, bases: seq<Base>, k: nat) returns (j: nat)
    requires k < |GroupEntries(i, bases)|
    ensures j < |bases| && GroupEntries(i, bases)[k].group == i && GroupEntries(i, bases)[k].hz == bases[j].hz
  {
    var last := |bases| - 1;
    if k < |GroupEntries(i, bases[..last])| {
      j := GroupOrigin(i, bases[..last], k);
    } else {
      j := last;
    }
  }

  /** Both ways at once. */
  method SaveAndLoad(dict: seq<Group>, iCounter: nat) returns (loaded: seq<Group>, counter: nat)
    requires StorableDict(dict) && forall i :: 0 <= i < |dict| ==> DistinctChars(dict[i].bases)
    ensures loaded == dict && counter >= iCounter
    ensures forall i, j, k :: 0 <= i < |dict| && 0 <= j < |dict[i].bases| && 0 <= k < |dict[i].bases[j].user| ==>
      dict[i].bases[j].user[k].stamp <= counter
  {
    hide StorableEntry, Storable, DistinctChars, Known, EntryBytes, FileBytes, Fill;
    EntriesStorable(dict);
    SavedIsKnown(dict, Entries(dict));
    SaveThenLoad(dict, iCounter);
    var file := SavePYUserPhrase(dict);
    loaded, counter := LoadUserPhrases(Emptied(dict), iCounter, file, Entries(dict));
    forall i, j, k | 0 <= i < |dict| && 0 <= j < |dict[i].bases| && 0 <= k < |dict[i].bases[j].user|
      ensures dict[i].bases[j].user[k].stamp <= counter
    {
      var e := EntryFor(dict, i, j);
      assert Entries(dict)[e].phrases[k] == dict[i].bases[j].user[k];
    }
  }

  lemma {:induction false} EntryFor(dict: seq<Group>, i: nat, j: nat) returns (e: nat)
    requires i < |dict| && j < |dict[i].bases| && dict[i].bases[j].user != []
    ensures e < |Entries(dict)| && Entries(dict)[e] == Saved(i, dict[i].bases[j].hz, dict[i].bases[j].user)
  {
    hide GroupEntries;
    var last := |dict| - 1;
    if i < last {
      e := EntryFor(dict[..last], i, j);
    } else {
      var n := GroupEntryFor(last, dict[last].bases, j);
      e := |Entries(dict[..last])| + n;
    }
  }

  lemma {:induction false} GroupEntryFor(i: nat, bases: seq<Base>, j: nat) returns (e: nat)
    requires j < |bases| && bases[j].user != []
    ensures e < |GroupEntries(i, bases)| && GroupEntries(i, bases)[e] == Saved(i, bases[j].hz, bases[j].user)
  {
    var last := |bases| - 1;
    if j < last {
      e := GroupEntryFor(i, bases[..last], j);
    } else {
      e := |GroupEntries(i, bases[..last])|;
    }
  }
}
