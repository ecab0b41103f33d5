/** The user phrases of one character on values: adding, counting a hit, deleting, and what
    any run of these keeps (src/im/pinyin/py.c:1540-1637). */
module UserPhrases {
  import opened Order
  import opened Pyfa
  import opened PyParser
  import opened Dictionary
  import opened Splicing

  /** The user and the system phrases of one character, and the counter the stamps of all
      characters come from. */
  datatype Shelf = Shelf(user: seq<Phrase>, system: seq<Phrase>, counter: nat)

  /** The counters are 32 bits wide. */
  function Tick(n: nat): nat {
    (n + 1) % 0x1_0000_0000
  }

  /** A code of whole syllables whose initials are no wildcards. */
  predicate CodeString(s: string) {
    |s| % 2 == 0 && '\0' !in s && forall i :: 0 <= i < |s| && i % 2 == 0 ==> s[i] != '0'
  }

  predicate AllCodes(l: seq<Phrase>) {
    forall i :: 0 <= i < |l| ==> CodeString(l[i].strMap)
  }

  predicate Is(p: Phrase, strMap: string, text: string) {
    p.strMap == strMap && p.text == text
  }

  function IndexFrom(l: seq<Phrase>, strMap: string, text: string, k: nat): (r: nat)
    requires k <= |l|
    ensures k <= r <= |l| && (r < |l| ==> Is(l[r], strMap, text))
    ensures forall i :: k <= i < r ==> !Is(l[i], strMap, text)
    decreases |l| - k
  {
    if k == |l| || Is(l[k], strMap, text) then k else IndexFrom(l, strMap, text, k + 1)
  }

  /** Where a new phrase goes: in front of the first one its code compares above. */
  ghost function PlaceFrom(cfg: Config, sp: bool, l: seq<Phrase>, strMap: string, k: nat): (r: nat)
    requires k <= |l|
    ensures k <= r <= |l| && (r < |l| ==> Compare(cfg, strMap, l[r].strMap, sp) > 0)
    ensures forall i :: k <= i < r ==> Compare(cfg, strMap, l[i].strMap, sp) <= 0
    decreases |l| - k
  {
    if k == |l| || Compare(cfg, strMap, l[k].strMap, sp) > 0 then k else PlaceFrom(cfg, sp, l, strMap, k + 1)
  }

  function Touched(p: Phrase, counter: nat): Phrase {
    p.(hit := Tick(p.hit), stamp := Tick(counter))
  }

  datatype Added = Added(shelf: Shelf, isNew: bool)

  /** PYAddUserPhrase for the phrase whose first character has this shelf: `text` and
      `strMap` are what follows that character. */
  ghost function AddTo(cfg: Config, sp: bool, s: Shelf, strMap: string, text: string, incHit: bool): Added {
    var u := IndexFrom(s.user, strMap, text, 0);
    var y := IndexFrom(s.system, strMap, text, 0);
    if text == "" then Added(s, false)
    else if u < |s.user| then
      Added(if incHit then Shelf(s.user[u := Touched(s.user[u], s.counter)], s.system, Tick(s.counter)) else s, false)
    else if y < |s.system| then
      Added(if incHit then Shelf(s.user, s.system[y := Touched(s.system[y], s.counter)], Tick(s.counter)) else s, false)
    else
      var p := PlaceFrom(cfg, sp, s.user, strMap, 0);
      var e := Phrase(text, strMap, 1, Tick(s.counter));
      Added(Shelf(s.user[..p] + [e] + s.user[p..], s.system, Tick(s.counter)), true)
  }

  function DeleteFrom(s: Shelf, k: nat): Shelf
    requires k < |s.user|
  {
    s.(user := s.user[..k] + s.user[k + 1..])
  }

  /* ----- what the two operations change ----- */

  /** The next value of a 32-bit counter. */
  predicate Next(n: nat, m: nat) {
    m == if n == 0xFFFF_FFFF then 0 else n + 1
  }

  /** Phrase k has one hit more and the stamp given out, all else is as it was. */
  predicate HitAt(l: seq<Phrase>, out: seq<Phrase>, k: nat, stamp: nat) {
    && |out| == |l| && k < |l|
    && (forall i :: 0 <= i < |l| && i != k ==> out[i] == l[i])
    && out[k].text == l[k].text && out[k].strMap == l[k].strMap && out[k].stamp == stamp && Next(l[k].hit, out[k].hit)
  }

  predicate FirstIs(l: seq<Phrase>, strMap: string, text: string, k: nat) {
    && k < |l| && l[k].strMap == strMap && l[k].text == text
    && forall i :: 0 <= i < k ==> l[i].strMap != strMap || l[i].text != text
  }

  predicate NowhereIn(l: seq<Phrase>, strMap: string, text: string) {
    forall i :: 0 <= i < |l| ==> l[i].strMap != strMap || l[i].text != text
  }

  /** The shelf holds one phrase more: it has one hit and the stamp given out, and stands in front
      of the first user phrase its code compares above. */
  ghost predicate NewAt(cfg: Config, sp: bool, s: Shelf, r: Shelf, strMap: string, text: string, p: nat) {
    && r.system == s.system && p < |r.user| == |s.user| + 1
    && r.user[..p] == s.user[..p] && r.user[p + 1..] == s.user[p..]
    && r.user[p] == Phrase(text, strMap, 1, r.counter)
    && (forall i :: 0 <= i < p ==> Compare(cfg, strMap, s.user[i].strMap, sp) <= 0)
    && (p < |s.user| ==> Compare(cfg, strMap, s.user[p].strMap, sp) > 0)
  }

  /** A phrase of one character is no phrase.  One that a shelf holds is hit, if hits are counted:
      the user phrase, or else the system phrase; any other becomes a user phrase. */
  lemma AddChanges(cfg: Config, sp: bool, s: Shelf, strMap: string, text: string, incHit: bool, k: nat)
    requires s.counter <= 0xFFFF_FFFF
    requires forall i :: 0 <= i < |s.user| ==> s.user[i].hit <= 0xFFFF_FFFF
    requires forall i :: 0 <= i < |s.system| ==> s.system[i].hit <= 0xFFFF_FFFF
    ensures var a := AddTo(cfg, sp, s, strMap, text, incHit);
      var r, none := a.shelf, NowhereIn(s.user, strMap, text);
      && (r == s || Next(s.counter, r.counter))
      && (a.isNew <==> text != "" && none && NowhereIn(s.system, strMap, text))
      && (text == "" ==> r == s)
      && (text != "" && FirstIs(s.user, strMap, text, k) ==>
        if incHit then HitAt(s.user, r.user, k, r.counter) && r.system == s.system else r == s)
      && (text != "" && none && FirstIs(s.system, strMap, text, k) ==>
        if incHit then HitAt(s.system, r.system, k, r.counter) && r.user == s.user else r == s)
      && (a.isNew ==> exists p :: NewAt(cfg, sp, s, r, strMap, text, p))
  {
    hide Compare, HitAt, NewAt, Next;
    var u, y := IndexFrom(s.user, strMap, text, 0), IndexFrom(s.system, strMap, text, 0);
    assert u < |s.user| <==> !NowhereIn(s.user, strMap, text);
    assert y < |s.system| <==> !NowhereIn(s.system, strMap, text);
    CountedOn(s.counter);
    if u < |s.user| {
      TouchHits(s.user, u, s.counter);
    } else if y < |s.system| {
      TouchHits(s.system, y, s.counter);
    } else if text != "" {
      NewStands(cfg, sp, s, strMap, text);
    }
  }

  lemma CountedOn(n: nat)
    requires n <= 0xFFFF_FFFF
    ensures Next(n, Tick(n))
  {
  }

  lemma TouchHits(l: seq<Phrase>, k: nat, counter: nat)
    requires k < |l| && l[k].hit <= 0xFFFF_FFFF
    ensures HitAt(l, l[k := Touched(l[k], counter)], k, Tick(counter))
  {
    hide Tick, Next;
    CountedOn(l[k].hit);
  }

  lemma NewStands(cfg: Config, sp: bool, s: Shelf, strMap: string, text: string)
    requires text != "" && IndexFrom(s.user, strMap, text, 0) == |s.user|
    requires IndexFrom(s.system, strMap, text, 0) == |s.system|
    ensures var p := PlaceFrom(cfg, sp, s.user, strMap, 0);
      forall incHit :: NewAt(cfg, sp, s, AddTo(cfg, sp, s, strMap, text, incHit).shelf, strMap, text, p)
  {
    hide Compare, Tick, IndexFrom;
  }

  /** Deleting what was added gives the phrases back. */
  lemma DeleteUndoesAdd(cfg: Config, sp: bool, s: Shelf, strMap: string, text: string, p: nat, r: Shelf)
    requires NewAt(cfg, sp, s, r, strMap, text, p)
    ensures DeleteFrom(r, p).user == s.user && DeleteFrom(r, p).system == s.system
  {
    assert s.user == s.user[..p] + s.user[p..];
  }

  /* ----- what one shelf keeps ----- */

  predicate NoDuplicates(l: seq<Phrase>) {
    forall i, j :: 0 <= i < j < |l| ==> !Is(l[i], l[j].strMap, l[j].text)
  }

  predicate Apart(user: seq<Phrase>, system: seq<Phrase>) {
    forall i, j :: 0 <= i < |user| && 0 <= j < |system| ==> !Is(user[i], system[j].strMap, system[j].text)
  }

  predicate StampsUpTo(l: seq<Phrase>, n: nat) {
    forall i :: 0 <= i < |l| ==> l[i].stamp <= n
  }

  /** No duplicate (code, text) and none that is a system phrase. */
  predicate Unrepeated(s: Shelf) {
    NoDuplicates(s.user) && Apart(s.user, s.system) && AllCodes(s.user)
  }

  predicate Bounded(s: Shelf) {
    StampsUpTo(s.user, s.counter) && StampsUpTo(s.system, s.counter)
  }

  /** Nothing stands twice and no stamp is above the counter. */
  predicate Orderly(s: Shelf) {
    Unrepeated(s) && Bounded(s)
  }

  /** Adding changes nothing but one stamp, or puts one phrase in. */
  lemma AddKeepsUnrepeated(cfg: Config, sp: bool, s: Shelf, strMap: string, text: string, incHit: bool)
    requires Unrepeated(s) && CodeString(strMap)
    ensures Unrepeated(AddTo(cfg, sp, s, strMap, text, incHit).shelf)
  {
    hide CodeString, PlaceFrom, IndexFrom, Compare, Unrepeated, Tick;
    var u := IndexFrom(s.user, strMap, text, 0);
    var y := IndexFrom(s.system, strMap, text, 0);
    if u < |s.user| {
      TouchKeepsUnrepeated(s, true, u);
    } else if y < |s.system| {
      TouchKeepsUnrepeated(s, false, y);
    } else {
      InsertKeepsUnrepeated(s, PlaceFrom(cfg, sp, s.user, strMap, 0), Phrase(text, strMap, 1, Tick(s.counter)));
    }
  }

  lemma {:induction false} TouchKeepsUnrepeated(s: Shelf, user: bool, k: nat)
    requires Unrepeated(s) && k < |if user then s.user else s.system|
    ensures user ==> Unrepeated(Shelf(s.user[k := Touched(s.user[k], s.counter)], s.system, Tick(s.counter)))
    ensures !user ==> Unrepeated(Shelf(s.user, s.system[k := Touched(s.system[k], s.counter)], Tick(s.counter)))
  {
    hide CodeString, Tick;
  }

  lemma InsertKeepsUnrepeated(s: Shelf, p: nat, e: Phrase)
    requires Unrepeated(s) && p <= |s.user| && CodeString(e.strMap)
    requires forall i :: 0 <= i < |s.user| ==> !Is(s.user[i], e.strMap, e.text)
    requires forall i :: 0 <= i < |s.system| ==> !Is(s.system[i], e.strMap, e.text)
    ensures Unrepeated(Shelf(s.user[..p] + [e] + s.user[p..], s.system, Tick(s.counter)))
  {
    hide CodeString, Tick;
    var l := s.user[..p] + [e] + s.user[p..];
    assert forall i :: 0 <= i < |l| ==> l[i] == if i < p then s.user[i] else if i == p then e else s.user[i - 1];
  }

  const MAX_COUNTER := 0xFFFF_FFFF

  /** The call draws a stamp from the counter: the phrase is new, or its hits are counted. */
  predicate Issues(s: Shelf, strMap: string, text: string, incHit: bool) {
    var u, y := IndexFrom(s.user, strMap, text, 0), IndexFrom(s.system, strMap, text, 0);
    text != "" && (incHit || (u == |s.user| && y == |s.system|))
  }

  /** No phrase but the one the call stamps carries a stamp. */
  predicate OthersUnstamped(s: Shelf, strMap: string, text: string) {
    var u, y := IndexFrom(s.user, strMap, text, 0), IndexFrom(s.system, strMap, text, 0);
    && (forall i :: 0 <= i < |s.user| && i != u ==> s.user[i].stamp == 0)
    && (forall i :: 0 <= i < |s.system| && (u < |s.user| || i != y) ==> s.system[i].stamp == 0)
  }

  /** The stamps after an addition are bounded by the counter if and only if the counter did
      not run over, or no stamp was drawn, or no other phrase carries one. */
  lemma {:induction false} AddBoundsStamps(cfg: Config, sp: bool, s: Shelf, strMap: string, text: string, incHit: bool)
    requires Bounded(s) && s.counter <= MAX_COUNTER
    ensures Bounded(AddTo(cfg, sp, s, strMap, text, incHit).shelf) <==>
      s.counter < MAX_COUNTER || !Issues(s, strMap, text, incHit) || OthersUnstamped(s, strMap, text)
    ensures s.counter < MAX_COUNTER || !Issues(s, strMap, text, incHit) ==>
      s.counter <= AddTo(cfg, sp, s, strMap, text, incHit).shelf.counter <= s.counter + 1 <= MAX_COUNTER + 1
  {
    hide PlaceFrom, Is;
    var u := IndexFrom(s.user, strMap, text, 0);
    var y := IndexFrom(s.system, strMap, text, 0);
    var a := AddTo(cfg, sp, s, strMap, text, incHit).shelf;
    if text == "" {
    } else if u < |s.user| {
      if incHit { TouchBounds(s.user, s.system, u, s.counter); }
    } else if y < |s.system| {
      if incHit { TouchBounds(s.system, s.user, y, s.counter); }
    } else {
      var e := Phrase(text, strMap, 1, Tick(s.counter));
      InsertBounds(s.user, s.system, PlaceFrom(cfg, sp, s.user, strMap, 0), e, s.counter);
    }
  }

  predicate UnstampedBut(l: seq<Phrase>, k: nat) {
    forall i :: 0 <= i < |l| && i != k ==> l[i].stamp == 0
  }

  lemma {:induction false} TouchBounds(l: seq<Phrase>, other: seq<Phrase>, k: nat, counter: nat)
    requires k < |l| && StampsUpTo(l, counter) && StampsUpTo(other, counter) && counter <= MAX_COUNTER
    ensures StampsUpTo(l[k := Touched(l[k], counter)], Tick(counter)) && StampsUpTo(other, Tick(counter)) <==>
      counter < MAX_COUNTER || (UnstampedBut(l, k) && UnstampedBut(other, |other|))
  {
    var after := l[k := Touched(l[k], counter)];
    assert forall i :: 0 <= i < |l| && i != k ==> after[i] == l[i];
  }

  lemma InsertBounds(l: seq<Phrase>, other: seq<Phrase>, p: nat, e: Phrase, counter: nat)
    requires p <= |l| && StampsUpTo(l, counter) && StampsUpTo(other, counter) && counter <= MAX_COUNTER
    requires e.stamp == Tick(counter)
    ensures StampsUpTo(l[..p] + [e] + l[p..], Tick(counter)) && StampsUpTo(other, Tick(counter)) <==>
      counter < MAX_COUNTER || (UnstampedBut(l, |l|) && UnstampedBut(other, |other|))
  {
    var after := l[..p] + [e] + l[p..];
    assert forall i :: 0 <= i < |l| ==> l[i] == after[if i < p then i else i + 1];
  }

  /** Adding keeps a shelf orderly if and only if the counter does not run over, or the call
      draws no stamp, or no other phrase carries one. */
  lemma AddKeepsOrder(cfg: Config, sp: bool, s: Shelf, strMap: string, text: string, incHit: bool)
    requires Orderly(s) && CodeString(strMap) && s.counter <= MAX_COUNTER
    ensures Orderly(AddTo(cfg, sp, s, strMap, text, incHit).shelf) <==>
      s.counter < MAX_COUNTER || !Issues(s, strMap, text, incHit) || OthersUnstamped(s, strMap, text)
  {
    hide CodeString, AddTo, Issues, OthersUnstamped, Unrepeated, Bounded;
    AddKeepsUnrepeated(cfg, sp, s, strMap, text, incHit);
    AddBoundsStamps(cfg, sp, s, strMap, text, incHit);
  }

  lemma DeleteKeepsOrder(s: Shelf, k: nat)
    requires Orderly(s) && k < |s.user|
    ensures Orderly(DeleteFrom(s, k))
  {
    hide CodeString;
    var t := DeleteFrom(s, k);
    assert forall i :: 0 <= i < |t.user| ==> t.user[i] == if i < k then s.user[i] else s.user[i + 1];
  }

  /* ----- with every fuzzy option off: the order of the list ----- */

  predicate Strict(cfg: Config) {
    forall k :: 0 <= k < 7 ==> !On(cfg.fuzzyFinals, k) && !On(cfg.fuzzyInitials, k)
  }

  predicate NoWildcards(s: string) {
    CodeString(s) && '0' !in s
  }

  lemma {:induction false} LeBehindPrefix(a: string, b: string, m: nat)
    requires m <= |a| && m <= |b| && a[..m] == b[..m]
    ensures Le(a, b) <==> Le(a[m..], b[m..])
  {
    if m > 0 {
      assert a[0] == a[..m][0] == b[..m][0] == b[0];
      assert a[1..][..m - 1] == a[..m][1..] && b[1..][..m - 1] == b[..m][1..];
      LeBehindPrefix(a[1..], b[1..], m - 1);
      assert a[1..][m - 1..] == a[m..] && b[1..][m - 1..] == b[m..];
    }
  }

  /** CmpMap compares above exactly when strcmp does. */
  lemma CompareIsStrcmp(cfg: Config, sp: bool, a: string, b: string)
    requires Strict(cfg) && NoWildcards(a) && NoWildcards(b)
    ensures Compare(cfg, a, b, sp) > 0 <==> Lt(b, a)
  {
    hide Strict, NoWildcards, MatchFrom, Le;
    StrictMatch(cfg, sp, a, b);
    NoZeros(a);
    NoZeros(b);
    FirstDifference(a, b, MatchFrom(cfg, a, b, sp, 0));
  }

  lemma NoZeros(s: string)
    requires NoWildcards(s)
    ensures '\0' !in s
  {
  }

  /** The letters that match are a common prefix, and the next ones differ. */
  lemma {:induction false} StrictMatch(cfg: Config, sp: bool, a: string, b: string)
    requires Strict(cfg) && NoWildcards(a) && NoWildcards(b)
    ensures var m := MatchFrom(cfg, a, b, sp, 0);
      m <= |a| && m <= |b| && a[..m] == b[..m] && (m < |b| ==> At(a, m) != b[m])
  {
    hide AgreeAt, MatchFrom;
    StrictComparison(cfg, a, b, sp);
    var m := MatchFrom(cfg, a, b, sp, 0);
    forall j | 0 <= j < m
      ensures j < |a| && a[j] == b[j]
    {
      assert At(a, j) == b[j];
    }
    if m > 0 { assert a[m - 1] == b[m - 1]; }
  }

  lemma FirstDifference(a: string, b: string, m: nat)
    requires m <= |a| && m <= |b| && a[..m] == b[..m] && (m < |b| ==> At(a, m) != b[m])
    requires '\0' !in a && '\0' !in b
    ensures At(a, m) as int - At(b, m) as int > 0 <==> Lt(b, a)
  {
    LeBehindPrefix(a, b, m);
    assert m < |a| ==> a[m..][0] == a[m] && a[m] in a;
    assert m < |b| ==> b[m..][0] == b[m] && b[m] in b;
  }

  /** Non-increasing codes, in the order of strcmp. */
  predicate Descending(l: seq<Phrase>) {
    forall i, j :: 0 <= i < j < |l| ==> Le(l[j].strMap, l[i].strMap)
  }

  predicate AllStrict(l: seq<Phrase>) {
    forall i :: 0 <= i < |l| ==> NoWildcards(l[i].strMap)
  }

  /** With the fuzzy options off a new phrase keeps the list in non-increasing code order. */
  lemma AddKeepsDescending(cfg: Config, sp: bool, s: Shelf, strMap: string, text: string, incHit: bool)
    requires Strict(cfg) && NoWildcards(strMap) && AllStrict(s.user) && Descending(s.user)
    ensures var a := AddTo(cfg, sp, s, strMap, text, incHit); AllStrict(a.shelf.user) && Descending(a.shelf.user)
  {
    hide Compare, NoWildcards, Le, Strict, Is, AllStrict, Descending, Tick;
    var u := IndexFrom(s.user, strMap, text, 0);
    if text == "" || (u == |s.user| && IndexFrom(s.system, strMap, text, 0) < |s.system|) {
    } else if u < |s.user| {
      TouchKeepsDescending(s.user, u, s.counter);
    } else {
      var p := PlaceFrom(cfg, sp, s.user, strMap, 0);
      forall i | 0 <= i < |s.user|
        ensures i < p ==> Le(strMap, s.user[i].strMap)
        ensures i >= p ==> Le(s.user[i].strMap, strMap)
      {
        BesidePlace(cfg, sp, s.user, strMap, i);
      }
      InsertKeepsDescending(s.user, p, Phrase(text, strMap, 1, Tick(s.counter)));
    }
  }

  lemma {:induction false} BesidePlace(cfg: Config, sp: bool, l: seq<Phrase>, strMap: string, i: nat)
    requires Strict(cfg) && NoWildcards(strMap) && AllStrict(l) && Descending(l) && i < |l|
    ensures i < PlaceFrom(cfg, sp, l, strMap, 0) ==> Le(strMap, l[i].strMap)
    ensures i >= PlaceFrom(cfg, sp, l, strMap, 0) ==> Le(l[i].strMap, strMap)
  {
    hide Compare, NoWildcards, Le, Strict;
    var p := PlaceFrom(cfg, sp, l, strMap, 0);
    CompareIsStrcmp(cfg, sp, strMap, l[i].strMap);
    if i >= p {
      CompareIsStrcmp(cfg, sp, strMap, l[p].strMap);
      LeTotal(l[p].strMap, strMap);
      if i > p { LeTransitive(l[i].strMap, l[p].strMap, strMap); }
    }
  }

  lemma TouchKeepsDescending(l: seq<Phrase>, k: nat, counter: nat)
    requires k < |l| && AllStrict(l) && Descending(l)
    ensures AllStrict(l[k := Touched(l[k], counter)]) && Descending(l[k := Touched(l[k], counter)])
  {
    hide NoWildcards, Le, Tick;
    var after := l[k := Touched(l[k], counter)];
    assert forall i :: 0 <= i < |l| ==> after[i].strMap == l[i].strMap;
  }

  lemma InsertKeepsDescending(l: seq<Phrase>, p: nat, e: Phrase)
    requires p <= |l| && AllStrict(l) && Descending(l) && NoWildcards(e.strMap)
    requires forall i :: 0 <= i < p ==> Le(e.strMap, l[i].strMap)
    requires forall i :: p <= i < |l| ==> Le(l[i].strMap, e.strMap)
    ensures AllStrict(l[..p] + [e] + l[p..]) && Descending(l[..p] + [e] + l[p..])
  {
    hide NoWildcards, Le;
    Spliced(l, p, e);
  }

  lemma DeleteKeepsDescending(s: Shelf, k: nat)
    requires k < |s.user| && Descending(s.user)
    ensures Descending(DeleteFrom(s, k).user)
  {
    hide Le;
    var t := DeleteFrom(s, k);
    assert forall i :: 0 <= i < |t.user| ==> t.user[i] == if i < k then s.user[i] else s.user[i + 1];
  }

  /* ----- runs over all characters ----- */

  /** All shelves and the counter they share. */
  datatype Store = Store(user: seq<seq<Phrase>>, system: seq<seq<Phrase>>, counter: nat)

  datatype Op = Add(j: nat, strMap: string, text: string, incHit: bool) | Delete(j: nat, k: nat)

  function ShelfOf(s: Store, j: nat): Shelf
    requires j < |s.user| == |s.system|
  {
    Shelf(s.user[j], s.system[j], s.counter)
  }

  function WithShelf(s: Store, j: nat, h: Shelf): Store
    requires j < |s.user| == |s.system|
  {
    Store(s.user[j := h.user], s.system[j := h.system], h.counter)
  }

  predicate Applies(s: Store, op: Op) {
    |s.user| == |s.system| && op.j < |s.user| && match op
      case Add(_, strMap, _, _) => CodeString(strMap)
      case Delete(j, k) => k < |s.user[j]|
  }

  ghost function Apply(cfg: Config, sp: bool, s: Store, op: Op): Store
    requires Applies(s, op)
  {
    match op
    case Add(j, strMap, text, incHit) => WithShelf(s, j, AddTo(cfg, sp, ShelfOf(s, j), strMap, text, incHit).shelf)
    case Delete(j, k) => WithShelf(s, j, DeleteFrom(ShelfOf(s, j), k))
  }

  predicate AllOrderly(s: Store) {
    |s.user| == |s.system| && forall j :: 0 <= j < |s.user| ==> Orderly(ShelfOf(s, j))
  }

  function StampsOf(l: seq<Phrase>): multiset<nat> {
    if l == [] then multiset{} else StampsOf(l[..|l| - 1]) + multiset{l[|l| - 1].stamp}
  }

  /** The stamps of all phrases, user and system. */
  function AllStamps(ls: seq<seq<Phrase>>): multiset<nat> {
    if ls == [] then multiset{} else AllStamps(ls[..|ls| - 1]) + StampsOf(ls[|ls| - 1])
  }

  /** Every stamp above n is carried by one phrase only. */
  ghost predicate FreshStampsUnique(s: Store, n: nat) {
    forall x :: x > n ==> (AllStamps(s.user) + AllStamps(s.system))[x] <= 1
  }

  lemma {:induction false} StampsConcat(a: seq<Phrase>, b: seq<Phrase>)
    ensures StampsOf(a + b) == StampsOf(a) + StampsOf(b)
    decreases |b|
  {
    if b == [] {
      assert a + b == a;
    } else {
      assert (a + b)[..|a + b| - 1] == a + b[..|b| - 1];
      StampsConcat(a, b[..|b| - 1]);
    }
  }

  lemma StampsOne(p: Phrase)
    ensures StampsOf([p]) == multiset{p.stamp}
  {
    assert [p][..0] == [];
  }

  lemma {:induction false} StampsAround(l: seq<Phrase>, k: nat)
    requires k < |l|
    ensures StampsOf(l) == StampsOf(l[..k]) + multiset{l[k].stamp} + StampsOf(l[k + 1..])
  {
    hide StampsOf;
    assert l == l[..k] + ([l[k]] + l[k + 1..]);
    StampsConcat(l[..k], [l[k]] + l[k + 1..]);
    StampsConcat([l[k]], l[k + 1..]);
    StampsOne(l[k]);
  }

  lemma {:induction false} StampsBounded(l: seq<Phrase>, n: nat, x: nat)
    requires StampsUpTo(l, n) && x > n
    ensures StampsOf(l)[x] == 0
  {
    if l != [] { StampsBounded(l[..|l| - 1], n, x); }
  }

  lemma {:induction false} AllStampsBounded(ls: seq<seq<Phrase>>, n: nat, x: nat)
    requires (forall j :: 0 <= j < |ls| ==> StampsUpTo(ls[j], n)) && x > n
    ensures AllStamps(ls)[x] == 0
  {
    hide StampsUpTo;
    if ls != [] {
      AllStampsBounded(ls[..|ls| - 1], n, x);
      StampsBounded(ls[|ls| - 1], n, x);
    }
  }

  lemma {:induction false} AllStampsUpdate(ls: seq<seq<Phrase>>, j: nat, l: seq<Phrase>)
    requires j < |ls|
    ensures AllStamps(ls[j := l]) + StampsOf(ls[j]) == AllStamps(ls) + StampsOf(l)
    decreases |ls|
  {
    hide StampsOf;
    var last := |ls| - 1;
    if j == last {
      assert ls[j := l][..last] == ls[..last];
    } else {
      AllStampsUpdate(ls[..last], j, l);
      assert ls[j := l][..last] == ls[..last][j := l];
      assert AllStamps(ls[j := l]) == AllStamps(ls[..last][j := l]) + StampsOf(ls[last]);
      assert ls[..last][j] == ls[j];
      forall x ensures (AllStamps(ls[j := l]) + StampsOf(ls[j]))[x] == (AllStamps(ls) + StampsOf(l))[x] {
        assert (AllStamps(ls[..last][j := l]) + StampsOf(ls[j]))[x] == (AllStamps(ls[..last]) + StampsOf(l))[x];
      }
    }
  }

  /** One operation issues at most the next stamp, and once. */
  lemma {:induction false} ShelfStamps(cfg: Config, sp: bool, s: Shelf, strMap: string, text: string, incHit: bool)
    ensures var a := AddTo(cfg, sp, s, strMap, text, incHit).shelf;
      StampsOf(a.user) + StampsOf(a.system) <= StampsOf(s.user) + StampsOf(s.system) + multiset{Tick(s.counter)}
  {
    hide PlaceFrom, IndexFrom, StampsOf;
    var a := AddTo(cfg, sp, s, strMap, text, incHit).shelf;
    var u := IndexFrom(s.user, strMap, text, 0);
    var y := IndexFrom(s.system, strMap, text, 0);
    if text == "" {
    } else if u < |s.user| {
      if incHit {
        StampsAround(s.user, u);
        StampsAround(a.user, u);
        assert a.user[..u] == s.user[..u] && a.user[u + 1..] == s.user[u + 1..];
      }
    } else if y < |s.system| {
      if incHit {
        StampsAround(s.system, y);
        StampsAround(a.system, y);
        assert a.system[..y] == s.system[..y] && a.system[y + 1..] == s.system[y + 1..];
      }
    } else {
      var p := PlaceFrom(cfg, sp, s.user, strMap, 0);
      StampsAround(a.user, p);
      assert a.user[..p] == s.user[..p] && a.user[p + 1..] == s.user[p..] && a.user[p].stamp == Tick(s.counter);
      StampsConcat(s.user[..p], s.user[p..]);
      assert s.user == s.user[..p] + s.user[p..];
      assert StampsOf(a.user) == StampsOf(s.user) + multiset{Tick(s.counter)};
    }
  }

  lemma DeletedStamps(s: Shelf, k: nat)
    requires k < |s.user|
    ensures StampsOf(DeleteFrom(s, k).user) <= StampsOf(s.user)
  {
    hide StampsOf;
    StampsAround(s.user, k);
    StampsConcat(s.user[..k], s.user[k + 1..]);
  }

  /** One operation adds nothing to the stamps but the counter's next value. */
  lemma {:induction false} StoreStamps(cfg: Config, sp: bool, s: Store, op: Op)
    requires Applies(s, op)
    ensures var r := Apply(cfg, sp, s, op);
      AllStamps(r.user) + AllStamps(r.system) <= AllStamps(s.user) + AllStamps(s.system) + multiset{Tick(s.counter)}
  {
    hide AllStamps, StampsOf, AddTo;
    var r := Apply(cfg, sp, s, op);
    var j := op.j;
    assert r.user == s.user[j := r.user[j]] && r.system == s.system[j := r.system[j]];
    AllStampsUpdate(s.user, j, r.user[j]);
    AllStampsUpdate(s.system, j, r.system[j]);
    match op {
      case Add(_, strMap, text, incHit) => ShelfStamps(cfg, sp, ShelfOf(s, j), strMap, text, incHit);
      case Delete(_, k) =>
        DeletedStamps(ShelfOf(s, j), k);
        assert StampsOf(r.user[j]) + StampsOf(r.system[j]) <= StampsOf(s.user[j]) + StampsOf(s.system[j]) +
          multiset{Tick(s.counter)};
    }
    Carry(AllStamps(s.user), AllStamps(s.system), AllStamps(r.user), AllStamps(r.system),
          StampsOf(s.user[j]), StampsOf(s.system[j]), StampsOf(r.user[j]), StampsOf(r.system[j]), Tick(s.counter));
  }

  lemma Carry(au: multiset<nat>, ay: multiset<nat>, au': multiset<nat>, ay': multiset<nat>,
              u: multiset<nat>, y: multiset<nat>, u': multiset<nat>, y': multiset<nat>, next: nat)
    requires au' + u == au + u' && ay' + y == ay + y' && u' + y' <= u + y + multiset{next}
    ensures au' + ay' <= au + ay + multiset{next}
  {
    forall x ensures (au' + ay')[x] <= (au + ay + multiset{next})[x] {
      assert (au' + u)[x] == (au + u')[x] && (ay' + y)[x] == (ay + y')[x];
      assert (u' + y')[x] <= (u + y + multiset{next})[x];
    }
  }

  predicate OpIssues(s: Store, op: Op)
    requires Applies(s, op)
  {
    op.Add? && Issues(ShelfOf(s, op.j), op.strMap, op.text, op.incHit)
  }

  /** No phrase of any character but the one the operation stamps carries a stamp. */
  predicate AllOthersUnstamped(s: Store, op: Op)
    requires Applies(s, op) && op.Add?
  {
    && OthersUnstamped(ShelfOf(s, op.j), op.strMap, op.text)
    && forall i :: 0 <= i < |s.user| && i != op.j ==> StampsUpTo(s.user[i], 0) && StampsUpTo(s.system[i], 0)
  }

  /** One operation keeps every shelf orderly, also those it does not touch, if and only if the
      counter does not run over, or no stamp is drawn, or no other phrase carries one. */
  lemma StepKeepsOrder(cfg: Config, sp: bool, s: Store, op: Op)
    requires AllOrderly(s) && Applies(s, op) && s.counter <= MAX_COUNTER
    ensures AllOrderly(Apply(cfg, sp, s, op)) <==>
      s.counter < MAX_COUNTER || !OpIssues(s, op) || AllOthersUnstamped(s, op)
  {
    hide AddTo, CodeString, Unrepeated, Issues, OthersUnstamped, Tick;
    var r := Apply(cfg, sp, s, op);
    var j := op.j;
    assert Orderly(ShelfOf(s, j));
    match op {
      case Add(_, strMap, text, incHit) =>
        AddKeepsOrder(cfg, sp, ShelfOf(s, j), strMap, text, incHit);
        NextCounter(cfg, sp, ShelfOf(s, j), strMap, text, incHit);
      case Delete(_, k) => DeleteKeepsOrder(ShelfOf(s, j), k);
    }
    forall i | 0 <= i < |r.user| && i != j
      ensures Orderly(ShelfOf(r, i)) <==> Bounded(ShelfOf(r, i))
      ensures r.counter >= s.counter ==> Orderly(ShelfOf(r, i))
      ensures r.counter == 0 ==> (Bounded(ShelfOf(r, i)) <==> StampsUpTo(s.user[i], 0) && StampsUpTo(s.system[i], 0))
    {
      assert Orderly(ShelfOf(s, i));
      SameUnrepeated(ShelfOf(s, i), ShelfOf(r, i));
    }
    assert Orderly(ShelfOf(r, j)) <==>
      s.counter < MAX_COUNTER || !OpIssues(s, op) || OthersUnstamped(ShelfOf(s, j), op.strMap, op.text);
  }

  lemma SameUnrepeated(s: Shelf, r: Shelf)
    requires s.user == r.user && s.system == r.system
    ensures Unrepeated(s) <==> Unrepeated(r)
  {
  }

  /** The counter after an addition. */
  lemma NextCounter(cfg: Config, sp: bool, s: Shelf, strMap: string, text: string, incHit: bool)
    requires s.counter <= MAX_COUNTER
    ensures AddTo(cfg, sp, s, strMap, text, incHit).shelf.counter
      == if !Issues(s, strMap, text, incHit) then s.counter else if s.counter == MAX_COUNTER then 0 else s.counter + 1
  {
    hide PlaceFrom;
  }

  /** Without the counter running over an operation also keeps the stamps issued since n
      unique. */
  lemma {:induction false} StepKeeps(cfg: Config, sp: bool, s: Store, op: Op, n: nat)
    requires AllOrderly(s) && FreshStampsUnique(s, n) && Applies(s, op) && s.counter <= MAX_COUNTER
    requires s.counter < MAX_COUNTER || !OpIssues(s, op)
    ensures var r := Apply(cfg, sp, s, op);
      && AllOrderly(r) && FreshStampsUnique(r, n)
      && |r.user| == |s.user| && s.counter <= r.counter <= s.counter + 1 && r.counter <= MAX_COUNTER
  {
    hide AllStamps, AddTo, CodeString, Orderly, Issues, OthersUnstamped, Tick;
    var r := Apply(cfg, sp, s, op);
    StepKeepsOrder(cfg, sp, s, op);
    if op.Add? { NextCounter(cfg, sp, ShelfOf(s, op.j), op.strMap, op.text, op.incHit); }
    OrderlyIsBounded(s);
    if s.counter < MAX_COUNTER {
      StoreStamps(cfg, sp, s, op);
      TickIsNext(s.counter);
      var before, after := AllStamps(s.user) + AllStamps(s.system), AllStamps(r.user) + AllStamps(r.system);
      forall x | x > n ensures after[x] <= 1 {
        assert after[x] <= (before + multiset{Tick(s.counter)})[x];
        if x == Tick(s.counter) {
          AllStampsBounded(s.user, s.counter, x);
          AllStampsBounded(s.system, s.counter, x);
        }
      }
    } else {
      StoreStampsKept(cfg, sp, s, op);
      var before, after := AllStamps(s.user) + AllStamps(s.system), AllStamps(r.user) + AllStamps(r.system);
      assert forall x :: after[x] <= before[x];
    }
  }

  lemma TickIsNext(n: nat)
    requires n < MAX_COUNTER
    ensures Tick(n) == n + 1
  {
  }

  /** An operation that draws no stamp brings none. */
  lemma {:induction false} StoreStampsKept(cfg: Config, sp: bool, s: Store, op: Op)
    requires Applies(s, op) && !OpIssues(s, op)
    ensures var r := Apply(cfg, sp, s, op);
      AllStamps(r.user) + AllStamps(r.system) <= AllStamps(s.user) + AllStamps(s.system)
  {
    hide AllStamps, StampsOf, PlaceFrom, IndexFrom;
    var r := Apply(cfg, sp, s, op);
    var j := op.j;
    AllStampsUpdate(s.user, j, r.user[j]);
    AllStampsUpdate(s.system, j, r.system[j]);
    match op {
      case Add(_, strMap, text, incHit) => assert r.user[j] == s.user[j] && r.system[j] == s.system[j];
      case Delete(_, k) => DeletedStamps(ShelfOf(s, j), k);
    }
    forall x ensures (AllStamps(r.user) + AllStamps(r.system))[x] <= (AllStamps(s.user) + AllStamps(s.system))[x] {
      assert (AllStamps(r.user) + StampsOf(s.user[j]))[x] == (AllStamps(s.user) + StampsOf(r.user[j]))[x];
      assert (AllStamps(r.system) + StampsOf(s.system[j]))[x] == (AllStamps(s.system) + StampsOf(r.system[j]))[x];
    }
  }

  ghost predicate Legal(cfg: Config, sp: bool, s: Store, ops: seq<Op>)
    decreases |ops|, 0
  {
    ops == [] || (Legal(cfg, sp, s, ops[..|ops| - 1]) && Applies(RunOps(cfg, sp, s, ops[..|ops| - 1]), ops[|ops| - 1]))
  }

  ghost function RunOps(cfg: Config, sp: bool, s: Store, ops: seq<Op>): Store
    requires Legal(cfg, sp, s, ops)
    decreases |ops|, 1
  {
    if ops == [] then s else Apply(cfg, sp, RunOps(cfg, sp, s, ops[..|ops| - 1]), ops[|ops| - 1])
  }

  /** No operation of the run draws a stamp from a counter at its largest value. */
  ghost predicate NeverRunsOver(cfg: Config, sp: bool, s: Store, ops: seq<Op>)
    requires Legal(cfg, sp, s, ops)
    decreases |ops|
  {
    ops == [] ||
    (var before := RunOps(cfg, sp, s, ops[..|ops| - 1]);
     NeverRunsOver(cfg, sp, s, ops[..|ops| - 1]) &&
       (before.counter != MAX_COUNTER || !OpIssues(before, ops[|ops| - 1])))
  }

  /** Over every run of additions and deletions no list holds a (code, text) twice or one of
      the system phrases, every stamp is at most the counter, and no two phrases share a
      stamp issued in the run, as long as the 32-bit counter does not run over. */
  lemma {:induction false} RunKeepsOrder(cfg: Config, sp: bool, s: Store, ops: seq<Op>)
    requires AllOrderly(s) && Legal(cfg, sp, s, ops) && s.counter <= MAX_COUNTER && NeverRunsOver(cfg, sp, s, ops)
    ensures var r := RunOps(cfg, sp, s, ops);
      && AllOrderly(r) && FreshStampsUnique(r, s.counter)
      && |r.user| == |s.user| && s.counter <= r.counter <= s.counter + |ops| && r.counter <= MAX_COUNTER
    decreases |ops|
  {
    hide AllStamps, Apply, Orderly, OpIssues;
    if ops == [] {
      forall x | x > s.counter ensures (AllStamps(s.user) + AllStamps(s.system))[x] <= 1 {
        OrderlyIsBounded(s);
        AllStampsBounded(s.user, s.counter, x);
        AllStampsBounded(s.system, s.counter, x);
      }
    } else {
      var last := |ops| - 1;
      RunKeepsOrder(cfg, sp, s, ops[..last]);
      StepKeeps(cfg, sp, RunOps(cfg, sp, s, ops[..last]), ops[last], s.counter);
    }
  }

  /** The first operation that makes the counter run over keeps every list orderly if and only
      if no other phrase carries a stamp. */
  lemma {:induction false} FirstRunOver(cfg: Config, sp: bool, s: Store, ops: seq<Op>)
    requires AllOrderly(s) && ops != [] && Legal(cfg, sp, s, ops) && s.counter <= MAX_COUNTER
    requires NeverRunsOver(cfg, sp, s, ops[..|ops| - 1]) && !NeverRunsOver(cfg, sp, s, ops)
    ensures ops[|ops| - 1].Add?
    ensures AllOrderly(RunOps(cfg, sp, s, ops)) <==>
      AllOthersUnstamped(RunOps(cfg, sp, s, ops[..|ops| - 1]), ops[|ops| - 1])
  {
    hide Apply, AllOrderly, AllOthersUnstamped, Issues, AllStamps;
    RunKeepsOrder(cfg, sp, s, ops[..|ops| - 1]);
    StepKeepsOrder(cfg, sp, RunOps(cfg, sp, s, ops[..|ops| - 1]), ops[|ops| - 1]);
  }

  /** A run no longer than what is left of the counter does not run over. */
  lemma {:induction false} ShortRunsStayBelow(cfg: Config, sp: bool, s: Store, ops: seq<Op>)
    requires AllOrderly(s) && Legal(cfg, sp, s, ops) && s.counter + |ops| <= MAX_COUNTER
    ensures NeverRunsOver(cfg, sp, s, ops)
    decreases |ops|
  {
    hide AllStamps, Apply, Orderly, OpIssues;
    if ops != [] {
      var last := |ops| - 1;
      ShortRunsStayBelow(cfg, sp, s, ops[..last]);
      RunKeepsOrder(cfg, sp, s, ops[..last]);
    }
  }

  lemma OrderlyIsBounded(s: Store)
    requires AllOrderly(s)
    ensures forall j :: 0 <= j < |s.user| ==> StampsUpTo(s.user[j], s.counter) && StampsUpTo(s.system[j], s.counter)
  {
    forall j | 0 <= j < |s.user|
      ensures StampsUpTo(s.user[j], s.counter) && StampsUpTo(s.system[j], s.counter)
    {
      assert Orderly(ShelfOf(s, j));
    }
  }

  /** With the fuzzy options off every list stays in non-increasing code order. */
  lemma {:induction false} RunKeepsDescending(cfg: Config, sp: bool, s: Store, ops: seq<Op>)
    requires Strict(cfg) && Legal(cfg, sp, s, ops)
    requires forall i :: 0 <= i < |ops| && ops[i].Add? ==> NoWildcards(ops[i].strMap)
    requires forall j :: 0 <= j < |s.user| ==> AllStrict(s.user[j]) && Descending(s.user[j])
    ensures var r := RunOps(cfg, sp, s, ops);
      forall j :: 0 <= j < |r.user| ==> AllStrict(r.user[j]) && Descending(r.user[j])
    decreases |ops|
  {
    hide Apply, Strict, NoWildcards, AllStrict, Descending;
    if ops != [] {
      var last := |ops| - 1;
      RunKeepsDescending(cfg, sp, s, ops[..last]);
      assert ops[last].Add? ==> NoWildcards(ops[last].strMap);
      assert Applies(RunOps(cfg, sp, s, ops[..last]), ops[last]);
      StepKeepsDescending(cfg, sp, RunOps(cfg, sp, s, ops[..last]), ops[last]);
    }
  }

  lemma StepKeepsDescending(cfg: Config, sp: bool, s: Store, op: Op)
    requires Strict(cfg) && Applies(s, op) && (op.Add? ==> NoWildcards(op.strMap))
    requires forall j :: 0 <= j < |s.user| ==> AllStrict(s.user[j]) && Descending(s.user[j])
    ensures var r := Apply(cfg, sp, s, op);
      forall j :: 0 <= j < |r.user| ==> AllStrict(r.user[j]) && Descending(r.user[j])
  {
    hide AddTo, Strict, NoWildcards;
    match op
    case Add(j, strMap, text, incHit) => AddKeepsDescending(cfg, sp, ShelfOf(s, j), strMap, text, incHit);
    case Delete(j, k) => DeleteKeepsDescending(ShelfOf(s, j), k);
  }

  /** Where the counter does run over, a stamp above it stays behind. */
  lemma {:induction false} CounterRunsOver(cfg: Config, sp: bool)
    ensures var s := Shelf([], [Phrase("b", "Aa", 1, 0xFFFF_FFFF)], 0xFFFF_FFFF);
      Orderly(s) && !Orderly(AddTo(cfg, sp, s, "Bb", "c", false).shelf)
  {
    var s := Shelf([], [Phrase("b", "Aa", 1, 0xFFFF_FFFF)], 0xFFFF_FFFF);
    var a := AddTo(cfg, sp, s, "Bb", "c", false).shelf;
    assert !Is(s.system[0], "Bb", "c");
    assert a.counter == 0 && a.system == s.system && a.system[0].stamp == 0xFFFF_FFFF;
  }
}
