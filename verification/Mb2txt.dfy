/** The binary table file txt2mb writes and the text mb2txt makes of it again
    (tools/cli/txt2mb.c:575-588, tools/cli/mb2txt.c:83-97, 175-196, 230-275). */
module Mb2txt {
  import opened Keyed
  import opened RecordRing
  import opened Binary
  import opened Txt2mb

  /* ----- the record section of the binary file ----- */

  function Zeros(n: nat): (z: string)
    ensures |z| == n && forall i :: 0 <= i < n ==> z[i] == '\0'
  {
    seq(n, _ => '\0')
  }

  function TypeByte(kind: RecordType): char {
    match kind
    case Normal => '\0'
    case Pinyin => 1 as char
    case Construct => 2 as char
    case Prompt => 3 as char
  }

  function RecordBytes(e: Entry, width: nat): string
    requires |e.code| < width
  {
    e.code + Zeros(width - |e.code|) + U32(|e.hz| + 1) + e.hz + "\0" + [TypeByte(e.kind)] + U32(0) + U32(0)
  }

  predicate Fit(es: seq<Entry>, width: nat) {
    forall i :: 0 <= i < |es| ==> |es[i].code| < width
  }

  function AllBytes(es: seq<Entry>, width: nat): string
    requires Fit(es, width)
  {
    if es == [] then "" else RecordBytes(es[0], width) + AllBytes(es[1..], width)
  }

  /** The writer: the number of records, then the ring from the head's successor round to
      the head again, codes padded to one width. */
  method WriteRecords(ring: Ring, width: nat) returns (bytes: string)
    requires ring.Valid() && Fit(ring.Contents(), width)
    ensures bytes == U32(|ring.Contents()|) + AllBytes(ring.Contents(), width)
  {
    hide Ring.Linked, RecordBytes, U32, Sorted, Distinct;
    ghost var all := ring.Contents();
    var body := "";
    var s := 0;
    ring.HeadIsFirst();
    var current := ring.head.next;
    if 1 < |ring.nodes| { ring.AtNode(1); }
    while current != ring.head
      invariant 0 <= s <= |all| && current == ring.Node(s + 1)
      invariant s < |all| <==> current != ring.head
      invariant s < |all| ==> current.AsEntry() == all[s]
      invariant body == AllBytes(all[..s], width)
      decreases |all| - s
    {
      ring.AtNode(s + 1);
      BytesSnoc(all, width, s);
      body := body + RecordBytes(current.AsEntry(), width);
      current, s := current.next, s + 1;
      if s < |all| { ring.AtNode(s + 1); }
    }
    assert all[..s] == all;
    bytes := U32(s) + body;
  }

  lemma {:induction false} BytesConcat(a: seq<Entry>, b: seq<Entry>, width: nat)
    requires Fit(a, width) && Fit(b, width)
    ensures AllBytes(a + b, width) == AllBytes(a, width) + AllBytes(b, width)
  {
    hide RecordBytes;
    if a == [] {
      assert a + b == b;
    } else {
      assert (a + b)[1..] == a[1..] + b;
      BytesConcat(a[1..], b, width);
    }
  }

  lemma {:induction false} BytesSnoc(all: seq<Entry>, width: nat, s: nat)
    requires Fit(all, width) && s < |all|
    ensures AllBytes(all[..s + 1], width) == AllBytes(all[..s], width) + RecordBytes(all[s], width)
  {
    hide RecordBytes;
    assert all[..s + 1] == all[..s] + [all[s]];
    BytesConcat(all[..s], [all[s]], width);
    assert [all[s]][1..] == [];
    assert AllBytes([all[s]], width) == RecordBytes(all[s], width) + "";
  }

  /* ----- marker letters ----- */

  /** ispunct or isalnum of the C locale: the visible ASCII characters. */
  predicate Visible(c: char) {
    33 <= c as int <= 126
  }

  /** The preferred letter, or else the first visible one, that is not in `invalid`; the
      zero character when there is none. */
  method GuessValidChar(prefer: char, invalid: string) returns (r: char)
    ensures r == Guess(prefer, invalid)
  {
    if prefer !in invalid { return prefer; }
    var c := 0;
    while c <= 127
      invariant 0 <= c <= 128
      invariant FirstFree(invalid, 0) == FirstFree(invalid, c)
    {
      if Visible(c as char) && c as char !in invalid { break; }
      c := c + 1;
    }
    r := if c == 128 then '\0' else c as char;
  }

  function FirstFree(invalid: string, c: nat): char
    requires c <= 128
    decreases 128 - c
  {
    if c == 128 then '\0'
    else if Visible(c as char) && c as char !in invalid then c as char
    else FirstFree(invalid, c + 1)
  }

  function Guess(prefer: char, invalid: string): char {
    if prefer !in invalid then prefer else FirstFree(invalid, 0)
  }

  lemma {:induction false} FirstFreeIs(invalid: string, c: nat, free: char)
    requires c <= 128
    ensures FirstFree(invalid, c) != '\0' ==> Visible(FirstFree(invalid, c)) && FirstFree(invalid, c) !in invalid
    ensures Visible(free) && free !in invalid && c <= free as int ==> FirstFree(invalid, c) != '\0'
    decreases 128 - c
  {
    if c < 128 { FirstFreeIs(invalid, c + 1, free); }
  }

  /** The guess is a letter of its own, and there is one whenever some visible character is
      still free. */
  lemma GuessIsFree(prefer: char, invalid: string, free: char)
    requires Visible(prefer)
    ensures var r := Guess(prefer, invalid);
      && (r != '\0' ==> Visible(r) && r !in invalid)
      && (Visible(free) && free !in invalid ==> r != '\0')
  {
    FirstFreeIs(invalid, 0, free);
  }

  /** It is the preferred letter where that is free, and else the smallest free one of those from
      33 to 126. */
  lemma GuessIsFirst(prefer: char, invalid: string)
    ensures var r := Guess(prefer, invalid);
      if prefer !in invalid then r == prefer
      else if exists c :: 33 <= c as int <= 126 && c !in invalid
      then 33 <= r as int <= 126 && r !in invalid && forall c :: 33 <= c as int < r as int ==> c in invalid
      else r == '\0'
  {
    FirstFreeIsFirst(invalid, 0);
  }

  lemma {:induction false} FirstFreeIsFirst(invalid: string, i: nat)
    requires i <= 128
    ensures var r := FirstFree(invalid, i);
      if exists c :: i <= c as int && 33 <= c as int <= 126 && c !in invalid
      then i <= r as int && 33 <= r as int <= 126 && r !in invalid
           && forall c :: i <= c as int < r as int && 33 <= c as int ==> c in invalid
      else r == '\0'
    decreases 128 - i
  {
    if i < 128 { FirstFreeIsFirst(invalid, i + 1); }
  }

  /** The letters preferred are @, & and ^. */
  lemma PreferredMarkers(keys: string)
    requires '@' !in keys && '&' !in keys && '^' !in keys
    ensures MarkersOf(keys) == Markers('@', '&', '^')
  {
  }

  datatype Markers = Markers(pinyin: char, prompt: char, phrase: char)

  function Appended(s: string, c: char): string {
    if c == '\0' then s else s + [c]
  }

  function MarkersOf(keys: string): Markers {
    var pinyin := Guess('@', keys);
    var prompt := Guess('&', Appended(keys, pinyin));
    var phrase := Guess('^', Appended(Appended(keys, pinyin), prompt));
    Markers(pinyin, prompt, phrase)
  }

  /** Visible characters, pairwise different and no key letters. */
  predicate Apart(keys: string, m: Markers) {
    && Visible(m.pinyin) && Visible(m.prompt) && Visible(m.phrase)
    && m.pinyin != m.prompt && m.pinyin != m.phrase && m.prompt != m.phrase
    && m.pinyin !in keys && m.prompt !in keys && m.phrase !in keys
  }

  predicate ThreeFree(keys: string) {
    exists a, b, c :: Visible(a) && Visible(b) && Visible(c) && a != b && a != c && b != c
      && a !in keys && b !in keys && c !in keys
  }

  /** The guesses of the three markers: apart when all are found, and all found if and only if
      three visible characters are free. */
  method ChooseMarkers(keys: string) returns (m: Markers)
    ensures m == MarkersOf(keys)
    ensures Found(m) ==> Apart(keys, m)
    ensures Found(m) <==> ThreeFree(keys)
  {
    MarkersAreDistinct(keys);
    var temp := keys;
    var cPinyin := GuessValidChar('@', keys);
    if cPinyin != '\0' { temp := temp + [cPinyin]; }
    var cPrompt := GuessValidChar('&', temp);
    if cPrompt != '\0' { temp := temp + [cPrompt]; }
    var cPhrase := GuessValidChar('^', temp);
    m := Markers(cPinyin, cPrompt, cPhrase);
  }

  predicate Found(m: Markers) {
    m.pinyin != '\0' && m.prompt != '\0' && m.phrase != '\0'
  }

  /** Markers that are found are apart, and they are found if and only if three visible
      characters are free. */
  lemma MarkersAreDistinct(keys: string)
    ensures Found(MarkersOf(keys)) ==> Apart(keys, MarkersOf(keys))
    ensures Found(MarkersOf(keys)) <==> ThreeFree(keys)
  {
    var m := MarkersOf(keys);
    var two := Appended(keys, m.pinyin);
    var three := Appended(two, m.prompt);
    assert keys <= two <= three;
    GuessIsFree('@', keys, 'a');
    GuessIsFree('&', two, 'a');
    GuessIsFree('^', three, 'a');
    if ThreeFree(keys) {
      var a, b, c :| Visible(a) && Visible(b) && Visible(c) && a != b && a != c && b != c
        && a !in keys && b !in keys && c !in keys;
      FreeIsFound(keys, a, b, c);
    }
  }

  lemma FreeIsFound(keys: string, a: char, b: char, c: char)
    requires Visible(a) && Visible(b) && Visible(c) && a != b && a != c && b != c
    requires a !in keys && b !in keys && c !in keys
    ensures Found(MarkersOf(keys))
  {
    var m := MarkersOf(keys);
    var two := Appended(keys, m.pinyin);
    var three := Appended(two, m.prompt);
    GuessIsFree('@', keys, a);
    GuessIsFree('&', two, a);
    GuessIsFree('&', two, b);
    GuessIsFree('^', three, a);
    GuessIsFree('^', three, b);
    GuessIsFree('^', three, c);
  }

  /* ----- printing the records ----- */

  /** A buffer read as a C string. */
  function CString(s: string): string {
    if s == "" || s[0] == '\0' then "" else [s[0]] + CString(s[1..])
  }

  lemma {:induction false} CStringEnds(s: string, behind: string)
    requires '\0' !in s && behind != "" && behind[0] == '\0'
    ensures CString(s + behind) == s
  {
    if s == "" {
      assert s + behind == behind;
    } else {
      assert (s + behind)[1..] == s[1..] + behind;
      CStringEnds(s[1..], behind);
    }
  }

  function MarkerOf(m: Markers, kind: RecordType): string {
    match kind
    case Normal => ""
    case Pinyin => [m.pinyin]
    case Construct => [m.phrase]
    case Prompt => [m.prompt]
  }

  function LineOf(m: Markers, e: Entry): string {
    MarkerOf(m, e.kind) + e.code + " " + e.hz
  }

  function LinesOf(m: Markers, es: seq<Entry>): (lines: seq<string>)
    ensures |lines| == |es|
  {
    if es == [] then [] else LinesOf(m, es[..|es| - 1]) + [LineOf(m, es[|es| - 1])]
  }

  /** A line is the marker of its kind, the code, a blank and the text. */
  lemma LineForms(m: Markers, code: string, hz: string)
    ensures LineOf(m, Entry(code, hz, Normal)) == code + " " + hz
    ensures LineOf(m, Entry(code, hz, Pinyin)) == [m.pinyin] + code + " " + hz
    ensures LineOf(m, Entry(code, hz, Construct)) == [m.phrase] + code + " " + hz
    ensures LineOf(m, Entry(code, hz, Prompt)) == [m.prompt] + code + " " + hz
  {
    assert "" + code == code;
  }

  const MAX_TEXT := 180

  /** How many records are printed: all up to the first whose text is too long. */
  function Printable(es: seq<Entry>): (n: nat)
    ensures n <= |es|
  {
    if es == [] || |es[0].hz| + 1 > MAX_TEXT then 0 else 1 + Printable(es[1..])
  }

  /** Printing stops at the first text of 180 bytes or more. */
  lemma {:induction false} PrintingStops(es: seq<Entry>)
    ensures forall i :: 0 <= i < Printable(es) ==> |es[i].hz| < 180
    ensures Printable(es) < |es| ==> |es[Printable(es)].hz| >= 180
  {
    if es != [] { PrintingStops(es[1..]); }
  }

  predicate Printed(m: Markers, es: seq<Entry>) {
    forall i :: 0 <= i < |es| ==>
      !(es[i].kind == Construct && m.phrase == '\0') && !(es[i].kind == Prompt && m.prompt == '\0')
  }

  /** Texts and codes are C strings and their lengths fit the file format. */
  predicate Plain(es: seq<Entry>, width: nat) {
    && |es| < 0x1_0000_0000
    && forall i :: 0 <= i < |es| ==>
      |es[i].code| < width && '\0' !in es[i].code && '\0' !in es[i].hz && |es[i].hz| + 1 < 0x1_0000_0000
  }

  lemma FieldsOf(e: Entry, width: nat, rest: string)
    requires |e.code| < width && '\0' !in e.code && '\0' !in e.hz && |e.hz| + 1 < 0x1_0000_0000
    ensures var f := RecordBytes(e, width) + rest;
      var n := |e.hz| + 1;
      && |f| >= width + n + 13
      && CString(f[..width]) == e.code
      && U32At(f, width) == n
      && CString(f[width + 4..width + 4 + n]) == e.hz
      && f[width + 4 + n] == TypeByte(e.kind)
      && f[width + n + 13..] == rest
  {
    hide U32At, CString, TypeByte;
    var n := |e.hz| + 1;
    var head := e.code + Zeros(width - |e.code|);
    var tail := e.hz + "\0" + [TypeByte(e.kind)] + U32(0) + U32(0);
    var f := RecordBytes(e, width) + rest;
    assert f == head + U32(n) + (tail + rest);
    U32RoundTrip(head, n, tail + rest);
    assert f[..width] == head;
    CStringEnds(e.code, Zeros(width - |e.code|));
    assert f[width + 4..] == tail + rest;
    assert f[width + 4..width + 4 + n] == e.hz + "\0";
    CStringEnds(e.hz, "\0");
    assert f[width + 4 + n] == (tail + rest)[n];
  }

  /** A record is its code padded with zeros, the length of its text with the terminator, the lowest
      byte first, the text, the terminator, a byte for its kind, and two numbers that are zero. */
  lemma RecordLayout(e: Entry, width: nat)
    requires |e.code| < width && |e.hz| + 1 < 0x1_0000_0000
    ensures var f, n, h := RecordBytes(e, width), |e.code|, |e.hz|;
      && |f| == width + h + 14
      && f[..n] == e.code && (forall i :: n <= i < width ==> f[i] == '\0')
      && h + 1 == f[width] as int + 0x100 * f[width + 1] as int + 0x1_0000 * f[width + 2] as int
        + 0x100_0000 * f[width + 3] as int
      && f[width + 4..width + 4 + h] == e.hz && f[width + 4 + h] == '\0'
      && f[width + 5 + h] as int ==
        (if e.kind == Normal then 0 else if e.kind == Pinyin then 1 else if e.kind == Construct then 2 else 3)
      && (forall i :: width + 6 + h <= i < |f| ==> f[i] == '\0')
  {
    hide U32, TypeByte;
    var f, h := RecordBytes(e, width), |e.hz|;
    var head, tail := e.code + Zeros(width - |e.code|), RecordTail(e);
    assert f == head + (U32(h + 1) + tail);
    LowestFirst(h + 1);
    TailLayout(e);
    assert f[width..width + 4] == U32(h + 1);
    assert f[width + 4..] == tail;
    assert f[width + 4..width + 4 + h] == tail[..h];
    assert forall i :: width + 6 + h <= i < |f| ==> f[i] == tail[i - width - 4];
  }

  function RecordTail(e: Entry): string {
    e.hz + "\0" + [TypeByte(e.kind)] + U32(0) + U32(0)
  }

  lemma TailLayout(e: Entry)
    ensures var t, h := RecordTail(e), |e.hz|;
      && |t| == h + 10 && t[..h] == e.hz && t[h] == '\0'
      && t[h + 1] as int ==
        (if e.kind == Normal then 0 else if e.kind == Pinyin then 1 else if e.kind == Construct then 2 else 3)
      && forall i :: h + 2 <= i < |t| ==> t[i] == '\0'
  {
    hide U32;
    ZeroBytes();
    assert RecordTail(e)[|e.hz| + 2..] == U32(0) + U32(0);
  }

  lemma ZeroBytes()
    ensures forall i :: 0 <= i < 4 ==> U32(0)[i] == '\0'
  {
  }

  /** One record in front of `rest`; `size` is its length in the file, `text` the length
      of its text field. */
  method ReadRecord(record: string, width: nat, ghost e: Entry, ghost rest: string)
      returns (code: string, text: nat, hz: string, rule: char, size: nat)
    requires |e.code| < width && '\0' !in e.code && '\0' !in e.hz && |e.hz| + 1 < 0x1_0000_0000
    requires record == RecordBytes(e, width) + rest
    ensures code == e.code && text == |e.hz| + 1 && hz == e.hz && rule == TypeByte(e.kind)
    ensures size <= |record| && record[size..] == rest
  {
    hide RecordBytes, U32At;
    FieldsOf(e, width, rest);
    code := CString(record[..width]);
    text := U32At(record, width);
    hz := CString(record[width + 4..width + 4 + text]);
    rule := record[width + 4 + text];
    size := width + text + 13;
  }

  /** The printf of one record, or giving up for want of a marker. */
  method FormatRecord(m: Markers, ghost e: Entry, code: string, hz: string, rule: char) returns (ok: bool, line: string)
    requires code == e.code && hz == e.hz && rule == TypeByte(e.kind)
    ensures ok <==> Printed(m, [e])
    ensures ok ==> line == LineOf(m, e)
  {
    assert [e][0] == e;
    ok, line := true, "";
    if rule == 1 as char {
      line := [m.pinyin] + code + " " + hz;
    } else if rule == 2 as char {
      if m.phrase == '\0' { ok := false; } else { line := [m.phrase] + code + " " + hz; }
    } else if rule == 3 as char {
      if m.prompt == '\0' { ok := false; } else { line := [m.prompt] + code + " " + hz; }
    } else {
      line := code + " " + hz;
      assert "" + code == code;
    }
  }

  /** mb2txt's record loop.  It stops at a text that is too long, and gives up on a
      construct or prompt record it has no marker for. */
  method PrintRecords(file: string, width: nat, m: Markers, ghost es: seq<Entry>) returns (ok: bool, lines: seq<string>)
    requires Plain(es, width) && file == U32(|es|) + AllBytes(es, width)
    ensures ok <==> Printed(m, es[..Printable(es)])
    ensures ok ==> lines == LinesOf(m, es[..Printable(es)])
  {
    hide RecordBytes, U32, U32At, AllBytes, LineOf, Printed, Printable;
    assert file == "" + U32(|es|) + AllBytes(es, width);
    U32RoundTrip("", |es|, AllBytes(es, width));
    var count := U32At(file, 0);
    var p, i := 4, 0;
    lines := [];
    PrintedNone(m);
    assert es[0..] == es && es[..0] == [];
    while i < count
      invariant 0 <= i <= |es| == count && 4 <= p <= |file|
      invariant file[p..] == AllBytes(es[i..], width)
      invariant lines == LinesOf(m, es[..i]) && Printed(m, es[..i])
      invariant Printable(es) == i + Printable(es[i..])
    {
      RecordAhead(es, width, i, file[p..]);
      var code, text, hz, rule, size := ReadRecord(file[p..], width, es[i], AllBytes(es[i + 1..], width));
      if text > MAX_TEXT { return true, lines; }
      var line;
      ok, line := FormatRecord(m, es[i], code, hz, rule);
      PrintedSnoc(m, es, i);
      if !ok { return; }
      lines := lines + [line];
      assert file[p..][size..] == file[p + size..];
      p, i := p + size, i + 1;
    }
    assert es[..i] == es;
    PrintableNone(es, i);
    ok := true;
  }

  lemma PrintedNone(m: Markers)
    ensures Printed(m, [])
  {
  }

  lemma PrintableNone(es: seq<Entry>, i: nat)
    requires i == |es|
    ensures Printable(es[i..]) == 0
  {
  }

  lemma {:induction false} PrintedSnoc(m: Markers, es: seq<Entry>, i: nat)
    requires i < |es| && |es[i].hz| + 1 <= MAX_TEXT && Printable(es) == i + Printable(es[i..])
    ensures LinesOf(m, es[..i + 1]) == LinesOf(m, es[..i]) + [LineOf(m, es[i])]
    ensures Printed(m, es[..i + 1]) <==> Printed(m, es[..i]) && Printed(m, [es[i]])
    ensures Printable(es) == i + 1 + Printable(es[i + 1..])
    ensures !Printed(m, [es[i]]) ==> !Printed(m, es[..Printable(es)])
  {
    assert es[..i + 1][..i] == es[..i];
    assert es[i..][1..] == es[i + 1..];
    assert es[..i + 1] == es[..i] + [es[i]];
    if !Printed(m, [es[i]]) {
      assert es[..Printable(es)][i] == es[i];
    }
  }

  lemma {:induction false} RecordAhead(es: seq<Entry>, width: nat, i: nat, ahead: string)
    requires Plain(es, width) && i < |es| && ahead == AllBytes(es[i..], width)
    ensures ahead == RecordBytes(es[i], width) + AllBytes(es[i + 1..], width)
    ensures |es[i].hz| + 1 > MAX_TEXT ==> Printable(es[i..]) == 0
  {
    hide RecordBytes;
    assert es[i..][1..] == es[i + 1..];
  }

  /* ----- text and binary undo each other ----- */

  /** What the two texts of a record look like when they come from a data line: the code is
      one word, the text neither begins nor ends with a space. */
  predicate Shaped(e: Entry) {
    && WordLength(e.code) == |e.code|
    && (e.kind == Normal ==> e.code != "")
    && e.hz != "" && !IsSpace(e.hz[0]) && !IsSpace(e.hz[|e.hz| - 1])
  }

  /** The limits a record of table t satisfies. */
  predicate WithinLimits(t: Table, e: Entry) {
    match e.kind
    case Normal => e.code != "" && (e.code[0] in t.keys || e.code[0] in t.ignored) && |e.code| <= t.codeLength
    case Pinyin => |e.code| <= t.pyCodeLength
    case Construct => |e.code| < t.codeLength && t.utf8len(e.hz) == 1
    case Prompt => |e.code| < t.codeLength
  }

  lemma {:induction false} WordLengthIs(s: string, n: nat)
    requires n <= |s| && (forall i :: 0 <= i < n ==> !IsSpace(s[i])) && (n < |s| ==> IsSpace(s[n]))
    ensures WordLength(s) == n
  {
    if n > 0 { WordLengthIs(s[1..], n - 1); }
  }

  lemma {:induction false} WordHasNoSpace(s: string)
    ensures forall i :: 0 <= i < WordLength(s) ==> !IsSpace(s[i])
    ensures WordLength(s) < |s| ==> IsSpace(s[WordLength(s)])
  {
    if s != "" && !IsSpace(s[0]) {
      WordHasNoSpace(s[1..]);
      forall i | 0 < i < WordLength(s) ensures !IsSpace(s[i]) { assert s[i] == s[1..][i - 1]; }
    }
  }

  lemma {:induction false} TrimLeftEnd(s: string)
    requires s != "" && !IsSpace(s[|s| - 1])
    ensures TrimLeft(s) != "" && TrimLeft(s)[|TrimLeft(s)| - 1] == s[|s| - 1]
  {
    if IsSpace(s[0]) { TrimLeftEnd(s[1..]); }
  }

  /** A record read from a line has the shape and keeps the limits of its table; the
      first length clause also holds for construct and prompt lines, where it counts the marker,
      so their codes are shorter than codeLength; the clauses that name their markers allow
      codeLength and pyCodeLength letters. */
  lemma ReadRecordsAreShaped(t: Table, line: string)
    requires Accepted(t) && ReadLine(t, line).Data?
    ensures Shaped(ReadLine(t, line).entry) && WithinLimits(t, ReadLine(t, line).entry)
  {
    var b := TrimRight(TrimLeft(line));
    TrimmedStart(line);
    TrimRightKeepsStart(TrimLeft(line));
    var n := WordLength(b);
    WordHasNoSpace(b);
    var code, hz := b[..n], TrimLeft(b[n..]);
    assert b[n..][|b| - n - 1] == b[|b| - 1];
    TrimLeftEnd(b[n..]);
    TrimmedStart(b[n..]);
    WordLengthIs(code, n);
    WordLengthIs(code[1..], n - 1);
  }

  /** A printed line is read back as its marker and code and its text. */
  lemma PrintedLineIsRead(t: Table, word: string, hz: string)
    requires word != "" && (forall i :: 0 <= i < |word| ==> !IsSpace(word[i]))
    requires hz != "" && !IsSpace(hz[0]) && !IsSpace(hz[|hz| - 1])
    ensures ReadLine(t, word + " " + hz) == ReadFields(t, word, hz)
  {
    var line := word + " " + hz;
    assert line[|line| - 1] == hz[|hz| - 1] && line[0] == word[0];
    assert TrimRight(TrimLeft(line)) == line;
    WordLengthIs(line, |word|);
    assert line[|word|..] == " " + hz && (" " + hz)[1..] == hz;
    assert TrimLeft(" " + hz) == TrimLeft(hz) == hz;
    assert line[..|word|] == word;
  }

  /** The table mb2txt's header describes: that of the file, with mb2txt's own markers. */
  function Reprinted(t: Table): Table {
    var m := MarkersOf(t.keys);
    t.(pinyinKey := m.pinyin, promptKey := m.prompt, phraseKey := m.phrase)
  }

  /** A normal record whose first letter is none of the new markers. */
  predicate Unmistakable(m: Markers, e: Entry) {
    e.kind == Normal && e.code != "" ==> e.code[0] != m.pinyin && e.code[0] != m.prompt && e.code[0] != m.phrase
  }

  /** One line is read back as the record it was printed from exactly when the record is
      unmistakable; a normal record that is not comes back as something that is not normal. */
  lemma LineIsReloaded(t: Table, e: Entry)
    requires Accepted(t) && Shaped(e) && WithinLimits(t, e) && Found(MarkersOf(t.keys))
    ensures var m := MarkersOf(t.keys);
      var line := ReadLine(Reprinted(t), LineOf(m, e));
      && !line.Invalid?
      && (Unmistakable(m, e) ==> line == Data(e))
      && (!Unmistakable(m, e) ==> (line.Data? ==> line.entry.kind != Normal))
  {
    hide MarkersOf, WordLength, TrimLeft, TrimRight, ReadLine;
    var m := MarkersOf(t.keys);
    MarkersAreDistinct(t.keys);
    var word := MarkerOf(m, e.kind) + e.code;
    WordHasNoSpace(e.code);
    assert LineOf(m, e) == word + " " + e.hz;
    assert word != "" && (e.kind == Normal ==> word == e.code) && (e.kind != Normal ==> word[1..] == e.code);
    PrintedLineIsRead(Reprinted(t), word, e.hz);
  }

  /** What a ring loaded from data lines holds. */
  predicate FromTable(t: Table, es: seq<Entry>) {
    && Sorted(CodeKey(), es) && Distinct(es)
    && forall i :: 0 <= i < |es| ==> Shaped(es[i]) && WithinLimits(t, es[i])
  }

  lemma {:induction false} LoadedIsFromTable(t: Table, lines: seq<string>, es: seq<Entry>)
    requires Accepted(t) && Distinct(es) && StableSort(CodeKey(), Dedup(Records(t, lines)), es)
    ensures FromTable(t, es)
  {
    hide Shaped, WithinLimits, ReadLine;
    forall i | 0 <= i < |es|
      ensures Shaped(es[i]) && WithinLimits(t, es[i])
    {
      var e := es[i];
      StableSortMember(Dedup(Records(t, lines)), es, e);
      DedupMembers(Records(t, lines), e);
      var j := RecordHasLine(t, lines, e);
      ReadRecordsAreShaped(t, lines[j]);
    }
  }

  lemma StableSortMember(l: seq<Entry>, out: seq<Entry>, e: Entry)
    requires StableSort(CodeKey(), l, out)
    ensures e in out <==> e in l
  {
    OfKeyMember(CodeKey(), l, e.code, e);
    OfKeyMember(CodeKey(), out, e.code, e);
    assert OfKey(CodeKey(), out, e.code) == OfKey(CodeKey(), l, e.code);
  }

  lemma {:induction false} RecordHasLine(t: Table, lines: seq<string>, e: Entry) returns (j: nat)
    requires e in Records(t, lines)
    ensures j < |lines| && ReadLine(t, lines[j]) == Data(e)
  {
    hide ReadLine;
    var last := |lines| - 1;
    if e in Records(t, lines[..last]) {
      j := RecordHasLine(t, lines[..last], e);
    } else {
      j := last;
    }
  }

  lemma {:induction false} LineAt(m: Markers, es: seq<Entry>, j: nat)
    requires j < |es|
    ensures LinesOf(m, es)[j] == LineOf(m, es[j])
  {
    hide LineOf;
    if j < |es| - 1 { LineAt(m, es[..|es| - 1], j); }
  }

  lemma {:induction false} RecordsReloaded(t: Table, es: seq<Entry>)
    requires Accepted(t) && Found(MarkersOf(t.keys))
    requires forall i :: 0 <= i < |es| ==>
      Shaped(es[i]) && WithinLimits(t, es[i]) && Unmistakable(MarkersOf(t.keys), es[i])
    ensures Records(Reprinted(t), LinesOf(MarkersOf(t.keys), es)) == es
  {
    hide Shaped, WithinLimits, ReadLine, LineOf, MarkersOf, Unmistakable;
    if es != [] {
      var init, last := es[..|es| - 1], es[|es| - 1];
      RecordsReloaded(t, init);
      LineIsReloaded(t, last);
      var lines := LinesOf(MarkersOf(t.keys), es);
      assert lines[..|lines| - 1] == LinesOf(MarkersOf(t.keys), init);
      assert es == init + [last];
    }
  }

  /** Loading the printed lines gave the printed records if no normal one begins with a
      marker letter, and otherwise lost one of them. */
  ghost predicate Survives(m: Markers, printed: seq<Entry>, out: seq<Entry>) {
    if forall i :: 0 <= i < |printed| ==> Unmistakable(m, printed[i]) then out == printed
    else exists i :: 0 <= i < |printed| && printed[i] !in out
  }

  /** Text and binary undo each other.  Loading the lines mb2txt prints for a table gives
      the very list of printed records, in order, if and only if no normal record begins
      with a letter mb2txt chose for a marker. */
  lemma {:induction false} ReloadedTable(t: Table, es: seq<Entry>, out: seq<Entry>)
    requires Accepted(t) && FromTable(t, es) && Found(MarkersOf(t.keys))
    ensures var m := MarkersOf(t.keys);
      var printed := es[..Printable(es)];
      && AllValid(Reprinted(t), LinesOf(m, printed))
      && (StableSort(CodeKey(), Dedup(Records(Reprinted(t), LinesOf(m, printed))), out) ==> Survives(m, printed, out))
  {
    hide Shaped, WithinLimits, ReadLine, LineOf, MarkersOf, Unmistakable, Printable;
    var m := MarkersOf(t.keys);
    var printed := es[..Printable(es)];
    var lines := LinesOf(m, printed);
    forall i | 0 <= i < |printed|
      ensures !ReadLine(Reprinted(t), lines[i]).Invalid?
    {
      LineAt(m, printed, i);
      LineIsReloaded(t, printed[i]);
    }
    if StableSort(CodeKey(), Dedup(Records(Reprinted(t), lines)), out) {
      if forall i :: 0 <= i < |printed| ==> Unmistakable(m, printed[i]) {
        ReloadedExactly(t, printed, out);
      } else {
        var i :| 0 <= i < |printed| && !Unmistakable(m, printed[i]);
        Mistaken(t, printed, out, i);
      }
    }
  }

  lemma {:induction false} ReloadedExactly(t: Table, printed: seq<Entry>, out: seq<Entry>)
    requires Accepted(t) && FromTable(t, printed) && Found(MarkersOf(t.keys))
    requires StableSort(CodeKey(), Dedup(Records(Reprinted(t), LinesOf(MarkersOf(t.keys), printed))), out)
    requires forall i :: 0 <= i < |printed| ==> Unmistakable(MarkersOf(t.keys), printed[i])
    ensures out == printed
  {
    hide Shaped, WithinLimits, ReadLine, LineOf, MarkersOf, Unmistakable;
    RecordsReloaded(t, printed);
    DedupDistinct(printed);
    StableSortUnique(CodeKey(), out, printed);
  }

  lemma {:induction false} Mistaken(t: Table, printed: seq<Entry>, out: seq<Entry>, i: nat)
    requires Accepted(t) && FromTable(t, printed) && Found(MarkersOf(t.keys))
    requires StableSort(CodeKey(), Dedup(Records(Reprinted(t), LinesOf(MarkersOf(t.keys), printed))), out)
    requires i < |printed| && !Unmistakable(MarkersOf(t.keys), printed[i])
    ensures printed[i] !in out
  {
    hide Shaped, WithinLimits, ReadLine, LineOf, MarkersOf;
    var m := MarkersOf(t.keys);
    var lines := LinesOf(m, printed);
    var e := printed[i];
    if e in out {
      StableSortMember(Dedup(Records(Reprinted(t), lines)), out, e);
      DedupMembers(Records(Reprinted(t), lines), e);
      var j := RecordHasLine(Reprinted(t), lines, e);
      LineAt(m, printed, j);
      LineIsReloaded(t, printed[j]);
    }
  }

  /** Codes that begin with a declared key letter are never mistaken. */
  lemma KeyCodesAreUnmistakable(t: Table, e: Entry)
    requires Found(MarkersOf(t.keys)) && (e.kind == Normal && e.code != "" ==> e.code[0] in t.keys)
    ensures Unmistakable(MarkersOf(t.keys), e)
  {
    MarkersAreDistinct(t.keys);
  }

  lemma {:induction false} AllPrintable(es: seq<Entry>)
    ensures Printable(es) == |es| <==> forall i :: 0 <= i < |es| ==> |es[i].hz| < MAX_TEXT
  {
    if es != [] {
      AllPrintable(es[1..]);
      assert forall i :: 0 < i < |es| ==> es[i] == es[1..][i - 1];
      assert forall i :: 0 <= i < |es| - 1 ==> es[1..][i] == es[i + 1];
    }
  }

  lemma EntryIsPartOfLine(t: Table, line: string)
    requires ReadLine(t, line).Data?
    ensures var e := ReadLine(t, line).entry; |e.hz| <= |line| && ('\0' !in line ==> '\0' !in e.code && '\0' !in e.hz)
  {
    var b := TrimRight(TrimLeft(line));
    TrimmedIsPart(line);
    TrimmedIsPart(TrimLeft(line));
    TrimmedIsPart(b[WordLength(b)..]);
  }

  lemma {:induction false} TrimmedIsPart(s: string)
    ensures |TrimLeft(s)| <= |s| && |TrimRight(s)| <= |s|
    ensures forall c :: c !in s ==> c !in TrimLeft(s) && c !in TrimRight(s)
    decreases |s|
  {
    if s != "" {
      TrimmedIsPart(s[1..]);
      TrimmedIsPart(s[..|s| - 1]);
    }
  }

  lemma {:induction false} LoadedIsPlain(t: Table, lines: seq<string>, es: seq<Entry>)
    requires FromTable(t, es) && StableSort(CodeKey(), Dedup(Records(t, lines)), es)
    requires Accepted(t) && |es| <= |lines| < 0x1_0000_0000
    requires forall i :: 0 <= i < |lines| ==> |lines[i]| + 1 < 0x1_0000_0000 && '\0' !in lines[i]
    ensures Plain(es, t.pyCodeLength + 1)
  {
    hide Shaped, ReadLine;
    forall i | 0 <= i < |es|
      ensures '\0' !in es[i].code && '\0' !in es[i].hz && |es[i].hz| + 1 < 0x1_0000_0000
    {
      var e := es[i];
      StableSortMember(Dedup(Records(t, lines)), es, e);
      DedupMembers(Records(t, lines), e);
      var j := RecordHasLine(t, lines, e);
      EntryIsPartOfLine(t, lines[j]);
    }
  }

  /** The whole way round: text to ring, ring to binary file, binary file to text, and that
      text to a second ring, which holds the same list if and only if every text is short
      enough to be printed and no normal code begins with a marker. */
  method CompileAndReload(t: Table, lines: seq<string>) returns (ok: bool, first: Ring, second: Ring)
    requires Accepted(t) && Found(MarkersOf(t.keys))
    requires |lines| < 0x1_0000_0000 && forall i :: 0 <= i < |lines| ==>
      |lines[i]| + 1 < 0x1_0000_0000 && '\0' !in lines[i]
    ensures ok <==> AllValid(t, lines)
    ensures ok ==> first.Valid() && StableSort(CodeKey(), Dedup(Records(t, lines)), first.Contents())
    ensures ok ==> second.Valid() && Reproduced(t, first.Contents(), second.Contents())
  {
    hide Shaped, WithinLimits, ReadLine, LineOf, LinesOf, MarkersOf, Unmistakable, Printable, Printed, Sorted,
      Distinct, StableSort, RecordBytes, AllBytes, Records, Ring.Linked, Entries, Dedup, Reproduced, Survives;
    ok, first := LoadLines(t, lines);
    second := first;
    if !ok { return; }
    ghost var es := first.Contents();
    LoadedIsFromTable(t, lines, es);
    LoadedIsPlain(t, lines, es);
    var file := WriteRecords(first, t.pyCodeLength + 1);
    var m := ChooseMarkers(t.keys);
    var printed, texts := PrintRecords(file, t.pyCodeLength + 1, m, es);
    FoundIsPrinted(m, es[..Printable(es)]);
    var again;
    again, second := LoadLines(Reprinted(t), texts);
    ReloadedTable(t, es, second.Contents());
    SameOrShorter(t, es, second.Contents());
  }

  ghost predicate Reproduced(t: Table, es: seq<Entry>, out: seq<Entry>) {
    out == es <==> forall i :: 0 <= i < |es| ==> |es[i].hz| < MAX_TEXT && Unmistakable(MarkersOf(t.keys), es[i])
  }

  /** An ignored character that mb2txt takes for a marker: a table that ignores '@' and has it for
      no marker reads the line "@ x" as a normal record, and the way round does not give that
      record back. */
  lemma IgnoredIsMistaken(t: Table, out: seq<Entry>)
    requires Accepted(t) && '@' !in t.keys && '@' in t.ignored && '@' !in [t.pinyinKey, t.promptKey, t.phraseKey]
    ensures var e := Entry("@", "x", Normal);
      Records(t, ["@ x"]) == [e] && (Reproduced(t, [e], out) ==> out != [e])
  {
    var e := Entry("@", "x", Normal);
    PrintedLineIsRead(t, "@", "x");
    assert "@" + " " + "x" == "@ x";
    assert ReadFields(t, "@", "x") == Data(e);
    assert ["@ x"][..0] == [];
    assert MarkersOf(t.keys).pinyin == '@' && !Unmistakable(MarkersOf(t.keys), e);
    assert [e][0] == e;
  }

  /** There is such a table. */
  function Ignoring(): (t: Table)
    ensures Accepted(t) && '@' !in t.keys && '@' in t.ignored && '@' !in [t.pinyinKey, t.promptKey, t.phraseKey]
    ensures Found(MarkersOf(t.keys))
  {
    FreeIsFound("a", 'b', 'c', 'd');
    Table("a", "@", '#', '&', '^', 1, 1, (s: string) => 1)
  }

  lemma FoundIsPrinted(m: Markers, es: seq<Entry>)
    requires Found(m)
    ensures Printed(m, es)
  {
  }

  lemma {:induction false} SameOrShorter(t: Table, es: seq<Entry>, out: seq<Entry>)
    requires Survives(MarkersOf(t.keys), es[..Printable(es)], out)
    ensures Reproduced(t, es, out)
  {
    hide Unmistakable, MarkersOf;
    AllPrintable(es);
    var m := MarkersOf(t.keys);
    var printed := es[..Printable(es)];
    if |printed| == |es| {
      assert printed == es;
    }
    if i :| 0 <= i < |printed| && !Unmistakable(m, printed[i]) {
      assert !Unmistakable(m, es[i]);
    }
  }
}
