/** txt2mb: the data lines of a table in text form, loaded into the ring of records
    (tools/cli/txt2mb.c:65-91, 408-531). */
module Txt2mb {
  import opened Keyed
  import opened RecordRing

  /** The settings of the header lines.  `utf8len` is fcitx_utf8_strlen. */
  datatype Table = Table(
    keys: string,
    ignored: string,
    pinyinKey: char,
    promptKey: char,
    phraseKey: char,
    codeLength: nat,
    pyCodeLength: nat,
    utf8len: string -> nat)

  /** The header was accepted: there are keys and a code length, and the pinyin length has
      been raised to the code length. */
  predicate Accepted(t: Table) {
    t.keys != "" && 0 < t.codeLength <= t.pyCodeLength
  }

  predicate IsSpace(c: char) {
    c == ' ' || 9 <= c as int <= 13
  }

  predicate IsValidCode(t: Table, c: char) {
    c in t.keys || c in t.ignored || c == t.pinyinKey || c == t.phraseKey || c == t.promptKey
  }

  function TrimLeft(s: string): string {
    if s != "" && IsSpace(s[0]) then TrimLeft(s[1..]) else s
  }

  function TrimRight(s: string): string {
    if s != "" && IsSpace(s[|s| - 1]) then TrimRight(s[..|s| - 1]) else s
  }

  /** The length of the leading part without a space. */
  function WordLength(s: string): (n: nat)
    ensures n <= |s|
  {
    if s == "" || IsSpace(s[0]) then 0 else 1 + WordLength(s[1..])
  }

  /** What a data line means: nothing, the end of the run, a record left out, or a record. */
  datatype Line = Blank | Invalid | TooLong | Data(entry: Entry)

  predicate Oversized(t: Table, code: string)
    requires code != ""
  {
    || (code[0] != t.pinyinKey && |code| > t.codeLength)
    || (code[0] == t.pinyinKey && |code| > t.pyCodeLength + 1)
    || (code[0] == t.phraseKey && |code| > t.codeLength + 1)
    || (code[0] == t.promptKey && |code| > t.pyCodeLength + 1)
  }

  function KindOf(t: Table, c: char): RecordType {
    if c == t.pinyinKey then Pinyin
    else if c == t.phraseKey then Construct
    else if c == t.promptKey then Prompt
    else Normal
  }

  function ReadFields(t: Table, code: string, hz: string): Line
    requires code != ""
  {
    if !IsValidCode(t, code[0]) then Invalid
    else if Oversized(t, code) then TooLong
    else if code[0] == t.phraseKey && t.utf8len(hz) != 1 then TooLong
    else
      var kind := KindOf(t, code[0]);
      Data(Entry(if kind == Normal then code else code[1..], hz, kind))
  }

  function ReadLine(t: Table, line: string): Line {
    var b := TrimRight(TrimLeft(line));
    var n := WordLength(b);
    if n == |b| || n == 0 then Blank else ReadFields(t, b[..n], TrimLeft(b[n..]))
  }

  lemma {:induction false} TrimmedStart(s: string)
    ensures TrimLeft(s) != "" ==> !IsSpace(TrimLeft(s)[0])
  {
    if s != "" && IsSpace(s[0]) { TrimmedStart(s[1..]); }
  }

  lemma {:induction false} TrimRightKeepsStart(s: string)
    requires s != "" && !IsSpace(s[0])
    ensures TrimRight(s) != "" && TrimRight(s)[0] == s[0] && !IsSpace(TrimRight(s)[|TrimRight(s)| - 1])
  {
    if IsSpace(s[|s| - 1]) { TrimRightKeepsStart(s[..|s| - 1]); }
  }

  /* ----- what separates on a line ----- */

  /** Blanks and the control characters 9 to 13: tab, line feed, vertical tab, form feed and
      carriage return. */
  const SPACES: seq<char> := [' ', '\t', '\n', 11 as char, 12 as char, '\r']

  predicate AllSpaces(s: string) {
    forall i :: 0 <= i < |s| ==> s[i] in SPACES
  }

  predicate NoSpaces(s: string) {
    forall i :: 0 <= i < |s| ==> s[i] !in SPACES
  }

  lemma SpacesExactly(c: char)
    ensures IsSpace(c) <==> c in SPACES
  {
  }

  lemma {:induction false} LeftTrimmed(lead: string, s: string)
    requires AllSpaces(lead) && (s != "" ==> s[0] !in SPACES)
    ensures TrimLeft(lead + s) == s
  {
    hide IsSpace;
    if lead == "" {
      assert lead + s == s;
      if s != "" { SpacesExactly(s[0]); }
    } else {
      SpacesExactly(lead[0]);
      assert (lead + s)[1..] == lead[1..] + s;
      LeftTrimmed(lead[1..], s);
    }
  }

  lemma {:induction false} RightTrimmed(s: string, tail: string)
    requires AllSpaces(tail) && s != "" && s[|s| - 1] !in SPACES
    ensures TrimRight(s + tail) == s
    decreases |tail|
  {
    hide IsSpace;
    if tail == "" {
      assert s + tail == s;
      SpacesExactly(s[|s| - 1]);
    } else {
      var last := |tail| - 1;
      SpacesExactly(tail[last]);
      assert (s + tail)[..|s + tail| - 1] == s + tail[..last];
      RightTrimmed(s, tail[..last]);
    }
  }

  lemma {:induction false} WordEnds(code: string, rest: string)
    requires NoSpaces(code) && (rest != "" ==> rest[0] in SPACES)
    ensures WordLength(code + rest) == |code|
  {
    hide IsSpace;
    if code == "" {
      assert code + rest == rest;
      if rest != "" { SpacesExactly(rest[0]); }
    } else {
      SpacesExactly(code[0]);
      assert (code + rest)[1..] == code[1..] + rest;
      WordEnds(code[1..], rest);
    }
  }

  /** A line is its code and its text, wherever such characters stand in front, between and
      behind. */
  lemma LineFields(t: Table, lead: string, code: string, gap: string, text: string, tail: string)
    requires AllSpaces(lead) && AllSpaces(gap) && AllSpaces(tail) && gap != ""
    requires code != "" && NoSpaces(code)
    requires text != "" && text[0] !in SPACES && text[|text| - 1] !in SPACES
    ensures ReadLine(t, lead + code + gap + text + tail) == ReadFields(t, code, text)
  {
    hide TrimLeft, TrimRight, WordLength, ReadFields;
    var body := code + (gap + text);
    assert lead + code + gap + text + tail == lead + (body + tail);
    assert body[|body| - 1] == text[|text| - 1];
    LeftTrimmed(lead, body + tail);
    RightTrimmed(body, tail);
    WordEnds(code, gap + text);
    assert body[..|code|] == code && body[|code|..] == gap + text;
    LeftTrimmed(gap, text);
  }

  lemma NothingTrimmed()
    ensures TrimRight("") == "" && WordLength("") == 0
  {
  }

  /** A line without a text behind its code is no record, nor is one without a code. */
  lemma LineWithoutText(t: Table, lead: string, code: string, tail: string)
    requires AllSpaces(lead) && AllSpaces(tail) && NoSpaces(code)
    ensures ReadLine(t, lead + code + tail) == Blank
  {
    hide TrimLeft, TrimRight, WordLength, ReadFields;
    if code == "" {
      assert lead + code + tail == (lead + tail) + "";
      LeftTrimmed(lead + tail, "");
      NothingTrimmed();
    } else {
      assert lead + code + tail == lead + (code + tail);
      LeftTrimmed(lead, code + tail);
      RightTrimmed(code, tail);
      WordEnds(code, "");
      assert code + "" == code;
    }
  }

  /** The first character tells the kind: a line ends the run when it is no key, ignored character
      or marker; a record is left out when its code is longer than the limit of its kind, or when
      it is a construct record whose text is not one character; the marker is no part of the
      code. */
  lemma FieldsMean(t: Table, code: string, text: string)
    requires code != "" && Accepted(t)
    ensures var c, r := code[0], ReadFields(t, code, text);
      && (r == Invalid <==> c !in t.keys && c !in t.ignored && c !in [t.pinyinKey, t.phraseKey, t.promptKey])
      && (c == t.pinyinKey && t.pinyinKey !in [t.phraseKey, t.promptKey] ==>
        r == if |code| > t.pyCodeLength + 1 then TooLong else Data(Entry(code[1..], text, Pinyin)))
      && (c == t.phraseKey && t.phraseKey != t.pinyinKey ==>
        r == if |code| > t.codeLength || t.utf8len(text) != 1 then TooLong else Data(Entry(code[1..], text, Construct)))
      && (c == t.promptKey && t.promptKey !in [t.pinyinKey, t.phraseKey] ==>
        r == if |code| > t.codeLength then TooLong else Data(Entry(code[1..], text, Prompt)))
      && (c in t.keys + t.ignored && c !in [t.pinyinKey, t.phraseKey, t.promptKey] ==>
        r == if |code| > t.codeLength then TooLong else Data(Entry(code, text, Normal)))
  {
  }

  /** fcitx_utils_trim. */
  method Trim(line: string) returns (b: string)
    ensures b == TrimRight(TrimLeft(line))
  {
    var s := 0;
    assert line[0..] == line;
    while s < |line| && IsSpace(line[s])
      invariant 0 <= s <= |line| && TrimLeft(line) == TrimLeft(line[s..])
    {
      assert line[s..][1..] == line[s + 1..];
      s := s + 1;
    }
    var end := |line|;
    assert line[s..end] == line[s..];
    while end > s && IsSpace(line[end - 1])
      invariant s <= end <= |line| && TrimRight(line[s..]) == TrimRight(line[s..end])
    {
      assert line[s..end][..end - s - 1] == line[s..end - 1];
      end := end - 1;
    }
    b := line[s..end];
  }

  /** One data line, scanned as the source does (tools/cli/txt2mb.c:410-464). */
  method ScanLine(t: Table, line: string) returns (r: Line)
    ensures r == ReadLine(t, line)
  {
    hide Oversized, IsValidCode;
    var b := Trim(line);
    var p := 0;
    assert b[0..] == b;
    while p < |b| && !IsSpace(b[p])
      invariant 0 <= p <= |b| && WordLength(b) == p + WordLength(b[p..])
    {
      assert b[p..][1..] == b[p + 1..];
      p := p + 1;
    }
    if p == |b| { return Blank; }
    TrimmedStart(line);
    if TrimLeft(line) != "" { TrimRightKeepsStart(TrimLeft(line)); }
    var q := p;
    while q < |b| && IsSpace(b[q])
      invariant p <= q <= |b| && TrimLeft(b[p..]) == TrimLeft(b[q..])
    {
      assert b[q..][1..] == b[q + 1..];
      q := q + 1;
    }
    var code, hz := b[..p], b[q..];
    if !IsValidCode(t, code[0]) { return Invalid; }
    if Oversized(t, code) { return TooLong; }
    if code[0] == t.phraseKey && t.utf8len(hz) != 1 { return TooLong; }
    if code[0] == t.pinyinKey { return Data(Entry(code[1..], hz, Pinyin)); }
    if code[0] == t.phraseKey { return Data(Entry(code[1..], hz, Construct)); }
    if code[0] == t.promptKey { return Data(Entry(code[1..], hz, Prompt)); }
    return Data(Entry(code, hz, Normal));
  }

  /** The records the lines give, in order. */
  function Records(t: Table, lines: seq<string>): seq<Entry> {
    if lines == [] then []
    else
      var line := ReadLine(t, lines[|lines| - 1]);
      Records(t, lines[..|lines| - 1]) + (if line.Data? then [line.entry] else [])
  }

  predicate AllValid(t: Table, lines: seq<string>) {
    forall i :: 0 <= i < |lines| ==> !ReadLine(t, lines[i]).Invalid?
  }

  /** The record loop: an invalid line ends the run, otherwise the ring ends up with the
      records of the lines, later duplicates dropped, stably sorted by code. */
  method LoadLines(t: Table, lines: seq<string>) returns (ok: bool, ring: Ring)
    ensures ok <==> AllValid(t, lines)
    ensures ring.Valid()
    ensures ok ==> StableSort(CodeKey(), Dedup(Records(t, lines)), ring.Contents())
    ensures |ring.Contents()| <= |lines|
  {
    hide Loaded, ReadLine, Sorted, Distinct, StableSort, Ring.Linked, Entries, Inserted, Records, Dedup;
    ring := new Ring();
    NoLines(t);
    var l := 0;
    assert lines[..0] == [] && lines[..|lines|] == lines;
    while l < |lines|
      invariant 0 <= l <= |lines| && ring.Valid() && fresh(ring)
      invariant forall i :: 0 <= i < |ring.nodes| ==> fresh(ring.nodes[i])
      invariant Loaded(t, lines[..l], ring.Contents())
    {
      var line := ScanLine(t, lines[l]);
      if line.Invalid? {
        LoadedIs(t, lines[..l], ring.Contents());
        return false, ring;
      }
      ghost var before := ring.Contents();
      if line.Data? {
        var added := ring.Add(line.entry.code, line.entry.hz, line.entry.kind);
      }
      LoadedMore(t, lines[..l], lines[l], before, ring.Contents());
      assert lines[..l + 1] == lines[..l] + [lines[l]];
      l := l + 1;
    }
    LoadedIs(t, lines, ring.Contents());
    ok := true;
  }

  /** The lines seen are valid and the list is what they should make. */
  ghost predicate Loaded(t: Table, seen: seq<string>, c: seq<Entry>) {
    AllValid(t, seen) && StableSort(CodeKey(), Dedup(Records(t, seen)), c) && |c| <= |seen|
  }

  lemma {:induction false} LoadedIs(t: Table, seen: seq<string>, c: seq<Entry>)
    requires Loaded(t, seen, c)
    ensures AllValid(t, seen) && StableSort(CodeKey(), Dedup(Records(t, seen)), c) && |c| <= |seen|
  {
  }

  lemma NoLines(t: Table)
    ensures Loaded(t, [], [])
  {
  }

  lemma LoadedMore(t: Table, seen: seq<string>, text: string, before: seq<Entry>, after: seq<Entry>)
    requires Loaded(t, seen, before) && !ReadLine(t, text).Invalid? && Sorted(CodeKey(), after)
    requires var line := ReadLine(t, text);
      if line.Data? && line.entry !in before then exists p: nat :: Inserted(before, line.entry, p, after)
      else after == before
    ensures Loaded(t, seen + [text], after)
  {
    hide ReadLine, Sorted;
    assert (seen + [text])[..|seen|] == seen;
    var line := ReadLine(t, text);
    if line.Data? {
      OneRecordMore(Records(t, seen), before, line.entry, after);
      if line.entry !in before {
        var p: nat :| Inserted(before, line.entry, p, after);
      }
    } else {
      assert Records(t, seen + [text]) == Records(t, seen);
    }
    assert AllValid(t, seen + [text]);
  }

  lemma {:induction false} OneRecordMore(rs: seq<Entry>, before: seq<Entry>, e: Entry, after: seq<Entry>)
    requires StableSort(CodeKey(), Dedup(rs), before) && Sorted(CodeKey(), after)
    requires e in before ==> after == before
    requires e !in before ==> exists p: nat :: Inserted(before, e, p, after)
    ensures StableSort(CodeKey(), Dedup(rs + [e]), after)
  {
    var key := CodeKey();
    assert (rs + [e])[..|rs|] == rs;
    DedupMembers(rs, e);
    OfKeyMember(key, before, e.code, e);
    OfKeyMember(key, Dedup(rs), e.code, e);
    assert OfKey(key, before, e.code) == OfKey(key, Dedup(rs), e.code);
    if e !in before {
      var p: nat :| Inserted(before, e, p, after);
      forall k ensures OfKey(key, after, k) == OfKey(key, Dedup(rs) + [e], k) {
        FitsAppends(key, before, e, p, k);
        OfKeyConcat(key, before, [e], k);
        OfKeyConcat(key, Dedup(rs), [e], k);
      }
    }
  }
}
