/** LoadPYMB, the stand-alone reader of the user phrase file, which passes over the file
    twice (tools/cli/pyTools.c:27-112). */
module PyTools {
  import opened Binary
  import opened Dictionary
  import opened PhraseFile

  /** A 32-bit pattern read into a C int. */
  function AsInt32(n: nat): int {
    if n < INT32 then n else n - 0x1_0000_0000
  }

  datatype MBPhrase = MBPhrase(length: nat, strMap: string, phrase: string, index: int, hit: int)

  datatype MBEntry = MBEntry(pyfaIndex: nat, hz: string, phrases: seq<MBPhrase>)

  function OfPhrase(p: Phrase): MBPhrase {
    MBPhrase(|p.strMap|, p.strMap, p.text, AsInt32(p.stamp), AsInt32(p.hit))
  }

  function OfPhrases(ps: seq<Phrase>): (r: seq<MBPhrase>)
    ensures |r| == |ps| && forall k :: 0 <= k < |ps| ==> r[k] == OfPhrase(ps[k])
  {
    if ps == [] then [] else OfPhrases(ps[..|ps| - 1]) + [OfPhrase(ps[|ps| - 1])]
  }

  function OfEntries(es: seq<Saved>): (r: seq<MBEntry>)
    ensures |r| == |es|
    ensures forall k :: 0 <= k < |es| ==> r[k] == MBEntry(es[k].group, es[k].hz, OfPhrases(es[k].phrases))
  {
    if es == [] then []
    else
      var e := es[|es| - 1];
      OfEntries(es[..|es| - 1]) + [MBEntry(e.group, e.hz, OfPhrases(e.phrases))]
  }

  /** fseek over one phrase. */
  method SkipPhrase(ahead: string, ghost p: Phrase, ghost rest: string) returns (size: nat)
    requires Storable(p) && ahead == PhraseBytes(p) + rest
    ensures size <= |ahead| && ahead[size..] == rest
  {
    hide PhraseBytes, U32At;
    PhraseFields(p, rest);
    var n := U32At(ahead, 0);
    size := 4 + n;
    n := U32At(ahead, size);
    size := size + 4 + n + 8;
  }

  /** The first pass counts the entries. */
  method CountEntries(file: string, ghost es: seq<Saved>) returns (n: nat)
    requires StorableAll(es) && file == FileBytes(es)
    ensures n == |es|
  {
    hide EntryBytes, Storable, PhrasesBytes, PhraseBytes, FileBytes;
    n := 0;
    var p := 0;
    assert es[0..] == es && file[0..] == file;
    FileAhead(es, 0);
    while p + 4 <= |file|
      invariant 0 <= n <= |es| && p <= |file|
      invariant file[p..] == FileBytes(es[n..]) && (n < |es| <==> p + 4 <= |file|)
      decreases |es| - n
    {
      ghost var e := es[n];
      ghost var behind := FileBytes(es[n + 1..]);
      FileAhead(es, n);
      var _, _, t, size := ReadHeader(file[p..], e, behind);
      p := p + size;
      assert file[p..] == PhrasesBytes(e.phrases) + behind;
      var i := 0;
      assert e.phrases[0..] == e.phrases;
      while i < t
        invariant 0 <= i <= t == |e.phrases| && p <= |file|
        invariant file[p..] == PhrasesBytes(e.phrases[i..]) + behind
      {
        ghost var rest := PhrasesBytes(e.phrases[i + 1..]) + behind;
        PhrasesCons(e.phrases[i..]);
        assert e.phrases[i..][1..] == e.phrases[i + 1..];
        assert file[p..] == PhraseBytes(e.phrases[i]) + rest;
        var skip := SkipPhrase(file[p..], e.phrases[i], rest);
        assert file[p..][skip..] == file[p + skip..];
        p, i := p + skip, i + 1;
      }
      NoPhrases(e.phrases, i);
      FileAhead(es, n + 1);
      n := n + 1;
    }
  }

  /** The second pass reads as many entries as the first one counted; stamps and hit counts
      come out as signed numbers. */
  method LoadPYMB(file: string, ghost es: seq<Saved>) returns (pymb: seq<MBEntry>)
    requires StorableAll(es) && file == FileBytes(es)
    ensures pymb == OfEntries(es)
  {
    hide EntryBytes, Storable, PhrasesBytes, PhraseBytes, FileBytes, OfPhrase, OfPhrases;
    var n := CountEntries(file, es);
    pymb := [];
    var p, i := 0, 0;
    assert es[0..] == es && file[0..] == file;
    while i < n
      invariant 0 <= i <= n && p <= |file|
      invariant file[p..] == FileBytes(es[i..]) && pymb == OfEntries(es[..i])
    {
      ghost var e := es[i];
      ghost var behind := FileBytes(es[i + 1..]);
      FileAhead(es, i);
      var pyfaIndex, hz, count, size := ReadHeader(file[p..], e, behind);
      var phrases, length := LoadPhrases(file[p..][size..], count, e.phrases, behind);
      assert file[p..][size..][length..] == file[p + size + length..];
      assert es[..i + 1][..i] == es[..i];
      pymb := pymb + [MBEntry(pyfaIndex, hz, phrases)];
      p, i := p + size + length, i + 1;
    }
    assert es[..i] == es;
  }

  method LoadPhrases(ahead: string, count: nat, ghost ps: seq<Phrase>, ghost behind: string)
      returns (phrases: seq<MBPhrase>, size: nat)
    requires count == |ps| && (forall k :: 0 <= k < |ps| ==> Storable(ps[k])) && ahead == PhrasesBytes(ps) + behind
    ensures phrases == OfPhrases(ps) && size <= |ahead| && ahead[size..] == behind
  {
    hide Storable, PhraseBytes, PhrasesBytes;
    phrases, size := [], 0;
    var j := 0;
    assert ps[0..] == ps && ahead[0..] == ahead;
    while j < count
      invariant 0 <= j <= count && size <= |ahead|
      invariant phrases == OfPhrases(ps[..j])
      invariant ahead[size..] == PhrasesBytes(ps[j..]) + behind
    {
      ghost var rest := PhrasesBytes(ps[j + 1..]) + behind;
      PhrasesCons(ps[j..]);
      assert ps[j..][1..] == ps[j + 1..];
      assert ahead[size..] == PhraseBytes(ps[j]) + rest;
      var q, length := ReadPhrase(ahead[size..], ps[j], rest);
      assert ahead[size..][length..] == ahead[size + length..];
      assert ps[..j + 1][..j] == ps[..j];
      phrases := phrases + [MBPhrase(|q.strMap|, q.strMap, q.text, AsInt32(q.stamp), AsInt32(q.hit))];
      size, j := size + length, j + 1;
    }
    assert ps[..j] == ps;
    NoPhrases(ps, j);
  }

  /** The signed numbers are the saved ones exactly below the sign bit. */
  lemma {:induction false} SignedReading(p: Phrase)
    requires p.stamp < 0x1_0000_0000 && p.hit < 0x1_0000_0000
    ensures OfPhrase(p).index == p.stamp <==> p.stamp < 0x8000_0000
    ensures OfPhrase(p).hit == p.hit <==> p.hit < 0x8000_0000
    ensures OfPhrase(p).index % 0x1_0000_0000 == p.stamp && OfPhrase(p).hit % 0x1_0000_0000 == p.hit
  {
  }
}
