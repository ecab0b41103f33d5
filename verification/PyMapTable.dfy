/** The two spelling tables of the pinyin engine (src/im/pinyin/pyMapTable.c).

    The source calls the finals `consonantMapTable` and the initials
    `syllabaryMapTable`; here they carry the names of what they hold.  In every string
    of this project one char stands for one byte of a C string, and the terminating
    zero is left out. */
module PyMapTable {

  datatype MapEntry = MapEntry(spelling: string, code: char)

  const FINALS: seq<MapEntry> := [
    MapEntry("a", 'A'), MapEntry("ai", 'B'), MapEntry("an", 'C'), MapEntry("ang", 'D'), MapEntry("ao", 'E'),
    MapEntry("e", 'F'), MapEntry("ei", 'G'), MapEntry("en", 'H'), MapEntry("eng", 'I'),
    MapEntry("i", 'J'), MapEntry("ia", 'K'), MapEntry("ian", 'L'), MapEntry("iang", 'M'), MapEntry("iao", 'N'),
    MapEntry("ie", 'O'), MapEntry("in", 'P'), MapEntry("ing", 'Q'), MapEntry("iong", 'R'), MapEntry("iu", 'S'),
    MapEntry("o", 'T'), MapEntry("ong", 'U'), MapEntry("ou", 'V'),
    MapEntry("u", 'W'), MapEntry("ua", 'X'), MapEntry("uai", 'Y'), MapEntry("uan", 'Z'), MapEntry("uang", 'a'),
    MapEntry("ue", 'b'), MapEntry("ui", 'c'), MapEntry("un", 'd'), MapEntry("uo", 'e'),
    MapEntry("v", 'f'), MapEntry("ve", 'g')
  ]

  const INITIALS: seq<MapEntry> := [
    MapEntry("zh", 'A'), MapEntry("z", 'B'), MapEntry("y", 'C'), MapEntry("x", 'D'), MapEntry("w", 'E'),
    MapEntry("t", 'F'), MapEntry("sh", 'G'), MapEntry("s", 'H'), MapEntry("r", 'I'), MapEntry("q", 'J'),
    MapEntry("p", 'K'), MapEntry("ou", 'L'), MapEntry("o", 'M'), MapEntry("ng", 'N'), MapEntry("n", 'O'),
    MapEntry("m", 'P'), MapEntry("l", 'Q'), MapEntry("k", 'R'), MapEntry("j", 'S'), MapEntry("h", 'T'),
    MapEntry("g", 'U'), MapEntry("f", 'V'), MapEntry("er", 'W'), MapEntry("en", 'X'), MapEntry("ei", 'Y'),
    MapEntry("e", 'Z'), MapEntry("d", 'a'), MapEntry("ch", 'b'), MapEntry("c", 'c'), MapEntry("b", 'd'),
    MapEntry("ao", 'e'), MapEntry("ang", 'f'), MapEntry("an", 'g'), MapEntry("ai", 'h'), MapEntry("a", 'i')
  ]

  /** The code letter both tables use at index i. */
  function CodeAt(i: nat): char
    requires i < 52
  {
    if i < 26 then ('A' as int + i) as char else ('a' as int + i - 26) as char
  }

  predicate Letter(c: char) {
    'a' <= c <= 'z'
  }

  predicate Letters(s: string) {
    forall i :: 0 <= i < |s| ==> Letter(s[i])
  }

  predicate Word(s: string) {
    s != "" && Letters(s)
  }

  predicate HasRow(t: seq<MapEntry>, s: string) {
    exists k :: 0 <= k < |t| && t[k].spelling == s
  }

  /** What the engine relies on.  The finals are the shorter table and carry the codes of
      the initials in the same rows; codes are pairwise distinct and never a blank or the
      wildcard; spellings are lower-case words; no final begins with the second letter of a
      two-letter initial; every letter is a row of its own in one of the tables, and "eng"
      is a final. */
  ghost predicate SpellingTables(initials: seq<MapEntry>, finals: seq<MapEntry>) {
    && SharedCodes(initials, finals)
    && AllWords(initials)
    && AllWords(finals)
    && VowelFirst(finals)
    && LettersCovered(initials, finals)
    && HasRow(finals, "eng")
  }

  ghost predicate SharedCodes(initials: seq<MapEntry>, finals: seq<MapEntry>) {
    && |finals| <= |initials| <= 52
    && (forall i :: 0 <= i < |initials| ==> initials[i].code == CodeAt(i))
    && (forall i :: 0 <= i < |finals| ==> finals[i].code == CodeAt(i))
  }

  predicate AllWords(t: seq<MapEntry>) {
    forall i :: 0 <= i < |t| ==> Word(t[i].spelling)
  }

  /** More than two letters, the last two of them gn. */
  predicate Mistyped(s: string) {
    |s| > 2 && s[|s| - 1] == 'n' && s[|s| - 2] == 'g'
  }

  predicate NoneMistyped(t: seq<MapEntry>) {
    forall i :: 0 <= i < |t| ==> !Mistyped(t[i].spelling)
  }

  predicate VowelFirst(t: seq<MapEntry>) {
    forall i :: 0 <= i < |t| && t[i].spelling != "" ==> t[i].spelling[0] != 'h' && t[i].spelling[0] != 'g'
  }

  ghost predicate LettersCovered(initials: seq<MapEntry>, finals: seq<MapEntry>) {
    forall c :: Letter(c) ==> HasRow(initials, [c]) || HasRow(finals, [c])
  }

  /** The two tables of the source are such a pair. */
  lemma StandardTables()
    ensures SpellingTables(INITIALS, FINALS)
  {
    StandardCodes();
    StandardInitialWords();
    StandardFinalWords();
    StandardFinals();
    StandardLetters();
  }

  /** No spelling of the two tables is a gn misspelling. */
  lemma StandardSpellings()
    ensures NoneMistyped(INITIALS) && NoneMistyped(FINALS)
  {
    forall i | 0 <= i < |INITIALS|
      ensures !Mistyped(INITIALS[i].spelling)
    {
      if i < 12 {} else if i < 24 {} else {}
    }
    FinalsAreSpelt();
  }

  lemma FinalsAreSpelt()
    ensures NoneMistyped(FINALS)
  {
    forall i | 0 <= i < |FINALS|
      ensures !Mistyped(FINALS[i].spelling)
    {
      if i < 11 {} else if i < 22 {} else {}
    }
  }

  lemma StandardCodes()
    ensures SharedCodes(INITIALS, FINALS)
  {
    InitialCodes();
    FinalCodes();
    hide CodeAt;
  }

  lemma InitialCodes()
    ensures |INITIALS| == 35 && forall i :: 0 <= i < |INITIALS| ==> INITIALS[i].code == CodeAt(i)
  {
  }

  lemma FinalCodes()
    ensures |FINALS| == 33 && forall i :: 0 <= i < |FINALS| ==> FINALS[i].code == CodeAt(i)
  {
  }

  lemma StandardInitialWords()
    ensures AllWords(INITIALS)
  {
    forall i | 0 <= i < |INITIALS|
      ensures Word(INITIALS[i].spelling)
    {
      if i < 12 {} else if i < 24 {} else {}
    }
  }

  lemma StandardFinalWords()
    ensures AllWords(FINALS)
  {
    forall i | 0 <= i < |FINALS|
      ensures Word(FINALS[i].spelling)
    {
      if i < 11 {} else if i < 22 {} else {}
    }
  }

  lemma StandardFinals()
    ensures VowelFirst(FINALS) && HasRow(FINALS, "eng")
  {
    assert FINALS[8].spelling == "eng";
  }

  lemma RowExists(t: seq<MapEntry>, k: nat, s: string)
    requires k < |t| && t[k].spelling == s
    ensures HasRow(t, s)
  {
  }

  /** The initials MapPY can take off the front of a spelling: all of one letter, and
      exactly zh, sh, ng and ch of the longer ones. */
  lemma TwoLetterInitials(k: nat)
    requires k < |INITIALS|
    ensures Detachable(INITIALS[k].spelling) <==>
      |INITIALS[k].spelling| == 1 || INITIALS[k].spelling in ["zh", "sh", "ng", "ch"]
  {
  }

  predicate Detachable(initial: string) {
    |initial| == 1 || (|initial| == 2 && (initial[1] == 'h' || initial[1] == 'g'))
  }

  lemma FinalsBeginWithVowels(r: nat)
    requires r < |FINALS|
    ensures FINALS[r].spelling != "" && FINALS[r].spelling[0] in ['a', 'e', 'i', 'o', 'u', 'v']
    ensures (FINALS[r].spelling[0] == 'i' ==> r >= 9) && (FINALS[r].spelling[0] == 'u' ==> r >= 22)
  {
    if r < 11 {} else if r < 22 {} else {}
  }

  lemma OnlyInitialB(r: nat)
    requires r < |INITIALS| && INITIALS[r].spelling != "" && INITIALS[r].spelling[0] == 'b'
    ensures INITIALS[r].spelling == "b"
  {
    if r < 12 {} else if r < 24 {} else {}
  }

  /** Every letter is itself a row of one of the tables. */
  lemma StandardLetters()
    ensures LettersCovered(INITIALS, FINALS)
  {
    forall c | Letter(c) ensures HasRow(INITIALS, [c]) || HasRow(FINALS, [c]) {
      if c in "aeiouv" {
        RowExists(FINALS, RowOfVowel(c), [c]);
      } else {
        RowExists(INITIALS, RowOfConsonant(c), [c]);
      }
    }
  }

  function RowOfVowel(c: char): (k: nat)
    requires c in "aeiouv"
    ensures k < |FINALS| && FINALS[k].spelling == [c]
  {
    if c == 'a' then 0 else if c == 'e' then 5 else if c == 'i' then 9
    else if c == 'o' then 19 else if c == 'u' then 22 else 31
  }

  function RowOfConsonant(c: char): (k: nat)
    requires Letter(c) && c !in "aeiouv"
    ensures k < |INITIALS| && INITIALS[k].spelling == [c]
  {
    if c == 'b' then 29 else if c == 'c' then 28 else if c == 'd' then 26 else if c == 'f' then 21
    else if c == 'g' then 20 else if c == 'h' then 19 else if c == 'j' then 18 else if c == 'k' then 17
    else if c == 'l' then 16 else if c == 'm' then 15 else if c == 'n' then 14 else if c == 'p' then 10
    else if c == 'q' then 9 else if c == 'r' then 8 else if c == 's' then 7 else if c == 't' then 5
    else if c == 'w' then 4 else if c == 'x' then 3 else if c == 'y' then 2 else 1
  }
}
