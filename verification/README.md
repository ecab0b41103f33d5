# Fcitx pinyin: language core and dictionary compilers

A Dafny model of the part of Fcitx 4 that turns key strokes into syllables, codes and
sentences, of the user phrase store behind it, and of the tools that compile its
dictionaries.  The main results:

- **Parsing** (`ParsePy`, `Shuangpin`): printing the parse of any typed text gives the text
  with separator runs collapsed, and parsing that text again gives the same pieces, codes
  and mode; so does the text of any last pieces, which is what the editing code relies on.
  The parser's last branch is reached only at a separator.  The Shuangpin branch has the
  same property on every text; it also collapses separators exactly when the text does not
  begin with two of them.
- **Codes** (`PyMapTable`, `Pyfa`, `PyParser`, `FuzzyPairs`): spelling to code and back, which
  spellings have a code, when two codes agree under fuzzy pairs and wildcards, and when a phrase
  is accepted as a candidate.
- **Editing** (`Editing`, `PinyinState`): every key keeps the cursor, the stored parse and the
  raw input consistent; a Backspace undoes a pick; after any run of picks, steps back and
  cursor moves the open text still parses into exactly the pieces not chosen.
- **The word limit** (`WordLimit`, `LimitPassed`): a text cut behind a piece never has more pieces
  than were kept, although lookahead can draw them differently; so the limit of 32 holds over
  runs of typing, picking and moving, and it is shown which keys pass it and from where.
- **Sentences** (`AutoSentence`): the greedy builder ends with nothing or with one character
  for each syllable, from steps that are each the best available; each step's characters stand
  where the ones before it end, and the code of the sentence agrees with what was typed.
- **User phrases** (`UserPhrases`, `PhraseRing`, `PhraseFile`, `PyTools`, `DictMerge`): what
  every run of additions and deletions keeps, the ring those operations rewire, saving and
  loading, the stand-alone reader, and the merge with a further dictionary.
- **Table compiler** (`RecordRing`, `Txt2mb`, `Binary`, `Mb2txt`): the ring searched from the
  record inserted last is the stable sort of the lines without repeats; text, binary file,
  text and ring again reproduce the list exactly under a stated condition.
- **Pinyin dictionary compiler** (`BaseFile`, `Numbering`, `PhraseLists`): sorted maximal
  groups, a header that counts them, two numberings that are bijections.
- **Letter codec** (`PoCodec`): decoding gives back what was encoded whatever junk stands
  between the letters and however the bytes are split into reads.

`Order` and `Keyed` hold the order of strcmp and stable sorting by a string key, `Splicing` how
places move when a sequence is changed, `Dictionary` the entities the phrase modules share.

Strings are sequences of characters without the terminating zero; where a module works on
bytes a character is one byte, and where it counts Chinese characters a character is one
of those.  The syllable table, the split frequencies and the key schemes are parameters.
What is demanded of the syllable table is stated where it is used: words of lower-case
letters (`Pyfa.WordTable`), no word before a longer word it begins (`Pyfa.LongestFirst`),
after each `gn` misspelling its correction (`Pyfa.CorrectionsFollow`), and spellings that have
a code, with a letter for their initial (`ParsePy.CodedTable`, `ParsePy.HeadedTable`).  The tables of
initials and finals are written out and shown to be what the proofs need of them.

A method is tied to a function of its inputs or of the old state, and the properties are
proved about that function; the rows below name the members that state properties.  What such
a function gives for a key, a line, a spelling or a record is also stated without it, in parts
of the text, bytes at their places, or spellings of the tables.

## What the code turns out to do

- `IsJ_Q_X_Y` tests `X`, which is the code of the initial "en"; the code of "x" is `D`
  (`Pyfa.JqxyCodes`).
- With its fuzzy option on, "eng" has a code that no spelling is read back from, the only
  exception to the round trip (`PyParser.SpellingRoundTrip`).
- `CmpMap` reads behind the end of a phrase code if and only if the whole phrase agrees and the
  typed code goes on with a wildcard that counts (`PyParser.ComparableExactly`, with a code for
  which it does in `PyParser.ComparisonLeavesPhrase`).  For the sentence builder after a parse
  this is: a matching phrase ends before the separator that ends the typed text
  (`AutoSentence.ParsedOverruns`).  The model reports it and stops there.
- `SP2QP` writes `!(IsSyllabary(...))` where a result of -1 means "not found".  The clause asks
  for row 0 of the initials, which has two letters, while it looks one letter up, so it never
  holds (`Shuangpin.UnknownKeyClause`).
- The limit of 32 pieces and chosen characters is checked where a key is inserted only.  Over
  tables with no word before a longer word it begins, every run of typing, picking, moving and
  taking back choices made since the text was last changed keeps it
  (`WordLimit.InsertKeepsLimit`, `WordLimit.RunKeepsLimit`).  Backspace and Delete can pass it,
  since a letter taken out can split a piece: with "zhong" behind 31 letters b and its o taken
  out there are more than 32 pieces, and after a pick of 32 of them open text stands where there
  is no room, which the next key clears (`LimitPassed.RemovalPasses`).  So can taking a choice
  back behind an edit, which can join its text to the open one: "e'ruan" and 30 letters b, one
  character chosen, the separator deleted, Backspace (`LimitPassed.TakeBackPasses`).  Both states
  are shown reached from no text.  A state keeps the limit under every syllable table if and only
  if its letters, a closing separator and its chosen characters are at most 32
  (`WordLimit.FitsExactly`), and from such a state no Backspace or Delete passes it
  (`WordLimit.RemovalKeepsLimit`).
- In txt2mb the first length clause already applies to construct and prompt lines and counts
  their marker.  The clause for construct lines is one letter looser and that for prompt lines
  `iPYCodeLength - iCodeLength + 1` letters, so neither ever decides
  (`Mb2txt.ReadRecordsAreShaped`).
- mb2txt keeps its markers apart from the key letters only, not from the ignored characters,
  and stops printing at the first text of 180 bytes or more.  The round trip holds if and only
  if neither matters (`Mb2txt.CompileAndReload`; a line it does not bring back in
  `Mb2txt.IgnoredIsMistaken`, a table that has it in `Mb2txt.Ignoring`).
- The header count of `CreatePYBase` is too small as soon as one accepted spelling is not a
  standard syllable, such as the initial "b" (`BaseFile.HeaderCountsGroups`,
  `BaseFile.InitialIsNotCounted`); `LoadPY` then leaves groups unread and its numbers do not
  start at 1 (`Numbering.NumbersStartAtOne`).
- `CreatePYPhrase` means to reject abbreviated spellings, but a parse with an error has mode 0
  and passes: with full pinyin off, as the compiler runs, an abbreviated line is accepted if and
  only if it also has a bare final (`PhraseLists.AcceptedExactly`,
  `PhraseLists.AbbreviationAccepted`).
- The stand-alone reader of the phrase file takes stamps and hit counts as signed numbers
  (`PyTools.SignedReading`).
- The 32-bit stamp counter can run over.  The stamps then stay below it if and only if no other
  phrase carries one (`UserPhrases.AddKeepsOrder`, `UserPhrases.FirstRunOver`; an instance in
  `UserPhrases.CounterRunsOver`).
- `encode_stdin` writes a terminating zero behind its buffer if and only if some read is full,
  and `decode_stdin` reads past the end of its own if and only if a full read follows an odd
  number of letters (`PoCodec.EncodeStdin`, `PoCodec.DecodeStdin`).

## Model

| member | source | states |
|---|---|---|
| `PyMapTable.StandardTables` | src/im/pinyin/pyMapTable.c:24-239 | the two tables share their codes row by row, codes are pairwise distinct and no blank or wildcard, every spelling is a lower-case word, no final begins with h or g, every letter is itself a row, "eng" is a final |
| `PyMapTable.StandardSpellings` | src/im/pinyin/pyMapTable.c:24-239 | no spelling of the two tables is a gn misspelling |
| `PyMapTable.TwoLetterInitials` | src/im/pinyin/pyMapTable.c:142-239 | the initials MapPY can take off a spelling are those of one letter and exactly zh, sh, ng, ch |
| `Pyfa.GetMHIndexC2` | src/im/pinyin/PYFA.c:1196-1211 | finds the pair of finals two codes form, -1 when its option is off |
| `Pyfa.GetMHIndexS2` | src/im/pinyin/PYFA.c:1213-1229 | the same for initials, where the caller can force the option |
| `Pyfa.PairFound` | src/im/pinyin/PYFA.c:30-77 | two different codes stand in at most one pair, so the row found is k if and only if they form pair k and it is enabled |
| `Pyfa.ZcsCodes` | src/im/pinyin/PYFA.c:1231-1237 | the codes IsZ_C_S names are those of z, c and s |
| `Pyfa.JqxyCodes` | src/im/pinyin/PYFA.c:1239-1244 | the codes IsJ_Q_X_Y names are those of j, q, "en" and y |
| `Pyfa.FindPYFAIndex` | src/im/pinyin/pyParser.c:74-102 | returns the first usable row that equals the text or begins it |
| `Pyfa.FindsLongestEnabled` | src/im/pinyin/pyParser.c:74-102 | for every text and all options: exact mode succeeds exactly on enabled syllables; prefix mode returns the longest enabled syllable that begins the text and fails exactly when there is none |
| `PyParser.IsSyllabary` | src/im/pinyin/pyParser.c:40-55 | finds the first initial that equals or begins the text |
| `PyParser.IsConsonant` | src/im/pinyin/pyParser.c:57-72 | finds the first final that equals or begins the text |
| `PyParser.MapPY` | src/im/pinyin/pyParser.c:329-399 | gives a code if and only if the retyped spelling is an initial, a final, or a detachable initial with a final; refusals and reads outside the table are told apart |
| `PyParser.MapToPY` | src/im/pinyin/pyParser.c:405-442 | computes the spelling of a code, or fails |
| `PyParser.SpellingRoundTrip` | src/im/pinyin/pyParser.c:329-442 | decoding the system code of any spelling that has one gives it back, gn rewritten, if and only if it is not "eng" under its fuzzy option |
| `PyParser.CodesAreInjective` | src/im/pinyin/pyParser.c:329-399 | under all options, spellings with one system code are equal up to the gn rewriting |
| `PyParser.CodedSpellings` | src/im/pinyin/pyParser.c:329-399 | a spelling has a code if and only if it is an initial, a final, or a detachable initial with a final |
| `PyParser.WildcardInitials` | src/im/pinyin/pyParser.c:329-399 | of the spellings with a code exactly the finals that are no initials get the wildcard for their initial, "eng" under its option excepted |
| `PyParser.Cmp1Map` | src/im/pinyin/pyParser.c:449-479 | returns zero if and only if the letters are equal, or a wildcard counts, or an enabled pair joins them; otherwise the difference of the letters |
| `PyParser.Cmp1IsAgreement` | src/im/pinyin/pyParser.c:449-479 | the same of the comparison as a function, for every pair of letters and every use of the fuzzy pairs |
| `PyParser.Cmp2Map` | src/im/pinyin/pyParser.c:487-500 | returns zero if and only if both letters of the syllable agree, and otherwise the difference of the first two letters that do not |
| `PyParser.CmpMap` | src/im/pinyin/pyParser.c:508-533 | the number of leading letters that agree; zero if and only if both codes are fully matched; the callers' test holds if and only if the phrase code begins the typed code position by position; tells whether it reads behind the phrase code |
| `PyParser.ComparableExactly` | src/im/pinyin/pyParser.c:508-533 | the comparison leaves a phrase code if and only if the whole phrase agrees and the typed code goes on with a wildcard that counts |
| `PyParser.ComparisonLeavesPhrase` | src/im/pinyin/pyParser.c:508-533 | it does so for a phrase code of one syllable and the typed code of that syllable and a separator |
| `PyParser.StrictComparison` | src/im/pinyin/pyParser.c:508-533 | with all options off and no wildcard letters agree only when they are equal |
| `PyParser.GnIsNg` | src/im/pinyin/pyParser.c:339-342 | with the gn option on, a spelling that ends in gn has the code of the one that ends in ng, and its system code is decoded to that one |
| `PyParser.OthersAreKept` | src/im/pinyin/pyParser.c:339-399 | with the option off, and for every spelling that does not end in gn, it has a code if and only if it is itself an initial, a final or such a pair, and a system code is decoded to the spelling itself |
| `PyParser.CodeLetters` | src/im/pinyin/pyParser.c:352-398 | the two letters of a code: an initial's own and the mode's, the mode's and a final's own, or those of the initial and of the final a spelling is made of |
| `PyParser.FuzzyEngCode` | src/im/pinyin/pyParser.c:344-348 | under the option of the pair en and eng, "eng" has the code of the initial "en" and a wildcard |
| `FuzzyPairs.FinalPairs` | src/im/pinyin/PYFA.c:30-54 | the pairs of finals by name, with their codes |
| `FuzzyPairs.InitialPairs` | src/im/pinyin/PYFA.c:56-77 | the pairs of initials by name, with their codes |
| `FuzzyPairs.WildcardAgrees` | src/im/pinyin/pyParser.c:449-479 | a wildcard agrees with every letter if and only if full pinyin is not demanded or it is Shuangpin |
| `FuzzyPairs.InitialsInPlace` | src/im/pinyin/pyParser.c:508-533 | in even places two initials agree if and only if they are the same or a pair whose option is on or whose typed z, c or s has no final behind it |
| `FuzzyPairs.FinalsInPlace` | src/im/pinyin/pyParser.c:508-533 | in odd places two finals agree if and only if they are the same or a pair whose option is on, v and u excepted |
| `FuzzyPairs.SyllablesAgree` | src/im/pinyin/pyParser.c:487-500 | two codes of initial and final agree if and only if both parts do; v and u count behind j, q, "en" and y |
| `ParsePy.TakeSyllable` | src/im/pinyin/pyParser.c:170-231 | the resplit: the matched word, or its part without the last letter; then both that part and what follows are syllables, the second of two letters or more, and together they cover at least as much as the unsplit syllable and the one after it |
| `ParsePy.ParsePY` | src/im/pinyin/pyParser.c:104-322 | for every typed text the written pieces, codes and mode are those of the recursive parse, a trailing separator included |
| `ParsePy.LettersAreCut` | src/im/pinyin/pyParser.c:255-306 | a piece is cut off if and only if the next character is a letter, so the last branch is only for separators |
| `ParsePy.CutIsKnown` | src/im/pinyin/pyParser.c:164-306 | a piece cut off as a syllable is an enabled syllable, a bare final or initial a row of its table |
| `ParsePy.BareCut` | src/im/pinyin/pyParser.c:255-306 | without a syllable in front of the text the first final it begins with is taken, and only without a final the first initial |
| `ParsePy.ModeMeans` | src/im/pinyin/pyParser.c:314-321 | the value of the mode for every list of pieces, by the kinds in it |
| `ParsePy.ParseIsCoded` | src/im/pinyin/pyParser.c:159-322 | over a table whose syllables have codes every piece of every parse has one |
| `ParsePy.TrailingIsLast` | src/im/pinyin/pyParser.c:311-312 | a piece is a separator alone if and only if it is the last and the text ends in a separator |
| `ParsePy.WildcardIsTrailing` | src/im/pinyin/pyParser.c:159-322 | in an error-free parse over syllables with headed codes the wildcard stands for an initial exactly at a separator that ends the text |
| `ParsePy.UnfoldPieces` | src/im/pinyin/pyParser.c:162-309 | one round consumes at least one character and never ends inside a separator run |
| `ParsePy.PrintThenParse` | src/im/pinyin/pyParser.c:159-322 | printing the parse gives the text with separator runs collapsed, and parsing that gives the same pieces |
| `ParsePy.SuffixStable` | src/im/pinyin/pyParser.c:159-322 | the text of the pieces from k on parses into exactly those pieces |
| `Shuangpin.CheckXiaoheNonS` | src/im/pinyin/sp.c:216-248 | decides the vowel rule: two equal vowels, or a vowel and a final on the second key that begins with it |
| `Shuangpin.GetSPIndexJP` | src/im/pinyin/sp.c:346-378 | the first row from a start on with the given key |
| `Shuangpin.FindFinal` | src/im/pinyin/sp.c:264-287 | the candidate loop ends and returns the first final that makes a syllable with the lead |
| `Shuangpin.SP2QP` | src/im/pinyin/sp.c:206-310 | ends after at most one recheck with the full spelling of the keys |
| `Shuangpin.PassIsComplete` | src/im/pinyin/sp.c:250-290 | a pass gives one of the readings of the keys, and a syllable if and only if some reading is one |
| `Shuangpin.SyllableIsFound` | src/im/pinyin/sp.c:206-310 | a syllable is found if and only if the keys stand for one under the vowel rule, under the plain rule, or by their own letters |
| `Shuangpin.UnknownKeyClause` | src/im/pinyin/sp.c:300-309 | over the engine's table of initials the clause about an unknown first key never holds |
| `Shuangpin.PairIsRead` | src/im/pinyin/sp.c:250-290 | two keys are read as the initial of the first, nothing, or the letter itself, with the first final of the second that makes a syllable with it |
| `Shuangpin.VowelPairIsRead` | src/im/pinyin/sp.c:216-290 | under the vowel rule a vowel and a key that is no other vowel are read as the first final of that key that begins with the vowel and is a syllable |
| `Shuangpin.KeyIsRead` | src/im/pinyin/sp.c:250-262 | one key is read as the first initial it stands for, else as itself |
| `Shuangpin.ParseKeys` | src/im/pinyin/pyParser.c:116-158 | for every text the written pieces, codes and mode are those of the recursive parse |
| `Shuangpin.FirstPiece` | src/im/pinyin/pyParser.c:116-158 | a piece takes two keys if and only if they make a syllable; its code is that of what they are read as, or the key itself |
| `Shuangpin.SeparatorEndsPiece` | src/im/pinyin/pyParser.c:127-157 | a separator is never one of two keys taken together |
| `Shuangpin.PrintThenParseKeys` | src/im/pinyin/pyParser.c:116-158 | parsing the printed pieces gives the same pieces on every text, and what is printed is the collapsed text if and only if the text does not begin with two separators |
| `Editing.KeysKeepWellFormed` | src/im/pinyin/py.c:598-682 | Backspace, Left, Right and Delete keep the cursor inside a typed text |
| `Editing.InsertKeepsWellFormed` | src/im/pinyin/py.c:551-597 | so does an inserted key, the cut at the word limit included, whatever is chosen already |
| `Editing.InsertGoesBetween` | src/im/pinyin/py.c:551-596 | a key goes in between what is in front of the cursor and what is behind it; which separators are refused, and what is left of a text over the limit |
| `Editing.BackspaceTakes` | src/im/pinyin/py.c:610-626 | with nothing chosen Backspace takes the character in front of the cursor and a separator in front of that, nothing else |
| `Editing.BackspaceAtFront` | src/im/pinyin/py.c:626-632 | at the front of the text, with nothing chosen, it takes nothing |
| `Editing.DeleteTakes` | src/im/pinyin/py.c:634-648 | Delete takes the character at the cursor and a separator behind it, nothing else |
| `Editing.TakenBack` | src/im/pinyin/py.c:598-609 | with choices Backspace, and Left at the front, put the pinyin of the last one in front of the text, the cursor behind it or where it was in the text |
| `Editing.MovesByOne` | src/im/pinyin/py.c:655-682 | Left and Right move the cursor by one character as long as there is one |
| `Editing.RoomLeft` | src/im/pinyin/py.c:587-596 | the room is what the chosen characters leave of 32 |
| `Editing.PickKeepsWellFormed` | src/im/pinyin/py.c:1279-1297 | a pick leaves open text whose parse is exactly the pieces not chosen |
| `Editing.BackspaceUndoesPick` | src/im/pinyin/py.c:598-609 | Backspace after a pick restores the pieces and the collapsed find string with the cursor at its end |
| `Editing.BrowsingKeepsParse` | src/im/pinyin/py.c:598-682 | after any run of picks, steps back and cursor moves the open text parses into the pieces not chosen, and the raw input is the typed text up to collapsed separators |
| `WordLimit.CutKeepsLimit` | src/im/pinyin/py.c:898-910 | over a table with no word before a longer word it begins, the text of the first k pieces of any typed text parses into at most k pieces, whatever lookahead makes of it |
| `WordLimit.InsertKeepsLimit` | src/im/pinyin/py.c:551-597 | an inserted key leaves at most as many pieces as there is room for, or changes nothing; so it keeps the limit |
| `WordLimit.PickKeepsLimit` | src/im/pinyin/py.c:1279-1297 | a pick keeps the sum of chosen characters and open pieces |
| `WordLimit.RunKeepsLimit` | src/im/pinyin/py.c:551-682 | every run of typing, picking, moving, and taking back choices made since the text was last changed keeps the limit |
| `WordLimit.PiecesByLetters` | src/im/pinyin/pyParser.c:159-322 | a text has at most as many pieces as letters, and one more when a separator ends it |
| `WordLimit.FitsExactly` | src/im/pinyin/py.c:587-596 | a state keeps the limit under every syllable table if and only if letters, a closing separator and chosen characters are at most 32 |
| `WordLimit.RemovalKeepsLimit` | src/im/pinyin/py.c:610-648 | from such a state Backspace and Delete lead to such a state, so they keep the limit |
| `WordLimit.TakeBackKeepsLimit` | src/im/pinyin/py.c:598-609 | taking a choice back keeps the limit where its text and the open text together are such |
| `LimitPassed.RemovalPasses` | src/im/pinyin/py.c:610-648 | over any table where "zhong" is a syllable, "zhon" is none and none begins "zhng": a state reached by keys with 32 pieces from which Backspace, or Delete, leaves more; a pick of 32 then leaves no room beside open text, and the next letter clears that text |
| `LimitPassed.TakeBackPasses` | src/im/pinyin/py.c:598-648 | over any table with the syllables of "e'ruan", "er" and "an": a state reached by keys from which Delete and then Backspace, taking a choice back, leave 33 pieces |
| `LimitPassed.FiveIsSuch` | src/im/pinyin/PYFA.c:131-1171 | a table of five syllables of the engine meets what both demand |
| `PinyinState.FcitxPinyinState.DoInsertKey` | src/im/pinyin/py.c:551-597 | does what the key means on values, and keeps the buffer, the stored parse and the raw input consistent |
| `PinyinState.FcitxPinyinState.OpenGap` | src/im/pinyin/py.c:579-584 | the shifting loop puts the key at the cursor and moves the tail up by one |
| `PinyinState.FcitxPinyinState.LimitText` | src/im/pinyin/py.c:587-596 | cuts the text behind the pieces there is room for, all of it when there is none, and draws the cursor back |
| `PinyinState.FcitxPinyinState.DoBackspace` | src/im/pinyin/py.c:598-633 | takes the last choice back or removes a letter with the separator before it, keeping the state valid |
| `PinyinState.FcitxPinyinState.DoDelete` | src/im/pinyin/py.c:634-648 | before the end, removes a letter with the separator behind it, keeping the state valid |
| `PinyinState.FcitxPinyinState.DoLeft` | src/im/pinyin/py.c:662-682 | moves left or, at the start, takes the last choice back, keeping the state valid |
| `PinyinState.FcitxPinyinState.DoRight` | src/im/pinyin/py.c:655-661 | moves right, keeping the state valid |
| `PinyinState.FcitxPinyinState.DoHome` | src/im/pinyin/py.c:649-651 | puts the cursor at the start |
| `PinyinState.FcitxPinyinState.DoEnd` | src/im/pinyin/py.c:652-654 | puts the cursor at the end |
| `PinyinState.FcitxPinyinState.PickCandidate` | src/im/pinyin/py.c:1279-1297 | moves the first pieces to the choices and keeps the rest as open text, keeping the state valid |
| `PinyinState.FcitxPinyinState.UpdateCodeInput` | src/im/pinyin/py.c:885-896 | rebuilds the raw input from the choices and the find string |
| `PinyinState.FcitxPinyinState.UpdateFindString` | src/im/pinyin/py.c:898-910 | keeps the first pieces and clamps the cursor |
| `PinyinState.PickKeepsLength` | src/im/pinyin/py.c:1279-1297 | a pick never makes the buffers longer |
| `AutoSentence.BestPhrase` | src/im/pinyin/py.c:1044-1128 | over all user and system phrases that match, returns one no other beats by (code length, hits, stamp), the earliest of the equal ones; reports a phrase for the whole input, or a comparison that leaves a phrase code, the latter if and only if one does so before a phrase for the whole input comes |
| `AutoSentence.BestBase` | src/im/pinyin/py.c:1138-1153 | the first character with the most hits among those that agree with the syllable |
| `AutoSentence.CreateAuto` | src/im/pinyin/py.c:1009-1163 | ends; the sentence is empty or has exactly one character and two code letters for each syllable and is built from best steps; it is empty when a phrase covers the whole input or there is one syllable, and otherwise only where the steps taken end before a syllable nothing agrees with; reports that a comparison left a phrase code if and only if one does at the position the steps taken have come to, so none does where a step was taken |
| `AutoSentence.OverrunsExactly` | src/im/pinyin/py.c:1044-1128 | a comparison of the builder leaves a phrase code if and only if the phrase matches, wildcards count, and the typed syllable behind it has one for its initial |
| `AutoSentence.ParsedOverruns` | src/im/pinyin/py.c:912-1128 | after an error-free parse that is: the phrase matches all syllables up to a separator that ends the text, and full pinyin is not demanded |
| `AutoSentence.SentenceFor` | src/im/pinyin/py.c:945-985 | parse and sentence together: no comparison leaves a phrase code unless a separator ends the text, and a sentence has one character for each piece |
| `AutoSentence.StepAgrees` | src/im/pinyin/py.c:1044-1160 | the codes of a chosen step agree with the typed syllables one by one |
| `AutoSentence.BuiltAgrees` | src/im/pinyin/py.c:1009-1163 | so do the codes of the whole sentence |
| `AutoSentence.BuiltReads` | src/im/pinyin/py.c:1122-1163 | each step stands where the ones before it end: the character of its base, whose group agrees with the syllable typed there, then the characters of its phrase; in the codes the same |
| `AutoSentence.BestPhraseWins` | src/im/pinyin/py.c:1044-1120 | against every matching phrase: the longest code, then the most hits, then the latest stamp, then the first, user phrases before system phrases |
| `AutoSentence.BestCharacterWins` | src/im/pinyin/py.c:1130-1152 | against every agreeing character whose hit count is no negative int: the most hits, then the first |
| `AutoSentence.StrictCandidate` | src/im/pinyin/py.c:1050-1056 | with the options off and no wildcard a phrase matches if and only if its codes are those typed, syllable by syllable |
| `UserPhrases.AddKeepsOrder` | src/im/pinyin/py.c:1540-1612 | adding keeps a list free of repeats and of system phrases and every stamp at or below the counter if and only if the counter does not run over, or no stamp is drawn, or no other phrase carries one |
| `UserPhrases.AddChanges` | src/im/pinyin/py.c:1549-1612 | an addition changes nothing, or the hit and the stamp of the one phrase that is there already, or puts one phrase in front of the first its code compares above; hit counts and counter go up by one and run over at 32 bits |
| `UserPhrases.DeleteUndoesAdd` | src/im/pinyin/py.c:1614-1637 | deleting an added phrase gives the list from before |
| `UserPhrases.StepKeepsOrder` | src/im/pinyin/py.c:1540-1637 | the same of one operation and the lists of all characters |
| `UserPhrases.DeleteKeepsOrder` | src/im/pinyin/py.c:1614-1637 | so does deleting |
| `UserPhrases.CompareIsStrcmp` | src/im/pinyin/py.c:1596-1602 | with the options off the comparison that places a phrase is strcmp |
| `UserPhrases.RunKeepsOrder` | src/im/pinyin/py.c:1540-1637 | after every run of additions and deletions on all lists that never draws a stamp from a counter at its largest value: no repeats, no system phrase among the user phrases, stamps at most the counter, and stamps issued in the run pairwise distinct |
| `UserPhrases.ShortRunsStayBelow` | src/im/pinyin/py.c:1540-1637 | a run no longer than what is left of the counter is such a run |
| `UserPhrases.FirstRunOver` | src/im/pinyin/py.c:1540-1637 | the first operation that makes the counter run over keeps all lists in order if and only if no other phrase carries a stamp |
| `UserPhrases.RunKeepsDescending` | src/im/pinyin/py.c:1596-1605 | with the options off every list stays in non-increasing code order over every run |
| `UserPhrases.CounterRunsOver` | src/im/pinyin/py.c:1592 | a counter at its largest value runs over and a stamp above it stays behind |
| `PhraseRing.Ring.Find` | src/im/pinyin/py.c:1562-1572 | the walk counted by iUserPhrase finds a phrase if and only if the ring has it |
| `PhraseRing.Ring.Insert` | src/im/pinyin/py.c:1594-1606 | links the phrase in front of the first one its code compares above; the ring closes after exactly iUserPhrase phrases |
| `PhraseRing.Ring.Delete` | src/im/pinyin/py.c:1614-1632 | unlinks exactly the given phrase |
| `PhraseRing.Ring.AddUserPhrase` | src/im/pinyin/py.c:1540-1612 | ring, system phrases, counter and result change as the value-level addition says |
| `PhraseFile.SavePYUserPhrase` | src/im/pinyin/py.c:1677-1703 | writes one entry for each character that has user phrases, in dictionary order |
| `PhraseFile.ReadPhrase` | src/im/pinyin/py.c:295-325 | reads back exactly the phrase that was written and stops where it ends |
| `PhraseFile.PhraseFields` | src/im/pinyin/py.c:1677-1703 | where a phrase of the file has its lengths, code, text, stamp and hit count |
| `PhraseFile.HeaderFields` | src/im/pinyin/py.c:1677-1703 | where an entry of the file has its group, character and number of phrases |
| `PhraseFile.LoadUserPhrases` | src/im/pinyin/py.c:263-329 | fills the list of every saved character and raises the counter to the stamps met |
| `PhraseFile.SaveThenLoad` | src/im/pinyin/py.c:263-329 | filling an emptied dictionary with its own entries gives every list back, order, stamps and hits included, when characters are distinct inside a group; the counter ends no lower than any stamp |
| `PhraseFile.SavedIsKnown` | src/im/pinyin/py.c:517-529 | every saved entry is found again in the emptied dictionary |
| `PhraseFile.SaveAndLoad` | src/im/pinyin/py.c:1677-1703 | saving to bytes and loading them is the identity on the whole dictionary |
| `PyTools.CountEntries` | tools/cli/pyTools.c:40-65 | the first pass counts the saved entries |
| `PyTools.LoadPYMB` | tools/cli/pyTools.c:29-112 | the two passes recover the saved records in order |
| `PyTools.SignedReading` | tools/cli/pyTools.c:95-100 | a stamp or hit count is read as saved if and only if its sign bit is clear |
| `DictMerge.MarkDuplicates` | src/im/pinyin/py.c:339-358 | marks exactly the phrases already there and counts the others |
| `DictMerge.MergeSystem` | src/im/pinyin/py.c:331-374 | the old phrases followed by the kept ones, the write position ending exactly at the new count |
| `DictMerge.MergeHolds` | src/im/pinyin/py.c:331-374 | the old phrases stay in front, what follows are exactly the phrases not among the old ones, and every phrase of either dictionary is there |
| `DictMerge.MergeByCodeAndText` | src/im/pinyin/py.c:331-375 | a phrase is added if and only if no old one has its code and its text; without stripping all are |
| `DictMerge.MergeIsIdempotent` | src/im/pinyin/py.c:331-374 | merging the same dictionary again changes nothing |
| `RecordRing.NoneBehindHint` | tools/cli/txt2mb.c:469-484 | the hint being the last of its run, a backward search that finds nothing has missed nothing |
| `RecordRing.NoneOutside` | tools/cli/txt2mb.c:485-495 | the same for the forward search |
| `RecordRing.Ring.Find` | tools/cli/txt2mb.c:466-495 | a duplicate is reported if and only if the ring holds the record; otherwise the place found is behind everything not above it |
| `RecordRing.Ring.InsertBefore` | tools/cli/txt2mb.c:497-522 | links a new record in, next and prev consistent all round |
| `RecordRing.LinkNext` | tools/cli/txt2mb.c:513-515 | the two links forwards close the chain through the new record |
| `RecordRing.LinkPrev` | tools/cli/txt2mb.c:517-519 | the two links backwards close the chain through the new record |
| `RecordRing.Ring.Add` | tools/cli/txt2mb.c:466-527 | the ring stays linked, sorted, free of duplicates and with its hint at the end of a run; a new record goes behind its equals |
| `RecordRing.InsertedIsSorted` | tools/cli/txt2mb.c:497-522 | such an insertion keeps the list sorted and free of duplicates |
| `Order.LeExactly` | tools/cli/txt2mb.c:464-515 | the order of codes: at the first difference a text has ended or has the smaller character |
| `Keyed.DedupKeepsFirst` | tools/cli/txt2mb.c:464-515 | of equal records the first one read stays |
| `Txt2mb.ScanLine` | tools/cli/txt2mb.c:408-464 | blank, invalid, too long, or a record: what each data line means |
| `Txt2mb.LineFields` | tools/cli/txt2mb.c:410-426 | a line is its code and its text, with any blanks, tabs, line ends, vertical tabs and form feeds in front, between and behind |
| `Txt2mb.LineWithoutText` | tools/cli/txt2mb.c:410-420 | a line without a text behind its code is no record |
| `Txt2mb.FieldsMean` | tools/cli/txt2mb.c:428-464 | which first characters end the run, which codes and texts are left out, and the kind and code of the record, marker by marker |
| `Txt2mb.LoadLines` | tools/cli/txt2mb.c:408-531 | for every sequence of lines the run ends at an invalid one, else the ring is the stable sort by code of the records without later duplicates |
| `Keyed.StableSortUnique` | tools/cli/txt2mb.c:408-531 | a stable sort of a list is unique, so the contracts above and below fix the list |
| `Binary.U32RoundTrip` | src/lib/fcitx-utils/utils.c:828-847 | a 32-bit number written is the number read |
| `Binary.LowestFirst` | src/lib/fcitx-utils/utils.c:839-845 | the lowest byte is the first |
| `Mb2txt.WriteRecords` | tools/cli/txt2mb.c:578-593 | writes the number of records and then each one, walking the ring once round |
| `Mb2txt.RecordLayout` | tools/cli/txt2mb.c:577-588 | where a record of the file has its code, the length of its text, the text and the number of its kind |
| `Mb2txt.GuessIsFirst` | tools/cli/mb2txt.c:83-97 | the preferred letter where it is free, else the smallest free visible one |
| `Mb2txt.PreferredMarkers` | tools/cli/mb2txt.c:170-185 | the letters preferred are @, & and ^ |
| `Mb2txt.GuessIsFree` | tools/cli/mb2txt.c:83-97 | a guessed character is visible and not among the forbidden ones, and one is found when one is free |
| `Mb2txt.ChooseMarkers` | tools/cli/mb2txt.c:166-188 | the three markers are visible, pairwise distinct and no key letters when all are found, and all are found if and only if three visible characters are free |
| `Mb2txt.MarkersAreDistinct` | tools/cli/mb2txt.c:166-188 | the same of the guesses as a function of the key letters |
| `Mb2txt.ReadRecord` | tools/cli/mb2txt.c:239-248 | reads back exactly the record that was written |
| `Mb2txt.PrintRecords` | tools/cli/mb2txt.c:230-273 | prints one line for each record up to the first text that is too long, or gives up for want of a marker |
| `Mb2txt.LineForms` | tools/cli/mb2txt.c:240-268 | a printed line is the marker of its kind, the code, a blank and the text |
| `Mb2txt.PrintingStops` | tools/cli/mb2txt.c:235-238 | printing stops at the first text of 180 bytes or more |
| `Mb2txt.ReadRecordsAreShaped` | tools/cli/txt2mb.c:408-464 | the shape and the length limits of every record a line can give |
| `Mb2txt.LineIsReloaded` | tools/cli/mb2txt.c:249-269 | a printed line is read back as its record if no normal code begins with a marker, and otherwise not as a normal record |
| `Mb2txt.ReloadedTable` | tools/cli/mb2txt.c:239-272 | loading the printed lines gives the printed list exactly when no normal record begins with a marker, and loses one otherwise |
| `Mb2txt.KeyCodesAreUnmistakable` | tools/cli/mb2txt.c:175-196 | codes that begin with a key letter never begin with a marker |
| `Mb2txt.CompileAndReload` | tools/cli/mb2txt.c:230-273 | text to ring to binary to text to ring reproduces the list if and only if every text is short enough and no normal code begins with a marker |
| `Mb2txt.IgnoredIsMistaken` | tools/cli/mb2txt.c:175-196 | a table that ignores "@" and has it for no marker reads "@ x" as a normal record, which the way round does not reproduce |
| `BaseFile.InsertSorted` | tools/cli/createPYMB.c:342-356 | the new node goes behind its equals: appending, as far as each code is concerned, and the list stays sorted |
| `BaseFile.ReadLines` | tools/cli/createPYMB.c:320-359 | the list is the stable sort by code of the accepted lines, and a row is tallied if and only if it is standard and some accepted line spells it |
| `BaseFile.FiledExactly` | tools/cli/createPYMB.c:310-357 | the list has an item for each line with a code: its two letters and the first character of its text |
| `BaseFile.WriteGroups` | tools/cli/createPYMB.c:372-413 | flattening the groups gives the list back, no group is empty and codes increase strictly |
| `BaseFile.CreatePYBase` | tools/cli/createPYMB.c:297-418 | header, groups and entry count together |
| `BaseFile.GroupsAreSpellings` | tools/cli/createPYMB.c:320-413 | there are as many groups as different accepted spellings |
| `BaseFile.HeaderCountsGroups` | tools/cli/createPYMB.c:360-367 | the header counts the groups if and only if every accepted spelling is a standard syllable, and is too small otherwise |
| `BaseFile.InitialIsNotCounted` | tools/cli/createPYMB.c:360-367 | one line spelled "b" makes a group the header does not count, over every table without a syllable "b" |
| `Numbering.NumberColumns` | tools/cli/createPYMB.c:129-145 | the loops end and reach every character of every group once, column by column, giving the numbers counted down |
| `Numbering.NumbersAreBijective` | tools/cli/createPYMB.c:129-145 | the numbers given are exactly the top ones, each to one character, and fall column by column: first characters of all groups first, in the order of the groups |
| `Numbering.NumberAll` | tools/cli/createPYMB.c:129-145 | the numbering of all groups is a bijection onto the numbers counted down |
| `Numbering.NumbersStartAtOne` | tools/cli/createPYMB.c:95-145 | after CreatePYBase the numbers start at 1 if and only if every accepted spelling is a standard syllable |
| `PhraseLists.ReadLine` | tools/cli/createPYMB.c:189-207 | a line is accepted if and only if its text has three bytes, its parse one piece for each character, and its mode no abbreviation bit; its code is that of all pieces, which all have one |
| `PhraseLists.LineCodes` | tools/cli/createPYMB.c:209-215 | the code of a line has the two letters of each piece's own code, in order |
| `PhraseLists.AcceptedExactly` | tools/cli/createPYMB.c:191-205 | a line is accepted if and only if its text has three bytes or more and one character for each piece, and no piece is a bare initial, or some piece is a bare final, or full pinyin is demanded |
| `PhraseLists.AbbreviationAccepted` | tools/cli/createPYMB.c:202-206 | over every table where no syllable begins "b'i" or is "i" the abbreviated spelling "b'i" is accepted for a text of two characters |
| `PhraseLists.InsertInto` | tools/cli/createPYMB.c:215-250 | a phrase is inserted if and only if the list does not hold it, behind its equals, and the list stays sorted |
| `PhraseLists.AddPhrase` | tools/cli/createPYMB.c:209-252 | every matching character gets the phrase, the others stay as they are |
| `PhraseLists.CreatePYPhrase` | tools/cli/createPYMB.c:171-260 | every list is the stable sort by code of the first occurrences of what was asked for its character, each with its number in one insertion log |
| `PhraseLists.ListedExactly` | tools/cli/createPYMB.c:186-252 | the list of a character holds a phrase if and only if some accepted line begins with the character and its group's code and goes on with the phrase |
| `PhraseLists.ListInOrder` | tools/cli/createPYMB.c:215-250 | no phrase stands twice in a list, codes do not fall, and among equal codes written numbers fall |
| `PhraseLists.NumberedEntry` | tools/cli/createPYMB.c:264-287 | the number v is on entry n - 1 - v of the insertion log |
| `PhraseLists.NumbersArePermutation` | tools/cli/createPYMB.c:264-287 | the numbers are exactly 0 to n - 1, each on one phrase |
| `PhraseLists.WritePhrases` | tools/cli/createPYMB.c:264-292 | one record for each character that has phrases, with its group, in order |
| `PhraseLists.RecordOf` | tools/cli/createPYMB.c:264-292 | every character that has phrases has its record, with all of them |
| `PhraseLists.WrittenNumbers` | tools/cli/createPYMB.c:264-292 | the records of the file hold exactly the numbers 0 to n - 1 |
| `PoCodec.EncodeString` | tools/dev/fcitx-po-parser.c:84-101 | fills the front of a buffer with two letters for each byte and a terminating zero, which falls behind the buffer if and only if the letters fill it |
| `PoCodec.EncodedAt` | tools/dev/fcitx-po-parser.c:84-101 | each byte is written as two letters, a for 0 and so on, the low half first |
| `PoCodec.LettersExactly` | tools/dev/fcitx-po-parser.c:206-210 | the letters are those from a to p |
| `PoCodec.CheckBuff` | tools/dev/fcitx-po-parser.c:213-226 | the compaction in place leaves exactly the letters in order, and touches nothing behind the data |
| `PoCodec.InterspersedIsFiltered` | tools/dev/fcitx-po-parser.c:206-226 | letters stand interspersed in a text if and only if filtering the text gives them |
| `PoCodec.EncodeStdin` | tools/dev/fcitx-po-parser.c:194-204 | block by block gives the encoding of the whole, however it is split; a zero is written behind the buffer if and only if some block is full |
| `PoCodec.DecodeStdin` | tools/dev/fcitx-po-parser.c:235-255 | the output is the decoding of the letters of the whole input, however it is split: the carried letter is neither lost nor repeated; a read does not fit the buffer if and only if it is full and follows an odd number of letters |
| `PoCodec.DecodeOfEncode` | tools/dev/fcitx-po-parser.c:84-233 | decoding undoes encoding |
| `PoCodec.EncodeDecode` | tools/dev/fcitx-po-parser.c:84-233 | encoding undoes decoding on whole pairs of letters |
| `PoCodec.RoundTrip` | tools/dev/fcitx-po-parser.c:194-255 | what the encoder writes for any reads, interspersed with any bytes that are no letters and split into any other reads, is decoded to the bytes of those reads; each half stays inside its buffers if and only if no read of it is full, or overruns |

## Left out

- D-Bus, GTK, Qt, XIM and portal frontends, the signal handler, the candidate window, messages,
  hot key tables, remind mode, frequency-word lists, the index file and autosaving.
- File discovery, temporary files, renaming and error messages: files are byte strings or
  sequences of items, kept in their reading and writing order.
- The rows of the syllable table and of the key schemes, and the split frequency data: they are
  parameters; that the rows of the source meet the demands above is not proved here.
- Fixed buffer sizes and allocation: buffers are arrays with enough room or sequences.
- PinyinState.FcitxPinyinState.Reparse: ParsePY on an empty find string, which reads outside the
  string in the source, is not called; the stored parse is then unspecified.
- PinyinState.FcitxPinyinState.DoInsertKey: requires that the buffer has room; the quick phrase key and
  the keys of Shuangpin are not modelled.
- PinyinState.FcitxPinyinState.DoDelete: not with the cursor at the end, where the source goes on
  behind the terminating zero.
- PinyinState.FcitxPinyinState.LimitText: that the cut text parses into the same first pieces is
  not claimed, since lookahead can change them; that it never parses into more is
  WordLimit.CutKeepsLimit.
- The position of the cursor on the display (CalculateCursorPosition).
- PyParser.MapPY: what stays in the output buffer of a refused spelling is not modelled; the
  result is `Rejected`, or `OutOfTable` where the source reads outside a table.
- UserPhrases.RunKeepsOrder: runs are over values; one heap ring at a time is tied to them by
  PhraseRing, and that the rings of different characters share no node is not modelled.
- PhraseRing.Ring.Delete: only for a phrase of the ring; PYAddUserPhrase only for characters of
  the dictionary.
- PhraseFile.LoadUserPhrases: lists are values here, and only files that were saved are loaded;
  truncated or foreign files are not modelled.
- DictMerge.MergeSystem: the phrases of one character; reading them from the file is left out.
- BaseFile.InsertSorted: the doubly linked list is a sequence, so its links are not modelled; the
  same kind of list is modelled on the heap in RecordRing.
- BaseFile.CreatePYBase: an input without an accepted line, for which the source reads an
  unset head node, is excluded, and so are spellings MapPY reads outside its table for.
- PhraseLists.InsertInto: the singly linked list is a sequence.
- PhraseLists.AddPhrase: the loop over groups and the loop inside it are one loop over all characters;
  the byte length of a text is a parameter.
- Txt2mb.LoadLines: the header, the construct rules and the index file; mb2txt's header lines.
- AutoSentence.CreateAuto: what happens after a comparison has left a phrase code is not modelled; the
  builder stops there.
- PoCodec.EncodeStdin: what a byte written behind a buffer overwrites is not modelled, here and in
  PoCodec.DecodeStdin, whose array has the one place more that such a read needs.
- Mb2txt.CompileAndReload: requires that mb2txt finds its three markers; the byte length of a code
  field and of the file are within the format.
- Shuangpin.ParseKeys: the contents of the output buffer after a refused last key are not modelled.
- The gettext half of fcitx-po-parser, the table engine, the key tables of keyboard.c, scanner
  code generation and scel2org.
