# Idea-App note pipeline in Dafny

This project models the two pieces of Idea-App that hold logic:

- **The note synthesizer** (`src/services/ai/ideaEngine.ts`). It turns a voice transcript into a note.
  - The title is the leading words of the first sentence.
  - There is one paragraph block per sentence.
  - Up to five tags are picked by word frequency.
- **The local note store** (`src/services/db/localDb.ts`). It keeps the whole note collection under one storage key.
  - A save is an upsert: replace in place, or put the note in front.
  - A stored value that does not parse reads as no notes.

Modules:

- `Types` (`types.dfy`): the `Note` and `Block` records of `src/packages/types.ts`.
- `Text` (`text.dfy`): the JavaScript string built-ins the synthesizer uses.
  - The `\s` and `\w` classes and `trim`.
  - `split(/\s+/)` and `join(' ')`.
  - `slice` and `toLowerCase`.
  - The decimal rendering of a number.
- `IdeaEngine` (`idea_engine.dfy`): `generateTitle`, `generateBlocks` and `generateTags`, and `postProcessJournalTranscript`, which assembles the note.
  - Title and blocks are pure expression chains in the source, so they are functions and lemmas here.
  - The assembly is a method, because it calls the method `GenerateTags`.
  - The tag counter is a loop that updates a table, so `GenerateTags` is a method. It is proved equal to the specification function `Tags`.
- `LocalDb` (`local_db.dfy`): the store.
  - The storage key is the `slot` field of class `NoteStore`. It is `Missing`, `Corrupt` or `Holds(notes)`.
  - `saveNote`, `getAllNotes`, `getNoteById` and `clearAllNotes` are methods of `NoteStore`.
  - The lookup is a linear scan, `FindIndex`, proved against `IndexOfId`.
- `TagCountAsWritten` (`tag_count_as_written.dfy`): the tag counter as written, for the finding below.

Behaviour of the code that the model keeps:

- **Tie order.** `Array.prototype.sort` has been stable since ECMAScript 2019, and `Object.keys` lists string keys in insertion order, except integer-like keys, which it lists first in numeric order. A tag word is letters only, so it is never integer-like. So tags of equal count come in the order in which they first occur.
- **Title word count.** A first segment that starts with whitespace makes `split(/\s+/)` yield an empty first piece. That piece takes one of the 8 slots, so such a title has at most 7 words (`TitleWordLimit`).
- **Tag words.** `\b[a-z]{4,}\b` matches a whole `\w` run only. A run of letters glued to a digit or `_`, such as `abcd1`, is not a tag word.
- **Blank transcripts.** An empty transcript gives no blocks. A non-empty transcript of whitespace only gives exactly one block with empty content, because the empty-piece filter runs before `trim`.

## Model

| member | source | states |
|---|---|---|
| Text.SplitOnSpacesShape | src/services/ai/ideaEngine.ts:29 | `split(/\s+/)` yields the whitespace-free words of the text, with an empty piece in front exactly when it starts with whitespace and one at the end when it ends with whitespace or is empty |
| Text.Trim | src/services/ai/ideaEngine.ts:30 | `trim()` leaves no whitespace at either end, and gives the empty string exactly when the text is all whitespace |
| Text.TrimAround | src/services/ai/ideaEngine.ts:36 | `trim()` removes the whitespace around a trimmed core and nothing else |
| Text.JoinWordsRoundTrip | src/services/ai/ideaEngine.ts:29 | words joined with single spaces are trimmed, empty only for no words, and split back into exactly the same words |
| Text.JoinSpacedIsSingleSpaced | src/services/ai/ideaEngine.ts:29 | in words joined with `' '`, every whitespace character is a single space between two non-space characters |
| Text.Take | src/services/ai/ideaEngine.ts:29 | `slice(0, n)` is the prefix of length `n`, or the whole sequence when it is shorter |
| Text.Slice | src/services/ai/ideaEngine.ts:5 | `slice(from, to)` within bounds is the substring between them |
| Text.ToLower | src/services/ai/ideaEngine.ts:41 | `toLowerCase()` keeps the length, maps each character on its own and leaves no ASCII capital |
| Text.LowerChar | src/services/ai/ideaEngine.ts:41 | a capital becomes its lower-case letter, the Kelvin sign becomes `k`, and other characters are kept |
| Text.WordCharRuns | src/services/ai/ideaEngine.ts:41 | the stretches between `\b` boundaries consist of `\w` characters only, and every maximal stretch of `\w` characters is one of them |
| Text.RunsAreMaximalStretches | src/services/ai/ideaEngine.ts:41 | the runs are exactly the maximal stretches of selected characters, left to right at increasing positions, each once, and every maximal stretch starts where one of the runs does |
| Text.StretchEndUnique | src/services/ai/ideaEngine.ts:41 | a maximal stretch is determined by where it starts |
| Text.RunsCoverStretches | src/services/ai/ideaEngine.ts:41 | every maximal stretch of selected characters is one of the runs |
| Text.SplitOnSpaces | src/services/ai/ideaEngine.ts:29 | `split(/\s+/)` yields at least one piece, and no piece holds whitespace |
| Text.JoinSpaced | src/services/ai/ideaEngine.ts:29 | `join(' ')` starts with the first word and puts a space right after it when more words follow |
| Text.Decimal | src/services/ai/ideaEngine.ts:36 | the number in `` `b_${i}_${Date.now()}` `` renders as a non-empty string of digits with no leading zero |
| Text.DecimalRoundTrip | src/services/ai/ideaEngine.ts:36 | reading back the digits a number renders to gives the number |
| Text.DecimalInjective | src/services/ai/ideaEngine.ts:36 | distinct numbers render to distinct digit strings |
| IdeaEngine.FirstStop | src/services/ai/ideaEngine.ts:28 | the cut position is within the text, and a `.`, `!` or `?` followed by whitespace starts there unless it is the text length |
| IdeaEngine.FirstStopIsFirst | src/services/ai/ideaEngine.ts:28 | no terminator followed by whitespace starts before the cut position, and the cut is at the text length only when the text holds none |
| IdeaEngine.FirstSegment | src/services/ai/ideaEngine.ts:28 | `split(/[\.\!\?]\s/)[0]` is a prefix of the text that holds no terminator-plus-whitespace, and is cut only where one starts |
| IdeaEngine.GenerateTitle | src/services/ai/ideaEngine.ts:27-31 | the title neither begins nor ends with whitespace |
| IdeaEngine.TitleWordLimit | src/services/ai/ideaEngine.ts:29 | the title keeps at most 7 words when the first segment starts with whitespace, and at most 8 otherwise; the limit is 7 exactly in the first case |
| IdeaEngine.TitleIsLeadingWords | src/services/ai/ideaEngine.ts:27-31 | the title is the leading words of the first segment, up to the word limit, joined by single spaces |
| IdeaEngine.TitleShape | src/services/ai/ideaEngine.ts:29-30 | the title is trimmed, has at most 8 words, its words are a prefix of the first segment's words, and its whitespace is single spaces between words |
| IdeaEngine.TitleHasNoStop | src/services/ai/ideaEngine.ts:28 | the title never holds `.`, `!` or `?` followed by whitespace |
| IdeaEngine.SplitSentences | src/services/ai/ideaEngine.ts:35 | `split(/(?<=[\.\!\?])\s+/)` yields one piece more than the whitespace runs it removes |
| IdeaEngine.SplitSentencesRejoin | src/services/ai/ideaEngine.ts:35 | the first piece is a prefix of the text, and the pieces interleaved with the removed runs give back the text |
| IdeaEngine.SentenceGapsAreSpace | src/services/ai/ideaEngine.ts:35 | each removed gap is a non-empty run of whitespace |
| IdeaEngine.SentencePiecesEndInTerminator | src/services/ai/ideaEngine.ts:35 | every piece but the last is non-empty and ends in `.`, `!` or `?` |
| IdeaEngine.SentencePiecesHaveNoStop | src/services/ai/ideaEngine.ts:35 | no piece holds a terminator followed by whitespace |
| IdeaEngine.SentencePiecesStartAfterSpace | src/services/ai/ideaEngine.ts:35 | whitespace runs are removed whole: no piece but the first starts with whitespace |
| IdeaEngine.NonEmpty | src/services/ai/ideaEngine.ts:35 | `filter(Boolean)` keeps exactly the non-empty pieces: every one it returns is non-empty, and every non-empty piece is among them |
| IdeaEngine.NonEmptyDropsOnlyLast | src/services/ai/ideaEngine.ts:35 | when only the last piece can be empty, `filter(Boolean)` drops at most that piece |
| IdeaEngine.BlockId | src/services/ai/ideaEngine.ts:36 | the id is `b_`, then digits that read back as the index, then `_`, then digits that read back as the clock reading |
| IdeaEngine.GenerateBlocks | src/services/ai/ideaEngine.ts:34-37 | there is one block per non-empty sentence piece, and block `i` has id `BlockId(i, clock(i))`, `order` `i` and the `i`-th non-empty piece trimmed as content |
| IdeaEngine.BlockIdInjective | src/services/ai/ideaEngine.ts:36 | ids `b_<i>_<t>` with different indexes differ, whatever the clock reads |
| IdeaEngine.BlocksNumbered | src/services/ai/ideaEngine.ts:36 | every block is a paragraph with no metadata, trimmed content and `order` equal to its index, and block ids are pairwise distinct |
| IdeaEngine.BlocksFollowSentences | src/services/ai/ideaEngine.ts:34-37 | there is one block per sentence piece, less an empty last piece, and each block holds its piece trimmed |
| IdeaEngine.NoBlocksForEmptyTranscript | src/services/ai/ideaEngine.ts:35 | an empty transcript yields no blocks |
| IdeaEngine.OneEmptyBlockForBlankTranscript | src/services/ai/ideaEngine.ts:35-36 | a non-empty transcript of whitespace only yields exactly one block, with empty content |
| IdeaEngine.LaterBlocksNotEmpty | src/services/ai/ideaEngine.ts:35-36 | no block after the first has empty content |
| IdeaEngine.FirstBlockEmptyOnlyForBlankTranscript | src/services/ai/ideaEngine.ts:35-36 | the first block is empty only when the transcript is all whitespace and it is the only block |
| IdeaEngine.EmptyBlockOnlyForBlankTranscript | src/services/ai/ideaEngine.ts:35-36 | a block is empty only when it is the single block of a whitespace-only transcript |
| IdeaEngine.KeepTagWords | src/services/ai/ideaEngine.ts:41 | a run is kept exactly when it is 4 or more letters `a`-`z`, and it is kept as many times as it occurs among the runs |
| IdeaEngine.KeepTagWordsSingle | src/services/ai/ideaEngine.ts:41 | a single run gives itself when it is a tag word and nothing otherwise |
| IdeaEngine.KeepTagWordsCons | src/services/ai/ideaEngine.ts:41 | the matches of runs headed by one run are that run's match followed by the matches of the rest, in order |
| IdeaEngine.KeepTagWordsAppend | src/services/ai/ideaEngine.ts:41 | the matches of two stretches of runs are the matches of the first followed by those of the second: `match` keeps the left-to-right order of the text |
| IdeaEngine.Candidates | src/services/ai/ideaEngine.ts:41 | a word is a candidate exactly when it is a whole `\w` run of the lower-cased text made of 4 or more letters `a`-`z`, and it is a candidate as many times as it occurs as such a run |
| IdeaEngine.Distinct | src/services/ai/ideaEngine.ts:43-44 | `Object.keys(freq)` has no more keys than there are candidates, and its first key is the first candidate (insertion order) |
| IdeaEngine.DistinctFirstOccurrenceOrder | src/services/ai/ideaEngine.ts:43-44 | keys come in the order of first occurrence: wherever the candidates hold a later key, every earlier key has already occurred before that position |
| IdeaEngine.DistinctKeys | src/services/ai/ideaEngine.ts:43-44 | the keys of the table hold every candidate, and only candidates, each once |
| IdeaEngine.Frequencies | src/services/ai/ideaEngine.ts:43 | the table has a key for exactly the candidates |
| IdeaEngine.FrequenciesCount | src/services/ai/ideaEngine.ts:43 | the table counts each word exactly as often as it occurs among the candidates |
| IdeaEngine.CountCandidates | src/services/ai/ideaEngine.ts:42-44 | the counting loop leaves the table `Frequencies` of the candidates, and its keys in insertion order, `Distinct` |
| IdeaEngine.TallyStep | src/services/ai/ideaEngine.ts:43 | one pass of the counting loop adds a new word as the last key with count 1, or raises an existing word's count by 1 |
| IdeaEngine.InsertByCount | src/services/ai/ideaEngine.ts:44 | inserting adds exactly the one word to the multiset of words |
| IdeaEngine.SortByCount | src/services/ai/ideaEngine.ts:44 | the sort returns a permutation of the keys |
| IdeaEngine.InsertByCountSorted | src/services/ai/ideaEngine.ts:44 | inserting into a list in descending count order keeps it in that order |
| IdeaEngine.SortByCountSorted | src/services/ai/ideaEngine.ts:44 | the sort leaves the keys in descending order of count |
| IdeaEngine.SortByCountStable | src/services/ai/ideaEngine.ts:44 | the sort is stable: the words of any one count keep their relative order |
| IdeaEngine.Tags | src/services/ai/ideaEngine.ts:44-45 | `slice(0, 5)` of the sorted keys gives 5 tags when there are at least 5 distinct candidates, and otherwise as many tags as there are distinct candidates |
| IdeaEngine.CutoffOfSorted | src/services/ai/ideaEngine.ts:44-45 | of keys sorted by descending count, one that `slice(0, 5)` leaves out has 5 keys before it, each of at least its count |
| IdeaEngine.GenerateTags | src/services/ai/ideaEngine.ts:40-46 | the counting loop and the sort return `Tags`: the distinct candidates by descending count, first occurrence first on ties, at most 5 |
| IdeaEngine.TagsShape | src/services/ai/ideaEngine.ts:41-45 | there are at most 5 tags, pairwise distinct, each a whole word of 4 or more letters `a`-`z` of the lower-cased transcript |
| IdeaEngine.TagsByFrequency | src/services/ai/ideaEngine.ts:44-45 | tags come in non-increasing order of occurrence |
| IdeaEngine.TagsCutoff | src/services/ai/ideaEngine.ts:44-45 | a candidate left out means there are 5 tags, and it occurs no more often than the last tag |
| IdeaEngine.TagsAllWhenFew | src/services/ai/ideaEngine.ts:45 | with 5 or fewer distinct candidates, the tags are exactly the candidates |
| IdeaEngine.TagsTieOrder | src/services/ai/ideaEngine.ts:44-45 | the tags of any one count are a prefix of the distinct candidates of that count, in first-occurrence order |
| IdeaEngine.NoTagsForEmptyTranscript | src/services/ai/ideaEngine.ts:41 | an empty transcript gives no tags |
| IdeaEngine.MakeId | src/services/ai/ideaEngine.ts:4-6 | the id is the prefix followed by `slice(2, 9)` of the random text: its characters 2 to 8, or all from 2 on when it is shorter, or nothing |
| IdeaEngine.PostProcessJournalTranscript | src/services/ai/ideaEngine.ts:9-24 | the note id starts with `note_`; title, blocks and tags are those of the three generators on the same transcript; `createdAt == updatedAt`; source `voice`; draft `false` |
| LocalDb.StoredNotes | src/services/db/localDb.ts:20-28 | reading the key yields its parsed notes, and no notes when it is absent, empty or unparsable |
| LocalDb.IndexOfId | src/services/db/localDb.ts:10 | `findIndex` gives the first position holding the id, or -1 exactly when no note has it |
| LocalDb.FindIndex | src/services/db/localDb.ts:10 | the linear scan returns `IndexOfId` |
| LocalDb.Upsert | src/services/db/localDb.ts:10-14 | the collection written back holds the note; it keeps its length when the id was stored and grows by one otherwise |
| LocalDb.FindById | src/services/db/localDb.ts:33 | `find(...) ?? null` gives nothing exactly when no note has the id, and else the first note that has it |
| LocalDb.NoteStore.GetAllNotes | src/services/db/localDb.ts:20-28 | returns the stored notes, fail-soft as `StoredNotes` |
| LocalDb.NoteStore.GetNoteById | src/services/db/localDb.ts:31-34 | returns the first stored note with the id, or nothing |
| LocalDb.NoteStore.SaveNote | src/services/db/localDb.ts:8-17 | the key then holds the upsert of the previously readable notes; on absent or corrupt storage exactly `[note]`; the note is then found by its id |
| LocalDb.NoteStore.ClearAllNotes | src/services/db/localDb.ts:37-39 | the key is removed, and reads then yield no notes |
| LocalDb.SaveThenFind | src/services/db/localDb.ts:8-17 | after a save, looking up the note's id finds that note |
| LocalDb.UpsertReplacesInPlace | src/services/db/localDb.ts:10-12 | saving under a stored id replaces only the first note with that id; length and every other position are unchanged |
| LocalDb.UpsertPrepends | src/services/db/localDb.ts:13-14 | saving under a new id puts the note in front of the old notes, in their old order |
| LocalDb.UpsertKeepsIdsUnique | src/services/db/localDb.ts:10-14 | if ids are unique before a save, they are unique after |
| LocalDb.UpsertTwice | src/services/db/localDb.ts:10-14 | two saves under one id leave what the second save alone leaves |
| LocalDb.UpsertIdempotent | src/services/db/localDb.ts:10-14 | saving the same note twice is the same as saving it once |
| TagCountAsWritten.Increment | src/services/ai/ideaEngine.ts:43 | `(freq[c] or 0) + 1` gives 1 for a missing or zero count and adds 1 to a number; the `Object` function and non-empty text become text with `1` appended |
| TagCountAsWritten.Get | src/services/ai/ideaEngine.ts:43-44 | `freq[key]` is the stored value when the object holds the key; otherwise it is `undefined`, except for `constructor`, which reads the inherited `Object` function |
| TagCountAsWritten.CompareAsWritten | src/services/ai/ideaEngine.ts:44 | `freq[b] - freq[a]` is the difference of the counts when both are numbers, and NaN, which the sort takes as 0, otherwise |
| TagCountAsWritten.FrequenciesAsWritten | src/services/ai/ideaEngine.ts:43 | the table as written has a key for exactly the candidates |
| TagCountAsWritten.AsWrittenAgreesWithoutConstructor | src/services/ai/ideaEngine.ts:43 | without the word `constructor`, the table as written holds the intended counts as numbers |
| TagCountAsWritten.ConstructorCountIsText | src/services/ai/ideaEngine.ts:43 | with `constructor` among the words, its entry is the text of the `Object` function followed by `1` |
| TagCountAsWritten.ComparatorIsInconsistent | src/services/ai/ideaEngine.ts:44 | the comparator then calls `constructor` equal to both `hiking` and `mind` while ordering `mind` before `hiking` |
| TagCountAsWritten.IntendedCountsConstructor | src/services/ai/ideaEngine.ts:43 | the intended table counts `constructor` once, like any other word |

## Left out

- Speech-to-text, screens, themes and navigation. They are timers, rendering and React state, and hold no modelled logic.
- AsyncStorage I/O and the JSON round trip. The storage key is abstracted as a `Slot`.
- Storage errors. Only `JSON.parse` sits inside the `try` of `getAllNotes`. A rejected `getItem`, `setItem` or `removeItem` reaches the caller; the model has no failing storage.
- Valid JSON that is not an array, such as `null`, is not a `Slot` value. With it `getAllNotes` would return `null` and `saveNote` would throw.
- Asynchrony. Each store call is modelled as one atomic step; concurrent saves that race (last writer wins) are not modelled.
- Randomness and the clock are parameters.
  - `Math.random().toString(36)` becomes the text `randomBase36`.
  - `new Date().toISOString()` becomes `now`.
  - The `Date.now()` reading taken while block `i` is built becomes `clock(i)`.
- Strings are sequences of Unicode scalar values, not UTF-16 code units; surrogate pairs are not modelled.
- Text.LowerChar: lowercases ASCII capitals and the Kelvin sign only. Other letters are kept, since their lower case cannot become a letter `a`-`z` or a `\w` character. `İ` (U+0130) is not modelled, because its lower case is two characters.
- Block metadata values are modelled as text; the synthesizer never sets metadata.
- `deleteNote` is imported by the notes list screen but is not defined in `localDb.ts`, so the store has no delete operation.
- Notes edited by screens (updated titles, `updatedAt` bumps) are not modelled; the screens only call the store.

## Findings

| source | as written | input that shows it | evidently intended | confidence | as-written member | corrected member |
|---|---|---|---|---|---|---|
| src/services/ai/ideaEngine.ts:43-44 | `freq` is a plain object. The first `freq["constructor"]` reads the inherited `Object` function, so that count becomes the text `function Object() { [native code] }1`. `freq[b] - freq[a]` is then NaN, and the sort takes NaN as "equal". The comparator is not consistent, so the standard leaves the tag order implementation-defined. | transcript `hiking constructor mind mind` | `constructor` is counted like any word, and `mind` (2) comes before `hiking` and `constructor` (1 each) | high for the count, medium for the order an engine produces; not executed | TagCountAsWritten.ComparatorIsInconsistent | IdeaEngine.FrequenciesCount |
