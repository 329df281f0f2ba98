# Phrase store and translator — a Dafny model

The program keeps an in-memory store of up to 150 entries. Each entry holds up
to 10 language–translation pairs. Pair 0 of an entry is its *source* pair.
Around the store sit:

- the mutators: add an entry, add translations to an entry, delete an entry,
  delete a pair, empty the store;
- the normalisation applied to every pair read: languages are title-cased and
  translations lower-cased;
- two arrangement passes, run by the list display (main.c:1032-1035) and by
  the word and translation searches (main.c:1988-1989, 2037-2038). The first
  moves entries holding an "English" pair to the front. The second
  selection-sorts each entry's translation pairs by language. Export and the
  source-pair searches of the add features work on the store as it stands;
- the matcher behind search and the add features;
- a word-by-word translator;
- a line-based export/import text format.

This project models all of that as pure Dafny functions and methods over
immutable values, and proves what the code promises.

Modules, in dependency order:

- `Text` (text.dfy): ASCII case mapping, `titleCase`, `lowercase`,
  `removeSymbols`, the file-name checks, and the `strtok` split of a text into
  tokens together with its inverse, joining by single spaces.
- `Phrases` (phrases.dfy): the data model. `Store` keeps all 150 entry slots
  and the active count `n`. `Entry` keeps all 10 pair slots and `count`, as
  the C arrays do. Unused slots are blank or cleared (`ValidEntry`,
  `ValidStore`). `Ingest` is the normalisation applied at every ingestion
  point.
- `Matcher` (matcher.dfy): `isLangInEntry`, `isPairInEntry` and
  `isWordInEntry` over an inclusive pair range `[start, end]`, where
  `end = -1` means `count-1`. Also the all-entries searches, which build a
  strictly increasing list of matching entry indices.
- `EntryStore` (entry_store.dfy): `assignNewEntries`, `addMoreTrans`, the
  add-entry and add-translation features with their capacity checks, the
  shift deletions and `emptyEntry`.
- `Canonical` (canonical.dfy): `arrangeInterEnt` and `arrangeIntraEnt` as
  loop methods, with permutation, partition and sortedness invariants.
- `Translator` (translator.dfy): the pure core of `translateFeat`. It has a
  reference definition (`Translate`) and the nested loops proved equal to it.
- `Codec` (codec.dfy): the export lines and the import read loop, with the
  round trip (import ∘ export) proved.

Interaction becomes parameters:

- the user's yes/no answer in add-entry is a boolean;
- the chosen entry in add-translation is an index into the match list;
- the entry choice in the delete features is an integer, and the pair
  indices and "delete another?" answers of the translation deletion are
  sequences, one per round. A missing index or answer ends the rounds;
- the pairs the user types are a sequence;
- the confirmations in import are a `seq<bool>`, consumed one per offered
  block. A missing answer counts as "no".

A file is modelled as its sequence of lines, without terminators.

Behaviour of `main.c` that the model keeps on purpose:

- **Tokens.** `strtok(text, " ")` never yields an empty token (main.c:2254,
  2290), so a run of spaces left by removed symbols produces no token
  (`Text.TokensSpaces`).
- **Translation lookup.** A token whose source pair matches an entry lacking
  the target language does not stop the search: `found` stays 0 and the
  entry loop goes on to later entries (main.c:2260-2287). Only a token that
  no entry serves is echoed, at the last entry (main.c:2280-2286).
- **Empty store.** With no entries the entry loop never runs, so nothing is
  printed for a token (main.c:2260, 2280). The menu never starts the
  translator with an empty store (main.c:2372), so the translator lemmas
  require `n >= 1`.
- **Import at end of file.** The read loop ends when `fgets` returns NULL
  (main.c:2157-2158), and a block is offered only from the else branch
  (main.c:2176-2204), so a block still pending at end of file is dropped. A
  boundary line with nothing pending offers an empty block, which can be
  appended with `count == 0`.
- **Deleting after the list display.** Both delete features first show the
  list through `displayAllEntries` (main.c:1839, 1888), which arranges the
  store (main.c:1032-1035). The chosen entry number refers to the arranged
  order, and the arranged store is kept even when the choice is invalid.
- **Source pair deletion.** `getDelIndex` rejects index 1, but when the user
  then declines to go on it reports 1 as valid, because its final test
  accepts 1 (main.c:1174-1189). The round then deletes the source pair, or
  the whole entry when it held two pairs (`EntryStore.RemovePair`).

## Model

| member | source | states |
|---|---|---|
| Text.CaseMapFacts | main.c:98-134 | ASCII upper/lower mapping is idempotent, each undoes the other's effect on case, and only a space maps to a space |
| Text.TitleFrom | main.c:98-118 | same length; a character at the start or after a space is upper-cased, every other one lower-cased |
| Text.TitleCase | main.c:98-118 | titleCase keeps the length, upper-cases position 0 and every character after a space, and lower-cases the rest |
| Text.Lowercase | main.c:125-134 | lowercase keeps the length and lower-cases every character |
| Text.TitleCaseIdempotent | main.c:98-118 | title-casing twice equals title-casing once |
| Text.LowercaseIdempotent | main.c:125-134 | lower-casing twice equals lower-casing once |
| Text.TitleFromTitled | main.c:98-118 | the result is title-shaped, and a title-shaped string is left unchanged |
| Text.LowercaseAllLower | main.c:125-134 | the result has no upper-case letter, and a string without one is left unchanged |
| Text.StripSymbols | main.c:1634-1656 | the result is no longer than the input, contains none of `, . ! ?`, and contains exactly the input's other characters |
| Text.StripSymbolsAppend | main.c:1634-1656 | removing symbols distributes over concatenation, so the kept characters stay in order |
| Text.StripSymbolsKeepsClean | main.c:1634-1656 | a text without symbols is unchanged |
| Text.StripSymbolsIdempotent | main.c:1634-1656 | removing symbols twice equals removing them once |
| Text.StripSymbolsSnoc | main.c:1640-1655 | one more character of input adds that character to the output exactly when it is not a symbol |
| Text.RemoveSymbols | main.c:1634-1656 | the in-place compaction loop returns exactly the text with every symbol deleted |
| Text.IsExtPresent | main.c:1529-1542 | a positive answer means the name ends in ".txt" after at least one character |
| Text.ExtPresentIff | main.c:1529-1542 | a name made of a stem and ".txt" is accepted iff the stem is non-empty |
| Text.HasInvalidFileChar | main.c:1556-1576 | true iff some character of the name is one of the characters a file name may not hold |
| Text.LeadingWord | main.c:2254 | the first strtok token is a space-free prefix of the text, followed by a space or the end |
| Text.NonSpacesLeading | main.c:2254-2290 | a text starting with a word holds that word's characters first, then the non-space characters of the rest |
| Text.Tokens | main.c:2254-2290 | the strtok split yields only non-empty, space-free tokens, and together they hold exactly the text's non-space characters in order |
| Text.TokensSpace | main.c:2254-2290 | a leading space yields no token |
| Text.TokensSpaces | main.c:2254-2290 | a run of spaces of any length in front of a text yields no token |
| Text.LeadingWordOfToken | main.c:2254 | a token followed by a space or the end is the leading word |
| Text.TokensCons | main.c:2254-2290 | splitting a token, a space and a tail yields the token followed by the tail's tokens |
| Text.TokensSingle | main.c:2254-2290 | a lone token splits into itself |
| Text.TokensOfJoin | main.c:2254-2293 | splitting tokens joined by single spaces gives the tokens back |
| Phrases.ClearEntry | main.c:292-296 | a cleared entry has ten blank pair slots and count 0 |
| Phrases.Ingest | main.c:449-463 | every pair read is normalised, string lengths are kept, and an already-normal pair is unchanged |
| Phrases.ClearedNormal | main.c:292-296 | a cleared entry is well-formed and normalised |
| Phrases.EmptyStoreValid | main.c:1501-1515 | the store with every slot cleared and no entries is well-formed and normalised |
| Matcher.ScanFrom | main.c:1274-1283 | the scan of a pair range returns the first fitting index, or -1 iff no pair in range fits |
| Matcher.FirstFit | main.c:1265-1286 | over `[start, end]` with `end = -1` meaning `count-1`: -1 iff no pair fits, else the least fitting index in range |
| Matcher.IsLangInEntry | main.c:851-868 | true iff some active pair of the entry has the language |
| Matcher.IsPairInEntry | main.c:1265-1286 | the first index in range holding exactly the pair, or -1 iff none does |
| Matcher.IsWordInEntry | main.c:1369-1388 | the first index in range holding the translation, or -1 iff none does |
| Matcher.CollectFrom | main.c:1329-1344 | the collected entry indices are strictly increasing and are exactly the active entries from i on with a fit in range |
| Matcher.FindInAllEntries | main.c:1318-1347 | found iff the list is non-empty; the list is strictly increasing and holds exactly the active entries with a fit in range |
| Matcher.FindPairInAllEntries | main.c:1318-1347 | returns 1 iff some entry holds the pair in range; the list is strictly increasing and holds exactly those entries |
| Matcher.FindWordInAllEntries | main.c:1418-1445 | returns 1 iff some entry holds the translation in range; the list is strictly increasing and holds exactly those entries |
| Matcher.SourceMatches | main.c:1696-1698 | the source-only search lists, in increasing order, exactly the active entries whose pair 0 is the given pair |
| EntryStore.AssignNewEntries | main.c:697-710 | the pair goes to slot `count`, the count grows by one, other slots are untouched, normalisation is kept |
| EntryStore.AssignNewEntriesAppends | main.c:697-710 | the active pairs grow by exactly the new pair at the end |
| EntryStore.AddMoreTrans | main.c:725-767 | the entry stays well-formed and its count becomes min(count + number of pairs offered, 10) |
| EntryStore.AddMoreTransPairs | main.c:725-767 | existing pairs are kept and the new slots hold the offered pairs, normalised and in order |
| EntryStore.AddMoreTransStep | main.c:732-766 | one loop iteration followed by the rest gives the same pairs as the whole loop |
| EntryStore.Append | main.c:1710-1716 | slot n receives the entry, the count grows by one, all other slots are kept |
| EntryStore.NewEntry | main.c:1710-1716 | the new entry holds the source pair first, then the normalised targets, up to 10 pairs |
| EntryStore.Put | main.c:1789-1806 | only slot k changes, and the store stays well-formed |
| EntryStore.AddEntry | main.c:1674-1720 | refused iff 150 entries are stored; declined iff the normalised source pair already exists and the user says no; otherwise exactly slot n is filled with the new entry; on refusal nothing changes |
| EntryStore.ExtendEntry | main.c:1789-1806 | only the chosen entry changes: its old pairs stay, the normalised new pairs follow, capped at 10 |
| EntryStore.AddTranslation | main.c:1742-1807 | no-source iff no entry has the source pair; entry-full iff the chosen match holds 10 pairs; otherwise the chosen entry is extended; on refusal nothing changes |
| EntryStore.WithoutEntry | main.c:1118-1133 | the reference for deleting an entry: the active entries lose exactly slot c, the rest keep their order, and the count drops by one |
| EntryStore.DeleteEntry | main.c:1118-1133 | slots below choice-1 are kept, slots above shift down by one, the last active slot is cleared, the rest is untouched |
| EntryStore.RemoveEntry | main.c:1841-1850 | the active entries lose exactly the chosen one, the rest keep their order, and the count drops by one; the store is exactly `WithoutEntry` |
| EntryStore.DeleteEntryFeat | main.c:1825-1855 | an empty store is left alone; otherwise the store shown is an arrangement of the input (same entries, English ones first in their original order, each entry's translation pairs sorted), canonical, and the input itself when that was already canonical; a choice in 1..n removes exactly that entry of the shown order and keeps the others in order; any other choice leaves the shown store |
| EntryStore.WithoutPair | main.c:1207-1229 | the reference for deleting a pair: the active pairs lose exactly pair i, the rest keep their order, and the count drops by one |
| EntryStore.DeleteTrans | main.c:1207-1229 | the active pairs lose exactly the chosen one, the rest keep their order, and the count drops by one; the entry is exactly `WithoutPair` |
| EntryStore.RemovePair | main.c:1912-1929 | in a 2-pair entry the whole entry is deleted; otherwise only the chosen pair, the source pair included, is removed from that entry and no other entry changes; every entry keeps a translation if it had one; the result is the reference round `Round` |
| EntryStore.RemoveSameEntries | main.c:1912-1920 | deleting the chosen entry gives the same list whatever earlier rounds did to that entry |
| EntryStore.RoundKeeps | main.c:1921-1925 | a round on an entry that does not hold two pairs changes only that entry, drops its count by one and keeps a sub-multiset of its pairs |
| EntryStore.RoundsDelete | main.c:1902-1930 | the reference rounds `Rounds` either change only the chosen entry, which keeps a sub-multiset of its pairs, or remove that entry and keep the others in order; a valid first index always removes the entry or lowers its count |
| EntryStore.RoundStep | main.c:1904-1929 | one iteration of the loop: it stops exactly where `Rounds` stops, and when it goes on, the rounds still to run leave the same store |
| EntryStore.DeleteRounds | main.c:1902-1930 | the loop ends on an invalid or missing index, on the entry's deletion or on an answer other than yes, and leaves exactly the store `Rounds` defines; only the chosen entry loses pairs, or it goes as a whole |
| EntryStore.DeleteTransFeat | main.c:1873-1931 | an empty store is left alone; otherwise the store shown is an arrangement of the input, canonical, and the input itself when that was already canonical; an invalid entry choice leaves the shown store; a valid one leaves exactly what the reference rounds `Rounds` make of the shown store: pairs of that entry removed, or the whole entry |
| EntryStore.EmptyEntry | main.c:1501-1515 | every active slot is cleared and the count reset, giving the empty store |
| Canonical.Swap | main.c:881-891 | two positions are exchanged and every other position is kept |
| Canonical.SwapPermutes | main.c:881-891 | a swap below n permutes the first n items |
| Canonical.EnglishEntriesAppend | main.c:944-967 | the English-bearing subsequence of a concatenation is the concatenation of the subsequences |
| Canonical.EnglishPrefix | main.c:944-967 | when English entries come first, they form exactly the English-bearing subsequence, and none follows |
| Canonical.NearestEnglish | main.c:957-964 | the nearest English-bearing entry after i, or -1 iff there is none before n |
| Canonical.SwapForward | main.c:955-963 | swapping the nearest English entry into position i permutes the active entries and keeps their English subsequence |
| Canonical.SwapExtendsPartition | main.c:955-963 | after that swap, English entries come first among positions 0..i as well |
| Canonical.ArrangeInterEnt | main.c:944-967 | the active entries are permuted, nothing inside any entry changes, English entries form a prefix in their original order, and an arranged store is left unchanged, so a second pass changes nothing |
| Canonical.StrLessIrreflexive | main.c:996 | the strcmp order is irreflexive |
| Canonical.StrLessTransitive | main.c:996 | the strcmp order is transitive |
| Canonical.StrLessTotal | main.c:996 | any two distinct strings are ordered one way |
| Canonical.StrLessAsymmetric | main.c:996 | the strcmp order is asymmetric |
| Canonical.MinLang | main.c:990-998 | the first position in [j, count) whose language is least by strcmp |
| Canonical.SortPairs | main.c:985-1008 | count and pair 0 are kept, the active pairs are permuted, pairs 1..count-1 ascend by language, and a sorted entry is left unchanged |
| Canonical.PermutedLangs | main.c:851-868 | permuting the active pairs does not change which languages the entry holds |
| Canonical.ArrangeIntraEnt | main.c:980-1010 | every active entry keeps count, source pair and pair multiset, ends up sorted, and keeps its English membership; a sorted store is left unchanged |
| Canonical.Canonicalise | main.c:1032-1035 | the result is an arrangement of the input: after the first pass the store holds the same entries with the English ones first in their original order, and the second pass sorts each entry's translation pairs; the result is canonical, and a canonical store is left unchanged |
| Translator.ServesMeaning | main.c:2262-2276 | an entry serves a token iff its source pair is (source language, token) and some translation pair has the target language |
| Translator.FirstServing | main.c:2260-2287 | -1 or an active entry that serves the token |
| Translator.FirstServingSpec | main.c:2260-2287 | -1 iff no entry from i on serves the token; otherwise no earlier entry does |
| Translator.TranslateWordMeaning | main.c:2260-2287 | an unserved token is echoed; a served one becomes the first translation in the target language of the first serving entry |
| Translator.ScanTranslations | main.c:2268-2277 | the inner loop finds a target-language pair iff one exists among pairs 1..count-1, and outputs the first one's translation |
| Translator.TranslateToken | main.c:2257-2287 | the nested loops with their `found` flag print exactly the reference translation of the token |
| Translator.TranslateAll | main.c:2257-2294 | one output per token |
| Translator.TranslateAllAt | main.c:2257-2294 | output k is the translation of token k |
| Translator.JoinSnoc | main.c:2290-2293 | printing one more token appends a single space and the token |
| Translator.JoinPrefix | main.c:2290-2293 | the printed prefix after token k is the prefix after token k-1, a space, and token k |
| Translator.TranslateAt | main.c:2257-2287 | the loop's output for token k equals the reference output at position k |
| Translator.PrintTokens | main.c:2254-2294 | the token loop prints the translated tokens separated by single spaces |
| Translator.TranslateText | main.c:2249-2294 | the whole of translateFeat's pure core equals the reference translation |
| Translator.TranslateEcho | main.c:2280-2286 | when no entry has the source language, the output is the symbol-free text's tokens joined by single spaces |
| Translator.TranslateTokens | main.c:2254-2294 | when stored translations are single tokens, splitting the output gives back exactly the translated tokens |
| Codec.EntryLines | main.c:2092-2101 | one "lang: trans" line per active pair, in order, then one blank line |
| Codec.Export | main.c:2067-2104 | refused iff the store is empty; otherwise the blocks of all active entries |
| Codec.ParseTrans | main.c:2160-2161 | the ` %[^:\n]` conversion skips white space and reads the longest non-empty run free of ':' and newline; it fails only when that run is empty |
| Codec.ParsePair | main.c:2160-2161 | a parsed line is a non-empty language free of ':' and newline, a ':', then a translation that the second conversion reads; a line that has that shape always parses |
| Codec.LangEndIsSpan | main.c:2160-2161 | the first conversion can only end at the line's first ':' or newline |
| Codec.ParsePairSome | main.c:2160-2161 | a parsed language is the non-empty text before the first ':'; a parsed translation is non-empty, free of ':' and newline, and does not start with white space |
| Codec.ParsePairNoColon | main.c:2160-2161 | a line without ':' never parses |
| Codec.ParseFormat | main.c:2160-2161 | every exported pair line parses back to its pair |
| Codec.SpanPrefix | main.c:2160-2161 | the `%[^:\n]` conversion stops exactly at the first ':' or newline |
| Codec.SkipOneSpace | main.c:2160-2161 | the space after ':' is consumed when the translation does not start with white space |
| Codec.BlankLineEndsBlock | main.c:2160-2176 | a blank line does not parse, so it closes the pending block |
| Codec.ImportFrom | main.c:2157-2205 | the read loop stays within 150 entries, appends at most one entry per "yes", never changes the entries already stored, and keeps normalisation |
| Codec.Import | main.c:2124-2207 | importFeat from an empty pending block: the same bounds and preservation |
| Codec.PrefixEntry | main.c:2165-2175 | the block rebuilt after j pair lines is well-formed with count j |
| Codec.PrefixStep | main.c:2165-2175 | appending pair j to the first j pairs gives the first j+1 |
| Codec.PrefixFull | main.c:2165-2175 | after all its pair lines the block is the entry itself |
| Codec.PrefixEmpty | main.c:2203 | before any pair line the block is a cleared entry |
| Codec.ImportPairLine | main.c:2165-2175 | a parsable line with room in the block adds its normalised pair and reads on |
| Codec.ImportBlankLine | main.c:2176-2204 | a blank line offers the block, appends it on "yes", and restarts with a cleared block |
| Codec.ImportEntryStep | main.c:2165-2175 | reading the next pair line of an exported entry moves the rebuilt block one pair further |
| Codec.ImportEntryFrom | main.c:2157-2205 | the remaining lines of an exported entry rebuild it and the closing blank line appends it |
| Codec.AppendAll | main.c:2196-2200 | appending entries one by one keeps the store valid and adds exactly that many |
| Codec.AppendAllSlots | main.c:2196-2200 | appending entries puts them in slots n, n+1, … in order and leaves every other slot as it was |
| Codec.AppendAllStore | main.c:2196-2200 | appending entries splices them into the slot sequence at n |
| Codec.ImportFirstEntry | main.c:2157-2205 | the first exported entry's lines append it and leave the remaining lines to read |
| Codec.ImportEntries | main.c:2157-2205 | importing the lines of several exportable entries, confirming each, appends exactly those entries in order |
| Codec.AllExportableIff | main.c:2092-2101 | the recursive exportability predicate holds iff every entry is valid and exportable |
| Codec.ImportEntriesStore | main.c:2157-2205 | importing the lines of exportable entries splices them in at slot n |
| Codec.ActiveExportable | main.c:2092-2101 | the active entries of a store with exportable pairs are valid and exportable |
| Codec.ImportExport | main.c:2092-2205 | round trip: importing the export of t into s, confirming every block, appends t's entries after s's in order, capacity permitting |
| Codec.SpliceIntoEmpty | main.c:1501-1515 | splicing a store's active entries into the empty store gives the store back |
| Codec.ImportExportEmpty | main.c:2092-2205 | an exported store imported into the empty store is the same store |

## Left out

- Menus, display and paging: the printing done by the display functions,
  `getDispChoice` and the dispatch in `main`. They are console output and
  control flow. `displayAllEntries` is the exception: before printing it
  arranges the store (main.c:1032-1035), which `Canonical.Canonicalise`
  models. It is reached from `displayAllFeat` (main.c:1954),
  `deleteEntryFeat` (main.c:1839) and `deleteTransFeat` (main.c:1888); the
  two delete features are modelled with that step. The search
  features are covered only by their matcher core.
- Interactive input: `getStrInput`, `getIntInput`, `getCharInput`,
  `getUserConfirmation`, `getLangTrans`, `getKey`, `getLang`, `getFileName`,
  `getDelChoice`, `getDelIndex`. These are stdin loops. Their results are
  parameters: answers, choices, the pairs typed, the confirmation sequence.
  The title-casing that `getLang` applies to both translator languages is
  kept in `Translator.Translate`.
- File handling: `fopen`, `fclose`, open-failure paths, and `fgets` reading
  at most 61 bytes per call. A longer line would be split into two reads; the
  model reads whole lines.
- C buffer limits: `String20`/`String30` lengths, `strncpy` truncation and
  `sscanf` overrunning a 20-character buffer. Strings are unbounded in the
  model. The codec round trip holds for every length, so it needs no 20-char
  bound.
- Locale-dependent `toupper`/`tolower`. Only ASCII letters change case.
- `strtok`'s hidden static state. Tokenisation is the pure function
  `Text.Tokens`.
- Codec.ImportExport: the round trip is stated for exportable pairs only:
  non-empty, free of ':' and newline, translation not starting with white
  space, normalised. Other pairs do not survive the text format.
