# Sildish transliteration, modelled in Dafny

Sildish is a constructed script. The application turns Romanized Sildish
text into Sildish glyphs (private-use code points). This project models the
engine behind that and proves its properties. The engine has three layers.

- **Prefix tree** (`PrefixTree.dfy`). This is the generic
  `PrefixTree<T, P>` with `empty`, `interior(branches, payload?)` and
  `leaf(payload)` nodes. Its operations are:
  - exact lookup (`Get`, and the imperative `Lookup` walk);
  - update;
  - the list of all payloads along a path (`AllPayloads`, checked against
    the specification `Matches`);
  - structural merge with a conflict resolver;
  - building a single path, and building from a dictionary;
  - structural equality.
- **Sound system** (`SoundSystem.dfy`). It holds:
  - the grapheme-set variants;
  - `PhonemeData` with its equality;
  - the 37-phoneme table and the two clusters `q` and `x`;
  - the category lists (`allVowels`, `allConsonants`, …);
  - the Roman vowel and consonant letter sets;
  - the `isSildish*` predicates.
- **Roman-to-Sildish tree and constants** (`RomanToSildish.dfy`). These
  are:
  - the production tree, merged from four sub-trees, with every
    reduplicable consonant registered once singly and once doubled;
  - `CatalogEntry`, a reference description of every key of that tree;
  - the two buffer-length constants `longestRomanVowel` and
    `longestRomanConsonant`.
- **Transliterator** (`Transliteration.dfy`). It contains:
  - the maximal-munch region renderer with its refillable lookahead
    buffer, and the two glyph selectors (non-medial vowels, medials);
  - the word segmenter `transliterateToSildish(_:)`. It splits each word
    into a capital mark, leading vowels, medials and trailing vowels, and
    echoes characters outside the alphabet.

  Each imperative routine is a Dafny `method` with its loops and
  invariants. Each is proved against a function that specifies its result:
  - `TransliterateRegion` against `Render(Munch(..))`;
  - `ClassifyMedials` against the split of the word's rest at the trailing
    length, and the whole word pass `RegionWord` against `Segment`;
  - `TransliterateToSildish` against `SildishTransliteration`.
- **Laws** (`Laws.dfy`). These are whole-input properties of the
  specification functions:
  - the empty input;
  - pass-through of text with no Sildish letters;
  - the capital mark;
  - how words split into regions;
  - the fact that a caseless separator between two words is copied
    through while the words are transliterated independently.
  - what each phoneme, doubled consonant and cluster renders to on its own,
    in each renderer and as a whole word, over any catalog tree;
  - the maximal munch of the example vowel runs "aeei" and "eoia".

The segmenter is written over an `Alphabet` (the vowel and consonant
predicates and the set of plain-consonant digraphs). It is also written
over any tree that agrees keywise with the catalog (`IsCatalogTrie`). The
production instance is `SildishTransliteration`, and is what
`TransliterateToSildish` computes.

Where the code and its documentation disagree, the model follows the code.
Three places matter here:
- **`longestRomanConsonant`.** It uses a reversed comparator, so it is the
  *shortest* consonant spelling (1), not the longest (2). The model keeps
  this as `LongestRomanConsonant`, and the medial lookahead takes the `max`
  with it as the code does. `Lookaheads` proves that the corrected
  `IntendedLongestRomanConsonant` would give the same two-letter buffer,
  because the vowels' two letters win the `max` (see "Findings").
- **Echo.** The first character copied after a word arrives lower-cased
  from the advancer.
- **Capital mark.** The mark is set by any upper-case first character,
  including the non-Sildish `K`.

The production tree's merges use the default resolver (keep the incoming
payload), not a resolver that must never fire. No key is shared, so the
resolver does not matter, and this is proved (`ProductionSubTreesDisjoint`).

## Model

| member | source | states |
|---|---|---|
| PrefixTree.Lookup | Sildish/model/PrefixTree.swift:24-48 | the subscript walk returns exactly the payload `Get` assigns to the path |
| PrefixTree.DeadEnd | Sildish/model/PrefixTree.swift:31-37 | once the walk meets an empty node or a leaf before the path ends, every longer prefix looks up to nothing |
| PrefixTree.GetChild | Sildish/model/PrefixTree.swift:29-46 | a non-empty path looks up in the branch for its first component, and to nothing without an interior node |
| PrefixTree.GetUpdate | Sildish/model/PrefixTree.swift:50-59 | after `t[p] = v`, `p` looks up to `v` and every other path keeps its old lookup |
| PrefixTree.AllPayloads | Sildish/model/PrefixTree.swift:84-118 | the loop appends positioned payloads exactly as the specification `Matches` lists them |
| PrefixTree.MatchesSettle | Sildish/model/PrefixTree.swift:99-104 | once no longer prefix reaches a node, no further payloads are added (the leaf case returns early) |
| PrefixTree.MatchesCharacterized | Sildish/model/PrefixTree.swift:84-118 | the payload list is exactly the pairs (lookup of `path[..k]`, k) for the prefixes that look up, in increasing k |
| PrefixTree.MatchesSound | Sildish/model/PrefixTree.swift:84-118 | every listed payload is the lookup of the prefix of its position, and that position is at most the path length |
| PrefixTree.MatchesOrdered | Sildish/model/PrefixTree.swift:84-118 | positions in the list strictly increase |
| PrefixTree.MatchesComplete | Sildish/model/PrefixTree.swift:84-118 | every prefix that looks up to a payload appears in the list |
| PrefixTree.LastMatchIsLongest | Sildish/model/PrefixTree.swift:84-118 | the last entry is the longest prefix of the path that looks up, and no longer prefix does |
| PrefixTree.GetMerge | Sildish/model/PrefixTree.swift:128-238 | a merged tree looks up each path to the left payload, the right payload, or the resolver applied to both when both exist |
| PrefixTree.MergeInterior | Sildish/model/PrefixTree.swift:143-236 | merging two non-empty trees that are not both leaves gives an interior node whose branches merge pointwise and whose payload is combined |
| PrefixTree.MergeEmpty | Sildish/model/PrefixTree.swift:135-138 | the empty tree is an identity on either side of merge |
| PrefixTree.MergeIdempotent | Sildish/model/PrefixTree.swift:130-142 | with a resolver that returns its argument on equal inputs (such as the default), a tree merged with itself is itself |
| PrefixTree.MergeCommutes | Sildish/model/PrefixTree.swift:128-238 | trees with disjoint keys merge to the same tree in either order, whatever the resolvers |
| PrefixTree.MergeAssociates | Sildish/model/PrefixTree.swift:128-238 | merge of pairwise-disjoint trees is associative |
| PrefixTree.GetBuild | Sildish/model/PrefixTree.swift:247-286 | a tree built from one path looks up that path to its payload and every other path to nothing |
| PrefixTree.BuildShape | Sildish/model/PrefixTree.swift:253-267 | a path of length n builds n single-branch interior nodes without payload, ending in a leaf |
| PrefixTree.FindDistinct | Sildish/model/PrefixTree.swift:293-304 | with distinct keys, the dictionary maps a key to a value iff that entry is present |
| PrefixTree.GetBuildAll | Sildish/model/PrefixTree.swift:293-304 | the tree built from a dictionary looks up each key to the dictionary's value and everything else to nothing |
| PrefixTree.Equal | Sildish/model/PrefixTree.swift:318-335 | the structural equality holds iff the trees are equal |
| SoundSystem.PhonemeData.Equals | Sildish/model/SoundSystem.swift:67-71 | equality holds iff roman, pronunciation and grapheme set are all equal |
| SoundSystem.IndexOf | Sildish/model/SoundSystem.swift:82-121 | every phoneme has a declaration index below 37 at which it is listed |
| SoundSystem.AllCasesComplete | Sildish/model/SoundSystem.swift:82-121 | `allCases` lists every phoneme |
| SoundSystem.AllCasesDistinct | Sildish/model/SoundSystem.swift:82-121 | `allCases` lists no phoneme twice |
| SoundSystem.AllClustersComplete | Sildish/model/SoundSystem.swift:573-577 | `PhonemeCluster.allCases` lists both clusters |
| SoundSystem.FilterMembership | Sildish/model/SoundSystem.swift:487-569 | an element is in a filtered list iff it is in the list and satisfies the predicate |
| SoundSystem.FilterDistinct | Sildish/model/SoundSystem.swift:487-569 | filtering a list without duplicates leaves none |
| SoundSystem.CategoryFilters | Sildish/model/SoundSystem.swift:516-569 | `allVowels` is exactly the vowels and diphthongs, `allConsonants` exactly the two consonant kinds, each is the union of its two sub-lists, and the two partition the phonemes |
| SoundSystem.RomanLettersMembership | Sildish/model/SoundSystem.swift:627 | every letter of a listed element's roman is in the flattened letter set |
| SoundSystem.RomanLettersSource | Sildish/model/SoundSystem.swift:627 | every letter of the flattened set comes from some listed element's roman |
| SoundSystem.RomanSpelling | Sildish/model/SoundSystem.swift:126-485 | every roman is one or two letters, a vowel's drawn from the vowel letters and a consonant's from the consonant letters |
| SoundSystem.VowelRomanSpelling | Sildish/model/SoundSystem.swift:132-227 | the romans of the vowels and diphthongs use only y, i, e, a, o, u |
| SoundSystem.ConsonantRomanSpelling | Sildish/model/SoundSystem.swift:228-482 | the romans of the consonants use only consonant letters |
| SoundSystem.VowelLettersOfListing | Sildish/model/SoundSystem.swift:615-640 | over any complete listing, the vowel letter set is {y, i, e, a, o, u} |
| SoundSystem.ConsonantLettersOfListing | Sildish/model/SoundSystem.swift:643-668 | over any complete listing, the consonant letter set is the 19 letters m n g p b t d c f v h s z w j r l q x |
| SoundSystem.VowelLetterSet | Sildish/model/SoundSystem.swift:615-640 | `romanSildishVowels` is {y, i, e, a, o, u} |
| SoundSystem.ConsonantLetterSet | Sildish/model/SoundSystem.swift:643-668 | `romanSildishConsonants` is the consonant letters, clusters q and x included |
| SoundSystem.LetterSetsDisjoint | Sildish/model/SoundSystem.swift:615-668 | no letter is in both sets |
| SoundSystem.ReduplicableRomanIsOneLetter | Sildish/model/SoundSystem.swift:544-556 | every reduplicable consonant is spelled with one letter |
| SoundSystem.LetterRange | Sildish/model/SoundSystem.swift:615-668 | the two sets together are exactly the lower-case letters other than k |
| SoundSystem.ClassificationSets | Sildish/model/SoundSystem.swift:683-694 | `isSildishVowel`/`isSildishConsonant` hold iff the lower-cased character is in the vowel/consonant set |
| SoundSystem.Classification | Sildish/model/SoundSystem.swift:675-694 | `isSildish` holds iff the lower-cased character is a letter other than k; no character is both kinds; a character and its lower case classify alike |
| RomanToSildish.DecodeRomanInverse | Sildish/model/SoundSystem.swift:126-485 | decoding a phoneme's roman gives that phoneme back, so no two phonemes share a roman |
| RomanToSildish.DecodeRomanSound | Sildish/model/SoundSystem.swift:126-485 | whatever a spelling decodes to is spelled that way |
| RomanToSildish.DecodeClusterInverse | Sildish/model/SoundSystem.swift:582-608 | a spelling decodes to a cluster iff it is that cluster's roman |
| RomanToSildish.ClusterIsNotPhoneme | Sildish/model/SoundSystem.swift:582-608 | no cluster is spelled like a phoneme |
| RomanToSildish.SingleForm | Sildish/Common/model/Transliteration.swift:26-50 | the single entry of a consonant is a plain consonant with the same roman, pronunciation and standard/initial/final glyphs |
| RomanToSildish.DoubledRoman | Sildish/Common/model/Transliteration.swift:58-66 | a reduplicable consonant's doubled roman is a key of the doubled sub-tree, mapping to its own data |
| RomanToSildish.DoubledPhoneme | Sildish/Common/model/Transliteration.swift:58-66 | every key of the doubled sub-tree is some reduplicable consonant's roman written twice |
| RomanToSildish.CatalogParts | Sildish/Common/model/Transliteration.swift:16-74 | the four sub-catalogs define disjoint keys, and the catalog is their merge |
| RomanToSildish.GetVowelTree | Sildish/Common/model/Transliteration.swift:17-21 | the vowel sub-tree maps exactly the vowel and diphthong romans to their data |
| RomanToSildish.GetConsonantTree | Sildish/Common/model/Transliteration.swift:23-56 | the consonant sub-tree maps exactly the consonant romans to their single form |
| RomanToSildish.GetReduplicatedTree | Sildish/Common/model/Transliteration.swift:58-66 | the doubled sub-tree maps exactly the doubled romans of reduplicable consonants to their data |
| RomanToSildish.GetClusterTree | Sildish/Common/model/Transliteration.swift:68-73 | the cluster sub-tree maps exactly the cluster romans to their data |
| RomanToSildish.GetTrieOf | Sildish/Common/model/Transliteration.swift:16-74 | the merged tree looks up every string as the catalog says |
| RomanToSildish.SubTreesDisjoint | Sildish/Common/model/Transliteration.swift:16-74 | each of the three merges joins trees with disjoint keys, so the resolver never decides a payload |
| RomanToSildish.ProductionSubTreesDisjoint | Sildish/Common/model/Transliteration.swift:16-74 | the same for the production listings |
| RomanToSildish.KeysDistinct | Sildish/Common/model/Transliteration.swift:18-20 | each dictionary's entries have distinct keys, so `uniqueKeysWithValues` does not trap |
| RomanToSildish.ProductionKeysDistinct | Sildish/Common/model/Transliteration.swift:16-74 | the same for the production listings |
| RomanToSildish.RomanToSildishLookup | Sildish/Common/model/Transliteration.swift:16-74 | `romanToSildish` looks every string up as the catalog says |
| RomanToSildish.CatalogRoundTrip | Sildish/Common/model/Transliteration.swift:16-74 | the catalog maps each vowel's roman to its data, each consonant's roman to its single form, and each reduplicable consonant's doubled roman to its data |
| RomanToSildish.ClusterRoundTrip | Sildish/Common/model/Transliteration.swift:68-73 | the catalog maps each cluster's roman to its data |
| RomanToSildish.TrieRoundTrip | SildishTests/TransliterationTests.swift:15-34 | `romanToSildish` returns each vowel's and cluster's data at its roman, each consonant's single form at its roman (its own data when it is not reduplicable), and each reduplicable consonant's data at its doubled roman |
| RomanToSildish.MaxFromIsMaximal | Sildish/Common/model/Transliteration.swift:77-86 | the running maximum is one of the elements and no element is greater under the comparator |
| RomanToSildish.MaxByIsMaximal | Sildish/Common/model/Transliteration.swift:77-86 | `max(by:)` answers nothing exactly on an empty list, and otherwise an element that no other exceeds |
| RomanToSildish.RomanLengthOrders | Sildish/Common/model/Transliteration.swift:79-85 | both comparators (shorter roman, longer roman) are strict weak orders |
| RomanToSildish.LongestVowelOf | Sildish/Common/model/Transliteration.swift:77-80 | over any complete vowel listing, the maximum has a two-letter roman |
| RomanToSildish.ShortestConsonantOf | Sildish/Common/model/Transliteration.swift:83-86 | over any complete consonant listing, the reversed comparator selects a one-letter roman |
| RomanToSildish.LongestRomanVowelIsTwo | Sildish/Common/model/Transliteration.swift:77-80 | `longestRomanVowel` is 2 |
| RomanToSildish.LongestRomanConsonantIsOne | Sildish/Common/model/Transliteration.swift:83-86 | `longestRomanConsonant` is 1, because the comparator is reversed |
| RomanToSildish.ReversedComparisonMissesLongest | Sildish/Common/model/Transliteration.swift:83-86 | as written, `longestRomanConsonant` is shorter than the roman of the consonant `sh` |
| RomanToSildish.LongestConsonantOf | Sildish/Common/model/Transliteration.swift:83-86 | over any complete consonant listing, the comparator the name promises selects a two-letter roman that no consonant's roman exceeds |
| RomanToSildish.IntendedLongestRomanConsonantIsLongest | Sildish/Common/model/Transliteration.swift:83-86 | the corrected constant is 2 and bounds the roman of every consonant |
| RomanToSildish.KeyLength | Sildish/Common/model/Transliteration.swift:16-74 | every key of the tree is one or two letters long |
| RomanToSildish.LetterIsKey | Sildish/Common/model/Transliteration.swift:124 | every Sildish letter on its own is a key, so the last payload always exists |
| RomanToSildish.VowelKeyIsVowel | Sildish/Common/model/Transliteration.swift:144 | a key starting with a vowel letter is a vowel or diphthong |
| Transliteration.ProductionIsCatalogTrie | Sildish/Common/model/Transliteration.swift:16-74 | the production tree agrees with the catalog on every string |
| Transliteration.LongestKey | Sildish/Common/model/Transliteration.swift:124 | the chosen length has a payload and no longer prefix of the window does |
| Transliteration.Step | Sildish/Common/model/Transliteration.swift:124-125 | each step consumes at least one character, at most a window's worth, and a prefix that is a key |
| Transliteration.MunchConsumes | Sildish/Common/model/Transliteration.swift:117-129 | the tokens, read in order, spell the region exactly once, and each token is a key of at most the lookahead, paired with its payload |
| Transliteration.RenderFromMunch | Sildish/Common/model/Transliteration.swift:118-129 | rendering step by step equals rendering the munched tokens |
| Transliteration.LastPayload | Sildish/Common/model/Transliteration.swift:124 | the last of all payloads along the buffer exists and is the longest key, at its length |
| Transliteration.LastBounds | Sildish/Common/model/Transliteration.swift:124-125 | the last payload's position is between 1 and the buffer length |
| Transliteration.WindowPayload | Sildish/Common/model/Transliteration.swift:124 | the last payload along the current window is the step's key and payload |
| Transliteration.RegionAdvance | Sildish/Common/model/Transliteration.swift:124-128 | one turn of the loop preserves the region invariant |
| Transliteration.RenderAdvance | Sildish/Common/model/Transliteration.swift:124-128 | the output so far plus the rest's rendering stays the whole rendering |
| Transliteration.BufferAdvance | Sildish/Common/model/Transliteration.swift:117-126 | dropping the consumed prefix and refilling keeps the buffer the next window of the region, empty exactly at the end |
| Transliteration.RegionTurn | Sildish/Common/model/Transliteration.swift:118-129 | one loop turn strictly advances and keeps the invariant |
| Transliteration.TransliterateRegion | Sildish/Common/model/Transliteration.swift:100-131 | the region loop returns the selector's glyphs of the maximal-munch tokens, first flag on the first call only and last flag on the last |
| Transliteration.MunchIsMaximal | Sildish/Common/model/Transliteration.swift:124 | each emitted token is the longest catalog key that prefixes the rest of the region |
| Transliteration.NoLongerCatalogKey | Sildish/Common/model/Transliteration.swift:124 | no catalog key longer than the window prefixes the rest |
| Transliteration.MunchHead | Sildish/Common/model/Transliteration.swift:124-126 | the first token is the step's key and the rest of the tokens munch the remainder |
| Transliteration.StepVowel | Sildish/Common/model/Transliteration.swift:144 | a step starting on a vowel letter yields a vowel or diphthong |
| Transliteration.MunchVowels | Sildish/Common/model/Transliteration.swift:144-156 | munching only vowel letters yields only vowels and diphthongs, so the non-medial selector's default branch is never met |
| Transliteration.Lookaheads | Sildish/Common/model/Transliteration.swift:175 | both renderers use a two-letter buffer, the medial lookahead `max(longestRomanVowel, longestRomanConsonant)` bounds every phoneme's roman, and it is unchanged when the corrected longest consonant replaces the reversed one |
| Transliteration.TransliterateNonmedialVowels | Sildish/Common/model/Transliteration.swift:139-157 | returns the bar-less glyphs of the munched vowels |
| Transliteration.TransliterateMedials | Sildish/Common/model/Transliteration.swift:167-194 | returns the medial selector's glyphs of the munched medials |
| Transliteration.LowerAllLaws | Sildish/Common/model/Transliteration.swift:211-219 | lower-casing a string is idempotent and distributes over concatenation |
| Transliteration.SildishAlphabetClassifies | Sildish/Common/model/Transliteration.swift:292-295 | the production alphabet calls a character Sildish exactly when `isSildish` does, vowels and consonants never overlap, every Sildish character lower-cases to a letter a–z other than k, and a digraph is plain exactly when the tree maps it to a plain consonant |
| Transliteration.WordEnd | Sildish/Common/model/Transliteration.swift:275-319 | a word runs to the first character whose lower case is not Sildish |
| Transliteration.VowelRunEnd | Sildish/Common/model/Transliteration.swift:254-268 | the leading loop stops at the first character that is not a vowel |
| Transliteration.NextSildish | Sildish/Common/model/Transliteration.swift:389-400 | the copy loop stops at the next Sildish character |
| Transliteration.VowelPrefixLength | Sildish/Common/model/Transliteration.swift:254-268 | the leading vowels are the longest vowel prefix |
| Transliteration.VowelSuffixLength | Sildish/Common/model/Transliteration.swift:339-346 | the longest vowel suffix |
| Transliteration.ConsonantPrefixLength | Sildish/Common/model/Transliteration.swift:331-332 | the longest consonant prefix of the unclassified run |
| Transliteration.ConsonantsOfVowels | Sildish/Common/model/Transliteration.swift:289 | a run of vowels counts no consonants |
| Transliteration.ConsonantsAt | Sildish/Common/model/Transliteration.swift:279-308 | a plain-consonant digraph counts once, any other consonant once per letter, vowels not at all |
| Transliteration.TrailingVowels | Sildish/Common/model/Transliteration.swift:321-357 | trailing vowels appear only with two or more consonants, and then they are the vowel suffix following the last consonant |
| Transliteration.Segment | Sildish/Common/model/Transliteration.swift:250-377 | the three regions spell the word, and a capitalised word has no leading vowels |
| Transliteration.SegmentOf | Sildish/Common/model/Transliteration.swift:250-377 | the regions are the vowel prefix (none when capitalised), then the rest split at the trailing length |
| Transliteration.SegmentLeading | Sildish/Common/model/Transliteration.swift:250-269 | the leading region is all vowels and, uncapitalised, is followed by a non-vowel |
| Transliteration.SegmentRest | Sildish/Common/model/Transliteration.swift:321-357 | medials and trailing vowels split the rest at the trailing length |
| Transliteration.SegmentTrailing | Sildish/Common/model/Transliteration.swift:321-357 | trailing vowels are vowels, exist only with two or more consonants, and then follow a medial consonant |
| Transliteration.Echo | Sildish/Common/model/Transliteration.swift:388-400 | the echo keeps the copied characters' count |
| Transliteration.Advance | Sildish/Common/model/Transliteration.swift:212-219 | the advancer moves one element on and holds that element lower-cased, or keeps the last at the end |
| Transliteration.LeadingVowels | Sildish/Common/model/Transliteration.swift:250-269 | the leading loop gathers the lower-cased vowel run and stops on the first non-vowel |
| Transliteration.VowelStep | Sildish/Common/model/Transliteration.swift:309-316 | a vowel joins the unclassified run and keeps the medial invariant |
| Transliteration.ConsonantStep | Sildish/Common/model/Transliteration.swift:287-308 | a consonant flips the unclassified run to the medials, starts a new run and counts one |
| Transliteration.DigraphStep | Sildish/Common/model/Transliteration.swift:292-306 | a plain-consonant digraph stays together in the new run and counts once |
| Transliteration.MedialExit | Sildish/Common/model/Transliteration.swift:275-320 | the medial loop ends exactly at the word end, with the medials and unclassified run spelling the word's rest |
| Transliteration.FlushUnclassified | Sildish/Common/model/Transliteration.swift:321-366 | the flush yields the medials and trailing vowels that split the rest at the trailing length |
| Transliteration.MedialStep | Sildish/Common/model/Transliteration.swift:277-319 | one pass of the switch advances within the word and keeps the medial invariant |
| Transliteration.MedialConsonant | Sildish/Common/model/Transliteration.swift:279-308 | the consonant case advances within the word and keeps the medial invariant |
| Transliteration.SpellsPlainConsonant | Sildish/Common/model/Transliteration.swift:292-296 | the lookup of a two-letter string is a plain consonant iff the pair is a plain-consonant digraph |
| Transliteration.MedialLoop | Sildish/Common/model/Transliteration.swift:275-320 | the loop stops at the word end, keeps every letter, and counts the consonants |
| Transliteration.ClassifyMedials | Sildish/Common/model/Transliteration.swift:270-366 | medials and trailing vowels are the word's rest split at the trailing length |
| Transliteration.CopyVerbatim | Sildish/Common/model/Transliteration.swift:388-400 | the copy loop emits the echo of the gap and stops at the next Sildish character or the end |
| Transliteration.CapitalAndLeading | Sildish/Common/model/Transliteration.swift:235-269 | an upper-case first character sets the capital mark and skips the leading loop; otherwise the leading vowels are gathered |
| Transliteration.LeadingRun | Sildish/Common/model/Transliteration.swift:237-269 | the leading run ends inside the word and is the word's vowel prefix, or empty when capitalised |
| Transliteration.WordSegment | Sildish/Common/model/Transliteration.swift:250-377 | the segmenter's buffers are exactly the regions of the lower-cased word |
| Transliteration.RegionWord | Sildish/Common/model/Transliteration.swift:226-377 | one word's pass ends at the word end with the capital mark and the word's regions |
| Transliteration.TransliterateWord | Sildish/Common/model/Transliteration.swift:226-386 | one word's glyphs are the capital mark, then the leading vowels, medials and trailing vowels rendered |
| Transliteration.WordAndGap | Sildish/Common/model/Transliteration.swift:224-404 | one turn of the outer loop strictly advances and emits the word's glyphs and the echoed gap |
| Transliteration.WordThenGap | Sildish/Common/model/Transliteration.swift:224-404 | the text from a word start is its word's glyphs, the echoed gap, then the rest |
| Transliteration.TransliterateWith | Sildish/Common/model/Transliteration.swift:201-409 | the outer loop returns the word-by-word transliteration of its input |
| Transliteration.TransliterateToSildish | Sildish/Common/model/Transliteration.swift:201-409 | `transliterateToSildish(_:)` with the production tree and alphabet |
| TransliterationLaws.RenderFlags | Sildish/Common/model/Transliteration.swift:127-128 | the selector sees first true on token 0 only and last true on the final token only |
| TransliterationLaws.RenderFlagsFrom | Sildish/Common/model/Transliteration.swift:127-128 | the same from any token on |
| TransliterationLaws.BufferBound | Sildish/Common/model/Transliteration.swift:110-126 | the buffer never holds more than the lookahead and is empty exactly when the region is consumed |
| TransliterationLaws.EmptyInput | SildishTests/TransliterationTests.swift:197 | the empty input gives the empty output |
| TransliterationLaws.EmptyWord | Sildish/Common/model/Transliteration.swift:380-386 | an empty word renders as the capital mark if capitalised, and as nothing otherwise |
| TransliterationLaws.PassThrough | Sildish/Common/model/Transliteration.swift:388-400 | text without Sildish letters, not starting upper-case, is copied unchanged |
| TransliterationLaws.CapitalWord | Sildish/Common/model/Transliteration.swift:380 | a capitalised word's glyphs begin with the capital mark |
| TransliterationLaws.CapitalizedStart | Sildish/Common/model/Transliteration.swift:237-244 | input starting upper-case is transliterated starting with U+EA00 |
| TransliterationLaws.CapitalK | Sildish/Common/model/Transliteration.swift:237-244 | "K" gives the capital mark followed by "k" echoed lower-cased |
| TransliterationLaws.SegmentAma | Sildish/Common/model/Transliteration.swift:339-342 | with one consonant the vowels after it stay medial: "ama" is leading "a", medials "ma" |
| TransliterationLaws.SegmentMana | Sildish/Common/model/Transliteration.swift:343-346 | with two consonants the final vowels trail: "mana" is medials "man", trailing "a" |
| TransliterationLaws.SegmentVella | Sildish/Common/model/Transliteration.swift:292-306 | a doubled l counts as two consonants: "vella" is medials "vell", trailing "a" |
| TransliterationLaws.SegmentAsha | Sildish/Common/model/Transliteration.swift:292-306 | a plain digraph counts as one consonant: "asha" is leading "a", medials "sha" |
| TransliterationLaws.SegmentCapitalAma | Sildish/Common/model/Transliteration.swift:237-250 | a capitalised word has no leading vowels: "ama" is all medials |
| TransliterationLaws.DoubledL | Sildish/Common/model/Transliteration.swift:58-66 | "ll" is a doubled reduplicable consonant, not a plain digraph |
| TransliterationLaws.DigraphSh | Sildish/Common/model/Transliteration.swift:26-50 | "sh" looks up to a plain consonant |
| TransliterationLaws.SildishExampleLetters | Sildish/model/SoundSystem.swift:615-668 | the production alphabet has the letters and digraphs the segmentation examples rely on |
| TransliterationLaws.SuffixFrom | Sildish/Common/model/Transliteration.swift:224-404 | the transliteration from a word start depends only on the text from there on |
| TransliterationLaws.PrefixFrom | Sildish/Common/model/Transliteration.swift:224-404 | text up to a caseless break is transliterated as if it ended there |
| TransliterationLaws.GapAtBreak | Sildish/Common/model/Transliteration.swift:388-400 | at a caseless break no word starts, and the gap is echoed |
| TransliterationLaws.SeparatedWords | SildishTests/TransliterationTests.swift:394-416 | a caseless separator between two words is copied, and each side is transliterated on its own |
| TransliterationLaws.KeyToken | Sildish/Common/model/Transliteration.swift:117-129 | a region that is itself a catalog key munches to that one token |
| TransliterationLaws.LongestKeyFirst | Sildish/Common/model/Transliteration.swift:124-126 | when no longer window prefix is a key, the munch emits that key first and continues after it |
| TransliterationLaws.TwoKeys | Sildish/Common/model/Transliteration.swift:124-126 | a four-letter region of two two-letter keys munches to those two tokens |
| TransliterationLaws.ThreeKeys | Sildish/Common/model/Transliteration.swift:124-126 | a four-letter region whose first pair is no key munches to one letter, a two-letter key and one letter |
| TransliterationLaws.KeyNonmedial | Sildish/Common/model/Transliteration.swift:139-157 | a key rendered alone as non-medial vowels is its selector glyph, first and last |
| TransliterationLaws.KeyMedial | Sildish/Common/model/Transliteration.swift:167-194 | a key rendered alone as medials is its selector glyph, first and last |
| TransliterationLaws.EmptyRegions | Sildish/Common/model/Transliteration.swift:110-131 | both renderers return the empty string for an empty region, capitalised or not |
| TransliterationLaws.NonmedialVowel | SildishTests/TransliterationTests.swift:43-57 | every vowel's or diphthong's roman renders as non-medial vowels to its bar-less glyph |
| TransliterationLaws.SingleMedial | SildishTests/TransliterationTests.swift:101-135 | every phoneme's roman renders as medials to its standard glyph if it is a vowel, otherwise to its final glyph when capitalised and its initial glyph when not |
| TransliterationLaws.DoubledMedial | SildishTests/TransliterationTests.swift:138-172 | every reduplicable consonant's doubled roman renders as medials to its final reduplicated glyph when capitalised and its initial reduplicated glyph when not |
| TransliterationLaws.MunchAeei | SildishTests/TransliterationTests.swift:68-71 | "aeei" munches to the diphthongs "ae" and "ei" |
| TransliterationLaws.MunchEoia | SildishTests/TransliterationTests.swift:80-83 | "eoia" munches to "e", the diphthong "oi" and "a", because "eo" is no key |
| TransliterationLaws.RenderAeei | SildishTests/TransliterationTests.swift:68-71 | "aeei" renders as non-medial vowels to the bar-less glyphs of "ae" then "ei" |
| TransliterationLaws.RenderEoia | SildishTests/TransliterationTests.swift:80-83 | "eoia" renders as non-medial vowels to the bar-less glyphs of "e", "oi" and "a" |
| TransliterationLaws.LoneWord | Sildish/Common/model/Transliteration.swift:201-409 | text made of one lower-case word is transliterated as that word's glyphs, with no capital mark |
| TransliterationLaws.VowelWordRegions | Sildish/Common/model/Transliteration.swift:250-366 | a word of vowels is all leading vowels |
| TransliterationLaws.ConsonantCount | Sildish/Common/model/Transliteration.swift:279-308 | a single consonant letter, or a plain-consonant digraph, counts as one consonant |
| TransliterationLaws.ConsonantWordRegions | Sildish/Common/model/Transliteration.swift:270-366 | such a consonant word is all medials |
| TransliterationLaws.AllLeading | Sildish/Common/model/Transliteration.swift:380-386 | a word that is all leading vowels renders as non-medial vowels |
| TransliterationLaws.AllMedials | Sildish/Common/model/Transliteration.swift:380-386 | a word that is all medials renders as medials, not capitalised |
| TransliterationLaws.ConsonantKeyWord | Sildish/Common/model/Transliteration.swift:201-409 | a consonant word that is a plain-consonant key transliterates to its initial glyph |
| TransliterationLaws.PhonemeWord | SildishTests/TransliterationTests.swift:200-212 | every phoneme's roman alone transliterates to its bar-less glyph if it is a vowel and to its initial glyph otherwise |
| TransliterationLaws.ClusterWord | SildishTests/TransliterationTests.swift:214-226 | every cluster's roman alone transliterates to its initial glyph |
| TransliterationLaws.Production | Sildish/model/SoundSystem.swift:675-694 | the production tree and alphabet meet the segmenter's assumptions and classify as `isSildish` |
| TransliterationLaws.SildishEmpty | SildishTests/TransliterationTests.swift:197 | `"".sildish` is "" |
| TransliterationLaws.SildishPassThrough | Sildish/Common/model/Transliteration.swift:388-400 | production text without Sildish letters, not starting upper-case, is copied unchanged |
| TransliterationLaws.SildishCapitalizedStart | Sildish/Common/model/Transliteration.swift:237-244 | production output for upper-case input starts with U+EA00 |
| TransliterationLaws.SildishCapitalK | Sildish/Common/model/Transliteration.swift:237-244 | production output for "K" is U+EA00 then "k" |
| TransliterationLaws.SildishSeparatedWords | SildishTests/TransliterationTests.swift:394-416 | production form of the separator law, for example "Celenthyon oros" and "Celenthyon-oros" |
| TransliterationLaws.SildishPhonemeWord | SildishTests/TransliterationTests.swift:200-212 | production form: `p.roman.sildish` is the bar-less glyph of a vowel and the initial glyph of a consonant |
| TransliterationLaws.SildishClusterWord | SildishTests/TransliterationTests.swift:214-226 | production form: `q.roman.sildish` is the cluster's initial glyph |
| TransliterationLaws.SildishSegments | SildishTests/TransliterationTests.swift:249-334 | the production segmenter splits "ama", "mana", "vella", "asha" and capitalised "ama" as above |

## Left out

- Unicode case mapping. `lowercased().first!` and `isUppercase` are ASCII
  `Lower`/`IsUpper`, and characters are single `char`s, not grapheme
  clusters.
- The `TransliteratableToSildish` protocol and its `String` extension
  (Sildish/Common/model/Transliteration.swift:411-435). They are a thin
  wrapper over `TransliterateToSildish`.
- The prefix tree's debug rendering (Sildish/model/PrefixTree.swift:337-378).
  It is text formatting through an output stream.
- The SwiftUI views and audio playback. They are presentation, not
  transliteration.
- Swift's generic `Sequence`/`IteratorProtocol` plumbing.
  - Sequences are `seq<char>`, and the iterator is a position with `At`
    and `Current`.
  - `build(iterator:payload:)` and `build(path:payload:)` are one function,
    `Build`, on the path.
  - The dictionary given to `build(allPaths:)` is its sequence of entries.
    Its iteration order is the entry order, and lookups are proved
    independent of it.
- Runtime traps become preconditions or lemmas, not modelled failures:
  - the `try!` on the resolver;
  - `Dictionary(uniqueKeysWithValues:)` duplicate keys;
  - the `assert`s;
  - the force-unwrap of the last payload.
- The pronunciation (IPA) strings and the glyph code points. They are
  carried as opaque strings.
- Structured exits. The `break`s out of the medial `switch` are folded into
  the loop guard. The flush then runs once after the loop, and is a no-op
  when nothing is unclassified.
- The subscript setter. It reassigns a value-typed tree, so it is the
  function `Update` rather than an in-place method.
- Transliteration.NonmedialGlyph: the source asserts on a consonant, and
  the model selects the empty string instead. `MunchVowels` proves that no
  consonant reaches that selector.
- TransliterationLaws.PassThrough: it assumes the text does not start with
  an upper-case character, because an upper-case start adds the capital
  mark (`CapitalK`).
- TransliterationLaws.SildishPassThrough: the same assumption, for the
  production tree (`SildishCapitalK` covers the upper-case start).
- TransliterationLaws.SeparatedWords: it requires a single separator
  character, a left word that is empty or ends in a Sildish letter, and a
  right part that is empty or starts with one. Runs of separators such as
  "---" are covered only through `WordThenGap`, not by this law.
- TransliterationLaws.SildishSeparatedWords: the same restrictions, for the
  production tree and alphabet.
- TransliterationLaws.SildishSegments: it fixes the segmentation of the
  example words, not their glyph strings. Evaluating the full production
  tree on concrete words is not part of this model.
- Transliteration.Echo: its contract states only the length. The
  lower-cased first character is its definition, and through it the
  statements of `CopyVerbatim`, `CapitalK` and `PassThrough`.

## Findings

| source | as written | input that shows it | evidently intended | confidence | as-written member | corrected member |
|---|---|---|---|---|---|---|
| Sildish/Common/model/Transliteration.swift:83-86 | `max` with the comparator `>` picks the consonant with the shortest roman, so `longestRomanConsonant` is 1 | the consonant `sh`, whose roman has two letters | the longest consonant roman, 2 (harmless at :175, where `max` with `longestRomanVowel` is 2 either way) | not executed | RomanToSildish.ReversedComparisonMissesLongest | RomanToSildish.IntendedLongestRomanConsonantIsLongest |
