# sensitive-words-filter, modelled in Dafny

This project models the matching engine of the `sensitive-words-filter`
library. A *word set* (`WordsCategory`, also known as `NamedWords`) is a
category name plus a set of sensitive words. A *filter* compiles one word
set into a backend state, then scans a text and reports the words it
recognises to a callback. The callback may stop the scan.

There are five backends:

- **DFA**: a trie of `DfaNode`s under a map from first character to node.
- **TIRE**: the same trie under a root node.
- **HASH_BUCKET**: buckets keyed by first character, then by length.
- **DAT**: a character set that prunes the extension of candidates, plus a
  word set.
- **TTMP**: bit signatures per character, checked before each lookup in a
  word set.

The generic filter (`BaseWordsFilter`) derives four operations from one scan:

- `contains` stops at the first report.
- `getWords` collects every report.
- `highlight` wraps every occurrence of each found word in HTML.
- `filter` overwrites every occurrence of each found word with a mask
  character.

`DefaultWordsFilterContext` keeps one filter per category in maps sorted by
name. It folds the four operations over its filters in name order, and an
interceptor may end the fold early. A process-wide cache holds one context
per backend type. `FNVHashUtils` computes 64-bit FNV-1 and FNV-1a hashes
over Java `char`s.

## How it is modelled

Each module follows one part of the program:

| module (file) | models |
|---|---|
| `Wrappers` (wrappers.dfy) | `Option`, `Result` and the exceptions as one `Error` type |
| `JavaStrings` (strings.dfy) | `isBlank`, `trim`, `isNullOrEmpty`, `Strings.repeat` and literal `replaceAll` |
| `Words` (words.dfy) | `WordsCategory` and `NamedWords` |
| `Scan` (scan.dfy) | the shared word-acceptance rule, the callback protocol and the reference list of all occurrences |
| `TrieSpec`, `Trie`, `TrieRoot` (trie_spec.dfy, trie.dfy) | `DfaNode` and the trie insert and walk shared by DFA and TIRE |
| `Dfa` (dfa.dfy) | `DfaFilter` |
| `Tire` (tire.dfy) | `TireTreeFilter` |
| `BucketSpec`, `Bucket` (bucket.dfy) | `HashBucketFilter` |
| `DatSpec`, `DatNode`, `Dat` (dat.dfy) | `DatCacheNode` and `DatFilter` |
| `TtmpSpec`, `TtmpNode`, `Ttmp` (ttmp_spec.dfy, ttmp.dfy) | `TtmpCacheNode` and `TtmpFilter` |
| `Base` (base.dfy) | `BaseWordsFilter`, `FilterType` and `buildFilter` |
| `StringOrder` (order.dfy) | the ascending key order of the sorted maps |
| `ContextSpec`, `Context` (context.dfy) | `DefaultWordsFilterContext` and its static cache |
| `Fnv` (fnv.dfy) | `FNVHashUtils` |

**Backends.** Each backend is a class that holds the state the source
mutates: trie nodes, a bucket map, a `DatCacheNode` or a `TtmpCacheNode`.
Its methods are `PutOneWord` and `Processor`, with the source's loops.

- Each `Processor` is proved against a pure function. That function is the
  list of words the scan reports to a callback that never stops.
- The callback is a function `stop: string -> bool`. `Processor` returns
  `calls`, the reports the callback receives, which are the list up to the
  first report it answers true to. It also returns whether the callback
  stopped the scan.
- Lemmas then relate each report list to `Occurrences`, the reference list
  of every occurrence of every stored word:
  - soundness for every backend;
  - completeness for the trie, bucket and DAT backends without
    `partMatch`;
  - that with `partMatch` the bucket and DAT scans report something
    exactly when they do without;
  - what the skipping of `partMatch` (trie, bucket and DAT) and of TTMP's
    `count` loses, shown on concrete inputs.

**Context.** The context is a class with the two sorted maps, as Dafny maps.
Its folds are loops proved equal to recursive fold functions. Lemmas about
those functions state what each fold computes.

**External behaviour as parameters.**
- The interceptor and the callback are function parameters.
- The iteration order of a `HashSet` is a parameter `order`, constrained only
  to list each element once.
- Exceptions are `Failure` results.
- The reflection in `buildFilter` is a `match` on the backend type.

## Model

| member | source | states |
|---|---|---|
| Words.NewWordsCategory | src/main/java/com/cnblogs/hoojo/sensitivewords/common/WordsCategory.java:16-25 | fails with IllegalArgument exactly when the category is null or empty or the word collection is null or empty; otherwise keeps the category and exactly the given words, as a non-empty set |
| Words.ElementsSize | src/main/java/com/cnblogs/hoojo/sensitivewords/common/WordsCategory.java:24 | the deduplicated word set is never larger than the given collection |
| Words.BlankAccepted | src/main/java/com/cnblogs/hoojo/sensitivewords/common/WordsCategory.java:17-22 | only emptiness is checked: a category of spaces and a blank word are accepted and kept |
| JavaStrings.TrimIsSlice | src/main/java/com/cnblogs/hoojo/sensitivewords/filter/dfa/DfaFilter.java:26 | trimming yields a slice of the word whose first and last characters are above the space |
| JavaStrings.Repeat | src/main/java/com/cnblogs/hoojo/sensitivewords/filter/BaseWordsFilter.java:130 | the mask of a word has the word's length and holds only the mask character |
| JavaStrings.ReplaceAllLength | src/main/java/com/cnblogs/hoojo/sensitivewords/filter/BaseWordsFilter.java:117 | each replaced occurrence changes the text length by the replacement length minus the word length |
| JavaStrings.CountPositive | src/main/java/com/cnblogs/hoojo/sensitivewords/filter/BaseWordsFilter.java:117 | something is replaced exactly when the word occurs in the text |
| JavaStrings.ReplaceAbsent | src/main/java/com/cnblogs/hoojo/sensitivewords/filter/BaseWordsFilter.java:117 | a text without the word comes back unchanged |
| JavaStrings.MaskShape | src/main/java/com/cnblogs/hoojo/sensitivewords/filter/BaseWordsFilter.java:130 | masking a word keeps the text length and only turns characters into the mask character |
| JavaStrings.MaskRemovesWord | src/main/java/com/cnblogs/hoojo/sensitivewords/filter/BaseWordsFilter.java:130 | after masking with a character the word does not contain, the word no longer occurs |
| Scan.StoredWords | src/main/java/com/cnblogs/hoojo/sensitivewords/filter/dfa/DfaFilter.java:22-29 | every word a trimming backend stores is at least two characters long |
| Scan.StoredWordsSpec | src/main/java/com/cnblogs/hoojo/sensitivewords/filter/dfa/DfaFilter.java:22-29 | a stored word is exactly the trimmed form of a given word that is not blank and is at least two characters long once trimmed |
| Scan.StoredWordsAdd | src/main/java/com/cnblogs/hoojo/sensitivewords/filter/BaseWordsFilter.java:50-58 | loading one more word adds its trimmed form when it is accepted, and nothing otherwise |
| Scan.UpToSpec | src/main/java/com/cnblogs/hoojo/sensitivewords/filter/BaseWordsFilter.java:142-153 | the callback sees a prefix of the reports; it answers false to all of them but possibly the last; it sees everything when it never answers true |
| Scan.UpToAppend | src/main/java/com/cnblogs/hoojo/sensitivewords/filter/BaseWordsFilter.java:142-153 | a callback that stops inside the first part never sees the second; otherwise it sees all of the first part and then the second part |
| Scan.UpToStopAtOnce | src/main/java/com/cnblogs/hoojo/sensitivewords/filter/BaseWordsFilter.java:84-93 | the callback of `contains` sees only the first report, and the scan stops exactly when there is one |
| Scan.UpToNeverStop | src/main/java/com/cnblogs/hoojo/sensitivewords/filter/BaseWordsFilter.java:95-108 | the callback of `getWords` sees every report and never stops the scan |
| Scan.OccurrencesAtSpec | src/main/java/com/cnblogs/hoojo/sensitivewords/filter/dfa/DfaFilter.java:79-104 | the reference list at a start holds exactly the stored words of the given minimum length that occur there |
| Scan.OccurrencesSpec | src/main/java/com/cnblogs/hoojo/sensitivewords/filter/dfa/DfaFilter.java:71-104 | the reference list holds exactly the non-empty stored words that occur at or after the start |
| TrieSpec.Walk | src/main/java/com/cnblogs/hoojo/sensitivewords/filter/dfa/DfaFilter.java:79-104 | the walk from a start consumes at least the matched characters and never runs past the text |
| TrieSpec.WalkThorough | src/main/java/com/cnblogs/hoojo/sensitivewords/filter/dfa/DfaFilter.java:79-104 | without `partMatch` the walk reports every stored word starting there that is longer than the matched part, shortest first |
| TrieSpec.WalkShortest | src/main/java/com/cnblogs/hoojo/sensitivewords/filter/dfa/DfaFilter.java:90-94 | with `partMatch` the walk reports only the shortest such word, or nothing |
| TrieSpec.WalkSound | src/main/java/com/cnblogs/hoojo/sensitivewords/filter/dfa/DfaFilter.java:79-104 | every word the walk reports is a stored word, longer than the matched part, occurring at the start |
| TrieSpec.ReportsThorough | src/main/java/com/cnblogs/hoojo/sensitivewords/filter/dfa/DfaFilter.java:71-109 | without `partMatch` the trie scan reports every occurrence of every stored word, nested and overlapping ones included, by start and then by length |
| TrieSpec.ReportsSound | src/main/java/com/cnblogs/hoojo/sensitivewords/filter/dfa/DfaFilter.java:71-104 | every word the trie scan reports is a stored word occurring at or after the start |
| TrieSpec.NextStart | src/main/java/com/cnblogs/hoojo/sensitivewords/filter/dfa/DfaFilter.java:106-108 | the next start lies after the current one and within one past the text |
| TrieSpec.ScanReportsSound | src/main/java/com/cnblogs/hoojo/sensitivewords/filter/dfa/DfaFilter.java:62-104 | a call reports something only when the content is neither blank nor shorter than two characters once trimmed, and each report is a stored word occurring in the trimmed content |
| TrieSpec.PartSkipsWord | src/main/java/com/cnblogs/hoojo/sensitivewords/filter/dfa/DfaFilter.java:106-108 | with words {"abc", "bd"} and text "abd", `partMatch` skips past "bd" after a walk that found nothing, and nothing is reported |
| TrieSpec.PlainFindsWord | src/main/java/com/cnblogs/hoojo/sensitivewords/filter/dfa/DfaFilter.java:95-99 | the same text without `partMatch` reports "bd" |
| Trie.DfaNode.constructor | src/main/java/com/cnblogs/hoojo/sensitivewords/filter/dfa/DfaNode.java:21-23 | a new node holds its character, is not a word and has no child map |
| Trie.DfaNode.SetWord | src/main/java/com/cnblogs/hoojo/sensitivewords/filter/dfa/DfaNode.java:41-47 | `isWord` reads back what `setWord` set |
| Trie.DfaNode.AddChild | src/main/java/com/cnblogs/hoojo/sensitivewords/filter/dfa/DfaNode.java:61-68 | the child map is created when missing; the child is stored under its character and replaces an earlier one; the node is no longer a leaf; no other character changes |
| Trie.DfaNode.RemoveChild | src/main/java/com/cnblogs/hoojo/sensitivewords/filter/dfa/DfaNode.java:70-74 | only the entry of the child's character is removed, and nothing happens without a child map |
| Trie.DfaNode.Find | src/main/java/com/cnblogs/hoojo/sensitivewords/filter/dfa/DfaNode.java:84-89 | the lookup yields the child stored for the character, or null exactly when there is none |
| Trie.LeafIffChildless | src/main/java/com/cnblogs/hoojo/sensitivewords/filter/dfa/DfaNode.java:49-51 | a node is a leaf exactly when it has no child |
| Trie.LeafMeaning | src/main/java/com/cnblogs/hoojo/sensitivewords/filter/dfa/DfaFilter.java:101-103 | in a built trie, a node is a leaf exactly when no stored word extends its path |
| Trie.NextNode | src/main/java/com/cnblogs/hoojo/sensitivewords/filter/dfa/DfaFilter.java:83-99 | the child lookup of the walk is null exactly when no stored word begins with the extended path; a child found is a word exactly when the path is a stored word |
| Trie.ExtendPath | src/main/java/com/cnblogs/hoojo/sensitivewords/filter/dfa/DfaFilter.java:38-55 | the insert loop leaves a trie of the enlarged word set; the word's last node is marked; existing nodes are reused and new ones are fresh |
| Trie.ExtendInner | src/main/java/com/cnblogs/hoojo/sensitivewords/filter/dfa/DfaFilter.java:38-50 | the loop builds the path of every prefix of the word but the whole word |
| Trie.ExtendStep | src/main/java/com/cnblogs/hoojo/sensitivewords/filter/dfa/DfaFilter.java:39-50 | one turn finds the child for the next character, or creates it, and re-attaches it; only that path is added |
| Trie.AttachNew | src/main/java/com/cnblogs/hoojo/sensitivewords/filter/dfa/DfaFilter.java:45-49 | a missing child is created fresh and attached, keeping the trie well formed |
| Trie.MarkWord | src/main/java/com/cnblogs/hoojo/sensitivewords/filter/dfa/DfaFilter.java:52-54 | marking the last node adds the word to the set the trie holds |
| Trie.WalkFrom | src/main/java/com/cnblogs/hoojo/sensitivewords/filter/dfa/DfaFilter.java:79-104 | the inner loop delivers the walk's reports to the callback up to its first true answer and returns how many characters it matched |
| Trie.WalkNext | src/main/java/com/cnblogs/hoojo/sensitivewords/filter/dfa/DfaFilter.java:83-103 | one step of the walk: a missing child ends it; a word found with `partMatch` ends it after the report; a leaf ends it; otherwise it goes on |
| TrieRoot.RootStart | src/main/java/com/cnblogs/hoojo/sensitivewords/filter/dfa/DfaFilter.java:74-77 | a root entry exists for a character exactly when a stored word begins with it, and it is a leaf exactly when no longer stored word does |
| TrieRoot.RootAdded | src/main/java/com/cnblogs/hoojo/sensitivewords/filter/dfa/DfaFilter.java:32-36 | a new root entry keeps the trie well formed |
| TrieRoot.KeysGrown | src/main/java/com/cnblogs/hoojo/sensitivewords/filter/dfa/DfaFilter.java:31-56 | after an insert, the trie's nodes are exactly the non-empty prefixes of the stored words |
| TrieRoot.InsertWord | src/main/java/com/cnblogs/hoojo/sensitivewords/filter/dfa/DfaFilter.java:31-56 | inserting a word yields a well-formed trie of the enlarged word set with the word marked; root entries and nodes are kept and new nodes are fresh |
| TrieRoot.FindOrAddRoot | src/main/java/com/cnblogs/hoojo/sensitivewords/filter/dfa/DfaFilter.java:31-36 | the root entry of the first character is found, or created and put under it |
| TrieRoot.GrowWord | src/main/java/com/cnblogs/hoojo/sensitivewords/filter/dfa/DfaFilter.java:38-56 | the part of the insert below the root entry adds the word's path and no root entry |
| TrieRoot.ScanTrie | src/main/java/com/cnblogs/hoojo/sensitivewords/filter/dfa/DfaFilter.java:71-111 | the outer loop gives the callback the trie scan's reports up to its first true answer, and returns whether it stopped |
| TrieRoot.ScanStart | src/main/java/com/cnblogs/hoojo/sensitivewords/filter/dfa/DfaFilter.java:72-108 | one start is skipped when its root entry is missing or a leaf, and walked otherwise; the scan moves to the next start |
| TrieRoot.ScanWalk | src/main/java/com/cnblogs/hoojo/sensitivewords/filter/dfa/DfaFilter.java:79-108 | a walked start reports its walk, and the scan goes on one past the start, or past the matched characters with `partMatch` |
| Dfa.DfaFilter.constructor | src/main/java/com/cnblogs/hoojo/sensitivewords/filter/dfa/DfaFilter.java:15-17 | the state built from a word set holds exactly its stored words, in fresh nodes |
| Dfa.DfaFilter.Load | src/main/java/com/cnblogs/hoojo/sensitivewords/filter/BaseWordsFilter.java:50-58 | putting every word of the set into an empty state stores exactly the set's stored words |
| Dfa.DfaFilter.PutOneWord | src/main/java/com/cnblogs/hoojo/sensitivewords/filter/dfa/DfaFilter.java:19-58 | a blank word, or one shorter than two characters once trimmed, is refused and changes nothing; otherwise the trimmed word is stored and its node marked, and existing nodes are kept |
| Dfa.DfaFilter.Processor | src/main/java/com/cnblogs/hoojo/sensitivewords/filter/dfa/DfaFilter.java:60-112 | the callback receives the scan's reports up to its first true answer; the result is whether it answered true |
| Dfa.DfaFilter.RootEntriesInner | src/main/java/com/cnblogs/hoojo/sensitivewords/filter/dfa/DfaFilter.java:31-36 | root entries are never marked as words and are never leaves |
| Tire.TireTreeFilter.constructor | src/main/java/com/cnblogs/hoojo/sensitivewords/filter/tire/TireTreeFilter.java:20-27 | the root is a fresh node for the space, and the trie below it holds exactly the set's stored words |
| Tire.TireTreeFilter.Load | src/main/java/com/cnblogs/hoojo/sensitivewords/filter/BaseWordsFilter.java:50-58 | putting every word of the set stores exactly the set's stored words |
| Tire.TireTreeFilter.PutOneWord | src/main/java/com/cnblogs/hoojo/sensitivewords/filter/tire/TireTreeFilter.java:29-68 | a blank or short word is refused and changes nothing; otherwise the trimmed word is stored and marked and existing nodes are kept |
| Tire.TireTreeFilter.Processor | src/main/java/com/cnblogs/hoojo/sensitivewords/filter/tire/TireTreeFilter.java:80-132 | the callback receives the scan's reports up to its first true answer; the result is whether it answered true |
| Tire.InsertUnder | src/main/java/com/cnblogs/hoojo/sensitivewords/filter/tire/TireTreeFilter.java:41-65 | the insert below the root yields a well-formed trie of the enlarged word set, with the word marked and old nodes kept |
| Tire.FindOrAddChild | src/main/java/com/cnblogs/hoojo/sensitivewords/filter/tire/TireTreeFilter.java:41-46 | the root's child for the first character is found, or created and added |
| BucketSpec.BucketedSpec | src/main/java/com/cnblogs/hoojo/sensitivewords/filter/bucket/HashBucketFilter.java:40-53 | a word sits in the bucket of a first character and a length exactly when it is a stored word with that first character and length |
| BucketSpec.BucketedAdd | src/main/java/com/cnblogs/hoojo/sensitivewords/filter/bucket/HashBucketFilter.java:40-53 | putting a word creates its bucket map and bucket when missing and adds it; the result is the bucketing of the enlarged set, so putting a word twice changes nothing |
| BucketSpec.FirstGrown | src/main/java/com/cnblogs/hoojo/sensitivewords/filter/bucket/HashBucketFilter.java:42-53 | the bucket map of the word's first character gains the word's bucket |
| BucketSpec.OtherFirstKept | src/main/java/com/cnblogs/hoojo/sensitivewords/filter/bucket/HashBucketFilter.java:42-46 | the bucket maps of other first characters are kept |
| BucketSpec.Ascending | src/main/java/com/cnblogs/hoojo/sensitivewords/filter/bucket/HashBucketFilter.java:79-80 | the sizes iterated are exactly the bucket lengths, smallest first |
| BucketSpec.AscendingSorted | src/main/java/com/cnblogs/hoojo/sensitivewords/filter/bucket/HashBucketFilter.java:79-80 | the sizes are iterated in strictly ascending order |
| BucketSpec.ProbeAcc | src/main/java/com/cnblogs/hoojo/sensitivewords/filter/bucket/HashBucketFilter.java:80-98 | the sizes loop never moves the position backwards, nor past the text |
| BucketSpec.ProbeSound | src/main/java/com/cnblogs/hoojo/sensitivewords/filter/bucket/HashBucketFilter.java:82-91 | every word the sizes loop reports is a stored word occurring in the text |
| BucketSpec.ScanSound | src/main/java/com/cnblogs/hoojo/sensitivewords/filter/bucket/HashBucketFilter.java:70-99 | every word the scan reports is a stored word occurring in the text |
| BucketSpec.BucketReportsSound | src/main/java/com/cnblogs/hoojo/sensitivewords/filter/bucket/HashBucketFilter.java:61-99 | a call reports only for content neither blank nor short once trimmed, and only stored words occurring in the trimmed content |
| BucketSpec.ProbeThorough | src/main/java/com/cnblogs/hoojo/sensitivewords/filter/bucket/HashBucketFilter.java:80-98 | without `partMatch`, the sizes loop at a position reports every stored word starting there, shortest first |
| BucketSpec.ProbeTooLong | src/main/java/com/cnblogs/hoojo/sensitivewords/filter/bucket/HashBucketFilter.java:82-84 | sizes that run past the end of the text report nothing |
| BucketSpec.NoFirstNoOccurrence | src/main/java/com/cnblogs/hoojo/sensitivewords/filter/bucket/HashBucketFilter.java:74-76 | a position whose character begins no stored word has no occurrence |
| BucketSpec.ScanThorough | src/main/java/com/cnblogs/hoojo/sensitivewords/filter/bucket/HashBucketFilter.java:70-99 | without `partMatch`, the scan reports every occurrence of every stored word, by start and then by length |
| BucketSpec.ProbeNothing | src/main/java/com/cnblogs/hoojo/sensitivewords/filter/bucket/HashBucketFilter.java:94-96 | the sizes loop reports nothing with `partMatch` exactly when it reports nothing without, and while it reports nothing it does not move the position |
| BucketSpec.ContainsAgree | src/main/java/com/cnblogs/hoojo/sensitivewords/filter/bucket/HashBucketFilter.java:70-99 | the scan reports something with `partMatch` exactly when it does without |
| BucketSpec.PartSkipsBucket | src/main/java/com/cnblogs/hoojo/sensitivewords/filter/bucket/HashBucketFilter.java:94-96 | with words {"ab", "bc"} and text "abc", the jump after the hit "ab" means `partMatch` reports only "ab", while the plain scan also reports "bc" |
| Bucket.HashBucketFilter.constructor | src/main/java/com/cnblogs/hoojo/sensitivewords/filter/bucket/HashBucketFilter.java:18-25 | the state built from a word set is the bucketing of its stored words |
| Bucket.HashBucketFilter.PutOneWord | src/main/java/com/cnblogs/hoojo/sensitivewords/filter/bucket/HashBucketFilter.java:27-56 | a blank or short word is refused and changes nothing; otherwise the trimmed word is added to the buckets |
| Bucket.HashBucketFilter.Processor | src/main/java/com/cnblogs/hoojo/sensitivewords/filter/bucket/HashBucketFilter.java:58-102 | the callback receives the scan's reports up to its first true answer; the result is whether it answered true |
| Bucket.ScanPosition | src/main/java/com/cnblogs/hoojo/sensitivewords/filter/bucket/HashBucketFilter.java:71-98 | one position of the outer loop is skipped or probed, and the scan moves on past it |
| Bucket.BucketKeys | src/main/java/com/cnblogs/hoojo/sensitivewords/filter/bucket/HashBucketFilter.java:78-87 | the bucket map of a first character has exactly the lengths of its words as keys, each with its bucket |
| Bucket.ProbeSizes | src/main/java/com/cnblogs/hoojo/sensitivewords/filter/bucket/HashBucketFilter.java:79-98 | the sizes loop makes the callback calls of the probe, in ascending size order |
| Bucket.ProbeSize | src/main/java/com/cnblogs/hoojo/sensitivewords/filter/bucket/HashBucketFilter.java:81-97 | one size reports the slice when it fits and is in its bucket, and with `partMatch` moves the position by the word length |
| DatSpec.AllCharsAdd | src/main/java/com/cnblogs/hoojo/sensitivewords/filter/dat/DatFilter.java:42-44 | storing a word adds exactly its characters to the character set |
| DatSpec.AllCharsCover | src/main/java/com/cnblogs/hoojo/sensitivewords/filter/dat/DatFilter.java:40-44 | every character of every stored word is in the character set |
| DatSpec.InnerEnd | src/main/java/com/cnblogs/hoojo/sensitivewords/filter/dat/DatFilter.java:69-75 | the extension stops at the end of the text or at a character outside the set |
| DatSpec.InnerHit | src/main/java/com/cnblogs/hoojo/sensitivewords/filter/dat/DatFilter.java:77-90 | a candidate that is a stored word is reported, and with `partMatch` the start jumps past it |
| DatSpec.InnerMiss | src/main/java/com/cnblogs/hoojo/sensitivewords/filter/dat/DatFilter.java:77-90 | a candidate that is not a stored word only extends the candidate |
| DatSpec.OuterSound | src/main/java/com/cnblogs/hoojo/sensitivewords/filter/dat/DatFilter.java:61-92 | every word the scan reports is a stored word occurring in the text |
| DatSpec.InnerSound | src/main/java/com/cnblogs/hoojo/sensitivewords/filter/dat/DatFilter.java:68-91 | every word the extension reports is a stored word occurring in the text |
| DatSpec.DatReportsSound | src/main/java/com/cnblogs/hoojo/sensitivewords/filter/dat/DatFilter.java:50-95 | a call reports only for content neither blank nor short once trimmed, and only stored words occurring in the trimmed content |
| DatSpec.OutsideEnds | src/main/java/com/cnblogs/hoojo/sensitivewords/filter/dat/DatFilter.java:72-75 | once a character outside the set is met, no longer stored word starts at the start |
| DatSpec.OuterThorough | src/main/java/com/cnblogs/hoojo/sensitivewords/filter/dat/DatFilter.java:61-92 | without `partMatch`, and with every character of every stored word in the set, the scan reports every occurrence of every stored word |
| DatSpec.InnerThorough | src/main/java/com/cnblogs/hoojo/sensitivewords/filter/dat/DatFilter.java:68-91 | without `partMatch`, the extension from a start reports every stored word starting there that is at least as long as the candidate |
| DatSpec.OuterContainsAgree | src/main/java/com/cnblogs/hoojo/sensitivewords/filter/dat/DatFilter.java:61-92 | the scan reports something with `partMatch` exactly when it does without |
| DatSpec.PartSkipsDat | src/main/java/com/cnblogs/hoojo/sensitivewords/filter/dat/DatFilter.java:85-87 | with words {"ab", "bc"} and text "abc", the jump after the hit "ab" means `partMatch` never tries the start 1 and reports only "ab", while the plain scan also reports "bc" |
| DatNode.DatCacheNode.constructor | src/main/java/com/cnblogs/hoojo/sensitivewords/filter/dat/DatCacheNode.java:22-25 | both sets start empty |
| DatNode.DatCacheNode.GetChars | src/main/java/com/cnblogs/hoojo/sensitivewords/filter/dat/DatCacheNode.java:27-29 | the getter yields the node's character set, the one `putOneWord` extends |
| DatNode.DatCacheNode.GetWords | src/main/java/com/cnblogs/hoojo/sensitivewords/filter/dat/DatCacheNode.java:35-37 | the getter yields the node's word set, the one `putOneWord` extends |
| DatNode.DatCacheNode.SetChars | src/main/java/com/cnblogs/hoojo/sensitivewords/filter/dat/DatCacheNode.java:31-33 | the character set is replaced and the word set kept |
| DatNode.DatCacheNode.SetWords | src/main/java/com/cnblogs/hoojo/sensitivewords/filter/dat/DatCacheNode.java:39-41 | the word set is replaced and the character set kept |
| Dat.DatFilter.constructor | src/main/java/com/cnblogs/hoojo/sensitivewords/filter/dat/DatFilter.java:20-27 | the state built from a word set holds exactly its stored words and their characters |
| Dat.DatFilter.PutOneWord | src/main/java/com/cnblogs/hoojo/sensitivewords/filter/dat/DatFilter.java:29-47 | a blank or short word is refused and changes nothing; otherwise the trimmed word joins the word set and its characters join the character set |
| Dat.DatFilter.Processor | src/main/java/com/cnblogs/hoojo/sensitivewords/filter/dat/DatFilter.java:49-95 | the callback receives the scan's reports up to its first true answer; the result is whether it answered true |
| Dat.DatFilter.ScanFrom | src/main/java/com/cnblogs/hoojo/sensitivewords/filter/dat/DatFilter.java:68-91 | the extension loop from a start makes the callback calls of the extension, and the outer loop resumes where it left the start |
| TtmpSpec.BitSet | src/main/java/com/cnblogs/hoojo/sensitivewords/filter/ttmp/TtmpFilter.java:38 | or-ing in a bit sets that bit and keeps every other |
| TtmpSpec.EmptyTables | src/main/java/com/cnblogs/hoojo/sensitivewords/filter/ttmp/TtmpFilter.java:26-28 | the tables of a fresh node hold no word |
| TtmpSpec.SetBitSpec | src/main/java/com/cnblogs/hoojo/sensitivewords/filter/ttmp/TtmpFilter.java:55-58 | setting bit `i` of one slot sets exactly that bit |
| TtmpSpec.MarkSpec | src/main/java/com/cnblogs/hoojo/sensitivewords/filter/ttmp/TtmpFilter.java:36-48 | after marking, bit `k` of a character's slot is set exactly when it was before or the character sits at an offset `p` of the word with `min(p, 7) == k`; bits are never cleared |
| TtmpSpec.FastCheckAdd | src/main/java/com/cnblogs/hoojo/sensitivewords/filter/ttmp/TtmpFilter.java:36-48 | the offset bits stay exact for the enlarged word set |
| TtmpSpec.FastLengthAdd | src/main/java/com/cnblogs/hoojo/sensitivewords/filter/ttmp/TtmpFilter.java:55-58 | the first character's length bit `min(7, len - 2)` stays exact |
| TtmpSpec.EndCheckAdd | src/main/java/com/cnblogs/hoojo/sensitivewords/filter/ttmp/TtmpFilter.java:53 | the last-character table stays exact |
| TtmpSpec.ShortAdd | src/main/java/com/cnblogs/hoojo/sensitivewords/filter/ttmp/TtmpFilter.java:50-51 | a one-character word only sets its `charCheck` slot |
| TtmpSpec.LongAdd | src/main/java/com/cnblogs/hoojo/sensitivewords/filter/ttmp/TtmpFilter.java:52-61 | a longer word joins `hash` and leaves `charCheck` as it is |
| TtmpSpec.LengthsAdd | src/main/java/com/cnblogs/hoojo/sensitivewords/filter/ttmp/TtmpFilter.java:33-34 | the length bounds are the maximum and minimum length of the words put |
| TtmpSpec.AddWordHolds | src/main/java/com/cnblogs/hoojo/sensitivewords/filter/ttmp/TtmpFilter.java:31-64 | putting a non-empty word keeps every table exact for the enlarged word set |
| TtmpSpec.SkipTo | src/main/java/com/cnblogs/hoojo/sensitivewords/filter/ttmp/TtmpFilter.java:79-80 | the search for a first character stays within the text and moves whenever it can |
| TtmpSpec.Start | src/main/java/com/cnblogs/hoojo/sensitivewords/filter/ttmp/TtmpFilter.java:76-85 | a round starts at or after its index and within the text |
| TtmpSpec.WindowCount | src/main/java/com/cnblogs/hoojo/sensitivewords/filter/ttmp/TtmpFilter.java:96-101 | the count of non-first characters never decreases |
| TtmpSpec.Next | src/main/java/com/cnblogs/hoojo/sensitivewords/filter/ttmp/TtmpFilter.java:121-125 | every round moves the index forward, so the scan ends |
| TtmpSpec.Rounds | src/main/java/com/cnblogs/hoojo/sensitivewords/filter/ttmp/TtmpFilter.java:73-126 | every start the scan visits lies within the text |
| TtmpSpec.WindowEndMeans | src/main/java/com/cnblogs/hoojo/sensitivewords/filter/ttmp/TtmpFilter.java:96-105 | the window loop ends only where no longer stored word can begin at the start |
| TtmpSpec.HitMeans | src/main/java/com/cnblogs/hoojo/sensitivewords/filter/ttmp/TtmpFilter.java:107-112 | the pruning tests pass and the lookup hits exactly when the slice is a stored word |
| TtmpSpec.WindowExact | src/main/java/com/cnblogs/hoojo/sensitivewords/filter/ttmp/TtmpFilter.java:96-119 | the window loop reports every stored word of two or more characters starting there, shortest first |
| TtmpSpec.SingleMeans | src/main/java/com/cnblogs/hoojo/sensitivewords/filter/ttmp/TtmpFilter.java:88-93 | the one-character report is made exactly when that character is a stored word |
| TtmpSpec.RoundExact | src/main/java/com/cnblogs/hoojo/sensitivewords/filter/ttmp/TtmpFilter.java:85-119 | a round reports every stored word beginning at its start, shortest first |
| TtmpSpec.ScanExact | src/main/java/com/cnblogs/hoojo/sensitivewords/filter/ttmp/TtmpFilter.java:72-126 | the scan reports, start by start, every stored word at each start it visits |
| TtmpSpec.FoundAtSpec | src/main/java/com/cnblogs/hoojo/sensitivewords/filter/ttmp/TtmpFilter.java:72-126 | those reports are exactly the stored words occurring at a visited start |
| TtmpSpec.TtmpReportsSpec | src/main/java/com/cnblogs/hoojo/sensitivewords/filter/ttmp/TtmpFilter.java:66-129 | a call reports a word exactly when the content is not blank and the word is a stored word occurring in the trimmed content at a visited start |
| TtmpSpec.CountSkipsRounds | src/main/java/com/cnblogs/hoojo/sensitivewords/filter/ttmp/TtmpFilter.java:121-125 | with words {"ab", "bc"} and text "abc", the scan without `partMatch` visits starts 0 and 2 only |
| TtmpSpec.CountSkipsWord | src/main/java/com/cnblogs/hoojo/sensitivewords/filter/ttmp/TtmpFilter.java:99-101 | so "bc" is never reported although it occurs |
| TtmpNode.TtmpCacheNode.constructor | src/main/java/com/cnblogs/hoojo/sensitivewords/filter/ttmp/TtmpFilter.java:26-28 | a fresh node holds empty tables, a shortest length of `Integer.MAX_VALUE` and a longest length of 0 |
| Ttmp.TtmpFilter.constructor | src/main/java/com/cnblogs/hoojo/sensitivewords/filter/ttmp/TtmpFilter.java:26-28 | `createState` gives a fresh node that holds no word |
| Ttmp.TtmpFilter.PutOneWord | src/main/java/com/cnblogs/hoojo/sensitivewords/filter/ttmp/TtmpFilter.java:30-64 | an empty word fails after the shortest length is set to 0; any other word is added to the tables untrimmed, and the answer is always false |
| Ttmp.TtmpFilter.Processor | src/main/java/com/cnblogs/hoojo/sensitivewords/filter/ttmp/TtmpFilter.java:66-129 | the callback receives the scan's reports up to its first true answer; the result is whether it answered true |
| Ttmp.NewTtmpFilter | src/main/java/com/cnblogs/hoojo/sensitivewords/filter/ttmp/TtmpFilter.java:21-23 | building fails exactly when the word set holds the empty word; otherwise the tables hold exactly the set's words |
| Ttmp.ScanRound | src/main/java/com/cnblogs/hoojo/sensitivewords/filter/ttmp/TtmpFilter.java:74-125 | one round makes the callback calls of the round and moves to the next index |
| Ttmp.SkipFrom | src/main/java/com/cnblogs/hoojo/sensitivewords/filter/ttmp/TtmpFilter.java:79-80 | the search loop ends where the search function says |
| Ttmp.Window | src/main/java/com/cnblogs/hoojo/sensitivewords/filter/ttmp/TtmpFilter.java:96-119 | the window loop makes the callback calls of the window and counts its non-first characters |
| Ttmp.MarkFastCheck | src/main/java/com/cnblogs/hoojo/sensitivewords/filter/ttmp/TtmpFilter.java:36-48 | the two marking loops set the offset bits of every character of the word |
| Ttmp.PutSignature | src/main/java/com/cnblogs/hoojo/sensitivewords/filter/ttmp/TtmpFilter.java:33-61 | the table updates succeed exactly for a non-empty word and add it; for the empty word only the length bounds change, taking in the length 0 |
| Fnv.Fnv1 | src/main/java/com/cnblogs/hoojo/sensitivewords/filter/simhash/FNVHashUtils.java:37-48 | the reference FNV-1 hash (reduced mod 2^64 after each step) is a 64-bit value |
| Fnv.Fnv1a | src/main/java/com/cnblogs/hoojo/sensitivewords/filter/simhash/FNVHashUtils.java:53-64 | the reference FNV-1a hash (reduced mod 2^64 after each step) is a 64-bit value |
| Fnv.Hash64 | src/main/java/com/cnblogs/hoojo/sensitivewords/filter/simhash/FNVHashUtils.java:37-48 | the loop (multiply by the prime, xor the character, mask at the end) computes FNV-1 |
| Fnv.Hash64a | src/main/java/com/cnblogs/hoojo/sensitivewords/filter/simhash/FNVHashUtils.java:53-64 | the loop (xor the character, multiply by the prime, mask at the end) computes FNV-1a |
| Fnv.EmptyIsOffsetBasis | src/main/java/com/cnblogs/hoojo/sensitivewords/filter/simhash/FNVHashUtils.java:23 | both hashes of the empty text are the offset basis 14695981039346656037 |
| Fnv.MaskOnceFnv1 | src/main/java/com/cnblogs/hoojo/sensitivewords/filter/simhash/FNVHashUtils.java:41-45 | masking once after the unbounded FNV-1 loop equals reducing mod 2^64 after every step |
| Fnv.MaskOnceFnv1a | src/main/java/com/cnblogs/hoojo/sensitivewords/filter/simhash/FNVHashUtils.java:57-61 | the same holds for FNV-1a |
| Fnv.MulMod | src/main/java/com/cnblogs/hoojo/sensitivewords/filter/simhash/FNVHashUtils.java:42 | multiplying by the prime commutes with reduction mod 2^64 |
| Fnv.XorMod | src/main/java/com/cnblogs/hoojo/sensitivewords/filter/simhash/FNVHashUtils.java:43 | xor with a 16-bit character commutes with reduction mod 2^64 |
| Fnv.XorCharBound | src/main/java/com/cnblogs/hoojo/sensitivewords/filter/simhash/FNVHashUtils.java:43 | xor with a character keeps a value below 2^64 |
| StringOrder.BelowIrreflexive | src/main/java/com/cnblogs/hoojo/sensitivewords/context/DefaultWordsFilterContext.java:26-27 | no name sorts before itself |
| StringOrder.BelowTransitive | src/main/java/com/cnblogs/hoojo/sensitivewords/context/DefaultWordsFilterContext.java:26-27 | the name order is transitive |
| StringOrder.BelowTotal | src/main/java/com/cnblogs/hoojo/sensitivewords/context/DefaultWordsFilterContext.java:26-27 | of two distinct names one sorts first |
| StringOrder.BelowAsymmetric | src/main/java/com/cnblogs/hoojo/sensitivewords/context/DefaultWordsFilterContext.java:26-27 | two names never sort before each other |
| StringOrder.LeastExists | src/main/java/com/cnblogs/hoojo/sensitivewords/context/DefaultWordsFilterContext.java:119 | a non-empty map has a first key |
| StringOrder.LeastUnique | src/main/java/com/cnblogs/hoojo/sensitivewords/context/DefaultWordsFilterContext.java:119 | the first key is unique |
| StringOrder.Ascending | src/main/java/com/cnblogs/hoojo/sensitivewords/context/DefaultWordsFilterContext.java:119 | iteration lists as many names as there are keys, the first key first |
| StringOrder.AscendingSorted | src/main/java/com/cnblogs/hoojo/sensitivewords/context/DefaultWordsFilterContext.java:119 | iteration lists exactly the keys, in strictly ascending order |
| StringOrder.AscendingKeys | src/main/java/com/cnblogs/hoojo/sensitivewords/context/DefaultWordsFilterContext.java:119 | the loop that takes the least remaining key yields the ascending key list |
| Base.FilterName | src/main/java/com/cnblogs/hoojo/sensitivewords/filter/BaseWordsFilter.java:32 | the name is the category behind a fixed five-character prefix ("null\|", because `getName()` is still null when the name is formatted) |
| Base.FilterNameInjective | src/main/java/com/cnblogs/hoojo/sensitivewords/filter/BaseWordsFilter.java:32 | two filters have the same name exactly when they have the same category |
| Base.ReportsSound | src/main/java/com/cnblogs/hoojo/sensitivewords/filter/BaseWordsFilter.java:82 | whichever the backend, each report is a non-empty stored word occurring in the trimmed content |
| Base.ReportsNonEmpty | src/main/java/com/cnblogs/hoojo/sensitivewords/filter/BaseWordsFilter.java:82 | no backend reports the empty word |
| Base.ThoroughFindsAll | src/main/java/com/cnblogs/hoojo/sensitivewords/filter/BaseWordsFilter.java:82 | without `partMatch`, the DFA, TIRE, HASH_BUCKET and DAT backends report exactly the stored words occurring in the trimmed content |
| Base.BuildFilter | src/main/java/com/cnblogs/hoojo/sensitivewords/context/DefaultWordsFilterContext.java:55-62 | building fails with CreateWordsFilter exactly for a TTMP filter of a set with the empty word; otherwise it gives a valid, fresh filter of the type for the set |
| Base.NewDfaFilter | src/main/java/com/cnblogs/hoojo/sensitivewords/context/FilterType.java:25 | the DFA type builds a valid `DfaFilter` of the set |
| Base.NewTireFilter | src/main/java/com/cnblogs/hoojo/sensitivewords/context/FilterType.java:26 | the TIRE type builds a valid `TireTreeFilter` of the set |
| Base.Processor | src/main/java/com/cnblogs/hoojo/sensitivewords/filter/BaseWordsFilter.java:82 | the backend's `processor` makes the callback calls of the filter's report list |
| Base.Contains | src/main/java/com/cnblogs/hoojo/sensitivewords/filter/BaseWordsFilter.java:84-93 | `contains` is true exactly when the filter reports some word |
| Base.GetWords | src/main/java/com/cnblogs/hoojo/sensitivewords/filter/BaseWordsFilter.java:95-108 | `getWords` returns exactly the set of reported words, none of them empty |
| Base.FoundSpec | src/main/java/com/cnblogs/hoojo/sensitivewords/filter/BaseWordsFilter.java:84-108 | `contains` is true exactly when `getWords` is non-empty, and a collected word was reported |
| Base.ReportsLiteral | src/main/java/com/cnblogs/hoojo/sensitivewords/filter/BaseWordsFilter.java:117 | reports cut from plain-text words are plain text |
| Base.IterationNonEmpty | src/main/java/com/cnblogs/hoojo/sensitivewords/filter/BaseWordsFilter.java:114-116 | iterating over the found words yields only non-empty words |
| Base.IterationOfNothing | src/main/java/com/cnblogs/hoojo/sensitivewords/filter/BaseWordsFilter.java:114-116 | iterating over no words yields nothing |
| Base.Highlight | src/main/java/com/cnblogs/hoojo/sensitivewords/filter/BaseWordsFilter.java:110-121 | `highlight` wraps every occurrence of each found word, in iteration order, in the red-font template |
| Base.Filter | src/main/java/com/cnblogs/hoojo/sensitivewords/filter/BaseWordsFilter.java:123-134 | `filter` overwrites every occurrence of each found word, in iteration order, with the mask character repeated to the word's length |
| Base.MaskAllShape | src/main/java/com/cnblogs/hoojo/sensitivewords/filter/BaseWordsFilter.java:127-131 | masking keeps the length of the text and only turns characters into the mask character |
| Base.MaskKeepsAbsent | src/main/java/com/cnblogs/hoojo/sensitivewords/filter/BaseWordsFilter.java:127-131 | masking never makes a word occur that did not occur, as long as the word does not contain the mask character |
| Base.MaskAllRemoves | src/main/java/com/cnblogs/hoojo/sensitivewords/filter/BaseWordsFilter.java:127-131 | after `filter`, no masked word occurs any more unless it contains the mask character |
| Base.HighlightOneLength | src/main/java/com/cnblogs/hoojo/sensitivewords/filter/BaseWordsFilter.java:25 | highlighting one word lengthens the text by 25 characters per occurrence |
| Base.HighlightAbsent | src/main/java/com/cnblogs/hoojo/sensitivewords/filter/BaseWordsFilter.java:114-120 | a text in which no found word occurs comes back unchanged |
| ContextSpec.ContainsFoldAll | src/main/java/com/cnblogs/hoojo/sensitivewords/context/DefaultWordsFilterContext.java:116-127 | without an interceptor, `contains` is true exactly when some filter reports a word |
| ContextSpec.ContainsStopOnHit | src/test/java/com/cnblogs/hoojo/sensitivewords/context/DefaultWordsFilterContextTest.java:108-117 | an interceptor that stops at the first filter with a hit gives the same answer as none |
| ContextSpec.ContainsFoldTrue | src/main/java/com/cnblogs/hoojo/sensitivewords/context/DefaultWordsFilterContext.java:121 | once true, the result of `contains` stays true, whatever the interceptor |
| ContextSpec.MatchFoldAll | src/main/java/com/cnblogs/hoojo/sensitivewords/context/DefaultWordsFilterContext.java:150-161 | without an interceptor, `match` is the union of what every filter finds |
| ContextSpec.MatchFoldSound | src/main/java/com/cnblogs/hoojo/sensitivewords/context/DefaultWordsFilterContext.java:150-161 | whatever the interceptor, `match` only holds words some filter found |
| ContextSpec.MaskFoldShape | src/main/java/com/cnblogs/hoojo/sensitivewords/context/DefaultWordsFilterContext.java:221-231 | `filter` of the context keeps the text length and only turns characters into the mask character |
| ContextSpec.MaskFoldRemovesFirst | src/main/java/com/cnblogs/hoojo/sensitivewords/context/DefaultWordsFilterContext.java:221-231 | a word the first filter finds no longer occurs after `filter`, unless it contains the mask character |
| ContextSpec.HighlightFoldQuiet | src/main/java/com/cnblogs/hoojo/sensitivewords/context/DefaultWordsFilterContext.java:184-194 | when no filter finds anything, `highlight` returns the text unchanged |
| ContextSpec.CatalogAdd | src/main/java/com/cnblogs/hoojo/sensitivewords/context/DefaultWordsFilterContext.java:98-103 | putting a filter under its name and its word set under its category keeps the two maps in lock-step |
| ContextSpec.Catalog | src/main/java/com/cnblogs/hoojo/sensitivewords/context/DefaultWordsFilterContext.java:24-32 | each category maps to a word set of that category |
| ContextSpec.CatalogStep | src/main/java/com/cnblogs/hoojo/sensitivewords/context/DefaultWordsFilterContext.java:29-31 | each word set of the list, in turn, replaces the entry of its category |
| ContextSpec.RefusedStep | src/main/java/com/cnblogs/hoojo/sensitivewords/context/DefaultWordsFilterContext.java:29-31 | building fails at the first word set whose filter cannot be built |
| ContextSpec.CatalogKeys | src/main/java/com/cnblogs/hoojo/sensitivewords/context/DefaultWordsFilterContext.java:24-32 | the categories of a built context are those of the word sets given |
| ContextSpec.CatalogSize | src/test/java/com/cnblogs/hoojo/sensitivewords/context/DefaultWordsFilterContextTest.java:77 | word sets of distinct categories give as many category names |
| ContextSpec.NamesSize | src/test/java/com/cnblogs/hoojo/sensitivewords/context/DefaultWordsFilterContextTest.java:78 | distinct categories give as many filter names |
| Context.DefaultWordsFilterContext.constructor | src/main/java/com/cnblogs/hoojo/sensitivewords/context/DefaultWordsFilterContext.java:24-27 | a new context of a type has empty category and filter maps |
| Context.DefaultWordsFilterContext.NamesInLockStep | src/main/java/com/cnblogs/hoojo/sensitivewords/context/DefaultWordsFilterContext.java:76-88 | the filter names are the names of the categories and as many; `containsCategory` is true exactly when the category's filter name is present |
| Context.DefaultWordsFilterContext.CreateOrUpdate | src/main/java/com/cnblogs/hoojo/sensitivewords/context/DefaultWordsFilterContext.java:97-105 | when `buildFilter` fails neither map changes; otherwise exactly the entries of this filter name and this category are replaced |
| Context.DefaultWordsFilterContext.Contains | src/main/java/com/cnblogs/hoojo/sensitivewords/context/DefaultWordsFilterContext.java:115-127 | null or empty content fails with IllegalArgument; otherwise the answer is the or-fold over the filters in name order, ended by the interceptor |
| Context.DefaultWordsFilterContext.Match | src/main/java/com/cnblogs/hoojo/sensitivewords/context/DefaultWordsFilterContext.java:149-161 | null or empty content fails; otherwise the answer is the union-fold over the filters in name order, ended by the interceptor |
| Context.DefaultWordsFilterContext.Highlight | src/main/java/com/cnblogs/hoojo/sensitivewords/context/DefaultWordsFilterContext.java:183-194 | null or empty content fails; otherwise each filter highlights the text the previous one returned, in name order, until the interceptor ends the run |
| Context.DefaultWordsFilterContext.Filter | src/main/java/com/cnblogs/hoojo/sensitivewords/context/DefaultWordsFilterContext.java:220-231 | null or empty content fails; otherwise each filter masks the text the previous one returned, in name order, until the interceptor ends the run |
| Context.PutFilter | src/main/java/com/cnblogs/hoojo/sensitivewords/context/DefaultWordsFilterContext.java:99-100 | the built filter is put under its name, and nothing changes when building fails |
| Context.OrderedKeys | src/main/java/com/cnblogs/hoojo/sensitivewords/context/DefaultWordsFilterContext.java:119 | the filters are visited in ascending name order |
| Context.ContainsOne | src/main/java/com/cnblogs/hoojo/sensitivewords/context/DefaultWordsFilterContext.java:120 | one filter's `contains` is true exactly when it reports a word |
| Context.MatchOne | src/main/java/com/cnblogs/hoojo/sensitivewords/context/DefaultWordsFilterContext.java:154 | one filter's `match` is the set of its reports |
| Context.HighlightOne | src/main/java/com/cnblogs/hoojo/sensitivewords/context/DefaultWordsFilterContext.java:188 | one filter's `highlight` wraps each word it found |
| Context.MaskOne | src/main/java/com/cnblogs/hoojo/sensitivewords/context/DefaultWordsFilterContext.java:225 | one filter's `filter` masks each word it found |
| Context.ContainsAll | src/main/java/com/cnblogs/hoojo/sensitivewords/context/DefaultWordsFilterContext.java:118-126 | the `contains` loop computes the or-fold |
| Context.MatchAll | src/main/java/com/cnblogs/hoojo/sensitivewords/context/DefaultWordsFilterContext.java:152-160 | the `match` loop computes the union-fold |
| Context.HighlightAllFilters | src/main/java/com/cnblogs/hoojo/sensitivewords/context/DefaultWordsFilterContext.java:186-193 | the `highlight` loop computes the sequential composition |
| Context.MaskAllFilters | src/main/java/com/cnblogs/hoojo/sensitivewords/context/DefaultWordsFilterContext.java:223-230 | the `filter` loop computes the sequential composition |
| Context.Build | src/main/java/com/cnblogs/hoojo/sensitivewords/context/DefaultWordsFilterContext.java:42-45 | building fails exactly when some word set's filter cannot be built; otherwise the context's categories are the catalog of the list |
| Context.ContextCache.constructor | src/main/java/com/cnblogs/hoojo/sensitivewords/context/DefaultWordsFilterContext.java:234 | the cache starts empty |
| Context.ContextCache.GetContext | src/main/java/com/cnblogs/hoojo/sensitivewords/context/DefaultWordsFilterContext.java:243-250 | fails with ContextNotInitialized exactly for a type never loaded, and yields the cached context otherwise |
| Context.ContextCache.ReloadContext | src/main/java/com/cnblogs/hoojo/sensitivewords/context/DefaultWordsFilterContext.java:260-264 | a new context replaces only that type's entry; a failed build leaves the cache as it was |
| Context.ContextCache.Put | src/main/java/com/cnblogs/hoojo/sensitivewords/context/DefaultWordsFilterContext.java:262 | the context is stored under its type and the other types' entries are kept |
| Context.ContextCache.ReloadFilter | src/main/java/com/cnblogs/hoojo/sensitivewords/context/DefaultWordsFilterContext.java:275-278 | fails exactly when there is no context of the type (ContextNotInitialized) or the filter cannot be built (CreateWordsFilter, and then neither map of the context changes); otherwise the context's two maps get the entries of the new filter, and no other context changes |
| Context.ContextCache.Clear | src/main/java/com/cnblogs/hoojo/sensitivewords/context/DefaultWordsFilterContext.java:284-286 | the cache becomes empty |

## Left out

- `SIMHASH`: the SimHash backend is not part of this model. Its build and its membership test rest on `SimHashUtils`, which is not part of this model either. `FilterType` is modelled without it.
- Logging (`ApplicationLogging` and every logger call) is output only and is left out.
- Concurrency: `ConcurrentSkipListMap` and the static `CONTEXT_CACHE` are modelled as sequential sorted maps. The cache is an object (`ContextCache`) rather than a static field.
- Reflection: `buildFilter` looks up a constructor by `Class`. This is a `match` on the backend type, and the wrapped exception is a `CreateWordsFilter` failure.
- Base.Highlight: requires every word to be plain text (no regular-expression metacharacter). `replaceAll` treats the word as a pattern, and that case is not modelled.
- Base.Filter: requires plain-text words, and a mask character other than `$` and `\`, which `replaceAll` treats specially in a replacement.
- Context.DefaultWordsFilterContext.Highlight: the same plain-text requirement as `Base.Highlight`.
- Context.DefaultWordsFilterContext.Filter: the same plain-text and mask-character requirements as `Base.Filter`.
- Base.Highlight and Base.Filter: the iteration order of a `HashSet` is a parameter. It is constrained only to list each found word once, so no property depends on a particular order.
- BucketSpec.Ascending: the sizes of a bucket map are iterated in ascending order. This is what a `HashMap` of small `Integer` keys yields, but it is not a documented guarantee.
- Characters: a Dafny `char` stands for one UTF-16 unit of a Java `char`, and surrogate pairs are not treated specially. `Character.isWhitespace` is written out for single `char`s. The `char`-indexed arrays of `TtmpCacheNode` are maps whose missing keys read as zero or false.
- `TtmpCacheNode.java` and `TireTreeNode.java` are not part of this model:
  - the TTMP tables, their starting values (`Integer.MAX_VALUE` and 0 as the length bounds) and their types are inferred from their use in `TtmpFilter`;
  - `TireTreeNode` is modelled by the `DfaNode` class, since `find`, `addChild`, `isLeaf`, `isWord` and `setWord` are used in the same way.
- `DfaNode`: the unused `parent` field, `getParent`/`setParent`, `setChar`, `setChilds`, `main` and `print` are not modelled. The node's character is fixed at construction.
- The `WordsFilter` and `WordsFilterContext` interfaces are not modelled: their signatures disagree with the implementations. The context's `filter.match` is the filter's `getWords`, and `getWordsCategory` is its word set.
- `NamedWords` is the same type as `WordsCategory`, since the two classes are identical: its constructor (common/NamedWords.java:13-22) makes the same checks and copy as `Words.NewWordsCategory`.
- Callbacks are pure functions of the reported word. The word set that `getWords` fills through its callback is computed from the list of calls instead.
- Part-match scanning: for the trie, bucket and DAT backends, `partMatch` scans are proved sound. For bucket and DAT they are also proved to agree with plain scans on whether anything is reported. Concrete inputs (`TrieSpec.PartSkipsWord`, `BucketSpec.PartSkipsBucket`, `DatSpec.PartSkipsDat`) show what the skipping loses. There is no exact characterisation of which words a `partMatch` scan finds.
- DatNode.DatCacheNode.GetChars and DatNode.DatCacheNode.GetWords: Java returns the node's own mutable sets, and `DatFilter.putOneWord` adds to them through that alias. In Dafny a set is a value, so `Dat.DatFilter.PutOneWord` assigns the enlarged sets to the node's fields instead. The resulting state is the same, but the sharing of one set object is not modelled.
- The word-file loading of the context test is input/output and is left out.
