# SpamFilter feature pipeline, modelled in Dafny

SpamFilter turns labelled e-mail samples into TF-IDF feature vectors. This
project models that pipeline and proves what it computes. The pipeline has
these parts:

- **Token filter.** `Corpus.FilterWord` trims punctuation and rejects
  numbers, stop words and one-letter words.
- **Counting.** `ExtractTokensFromSample` and `ExtractTokens` count the words
  of each sample and the number of samples that contain each word (the
  document frequency).
- **Feature selection.** `SelectFeatures` keeps the `k` words of highest
  document frequency.
- **Data set.** `ConstructDataSet` builds one labelled `FeatureVector` per
  sample and cosine-normalises it.
- **Normalisers.** A `StemmedCorpus` runs each token through an
  unsupervised `Stemmer`. The stemmer builds a graph of prefix and suffix
  fragments (morphemes) and walks it to a stem. A `MappedCorpus` runs each
  token through a `LexicalMapper`, which merges words that co-occur
  significantly.

Modules, one file each:

| file | module | models |
|---|---|---|
| `wrappers.dfy` | `Wrappers` | `Option`, standing for `null` and for a thrown exception |
| `text.dfy` | `Text` | `Split(' ')` and `Split(',')`, `Trim`, `ToLower`, case-insensitive `string.Compare` |
| `tallies.dfy` | `Tallies` | `Dictionary<T, int>` used as a counter, with its insertion order |
| `feature_vector.dfy` | `FeatureVectors` | class `FeatureVector`: both indexers, `ToCSV`, `FromCSV` |
| `stemmer.dfy` | `Stemming` | `Split`, `SplitPhase`, `GetNode`, `ConnectNodes`, `MorphemeNode.FindStem`, class `Stemmer` |
| `lexical_mapper.dfy` | `LexicalMapping` | class `LexicalMapper`: counting, significance selection, `Map` |
| `corpus.dfy` | `Corpora` | class `Corpus`, with `StemmedCorpus` and `MappedCorpus` as its normaliser |

Modelling choices:

- **Insertion order.** A .NET `Dictionary` or `HashSet` that is only ever
  added to enumerates in insertion order. A `Tally` is therefore an `order`
  sequence of keys plus a `count` map, and a link set is a duplicate-free
  sequence.
- **The morpheme graph.** `MorphemeNode` objects are always created through
  the token-keyed `nodes` dictionary, so a node is identified by its token.
  The graph is an arena `map<string, MorphemeNode>`, and the nodes are
  values.
- **Corpus subclasses.** The three corpus classes are one class `Corpus`
  with a `normaliser` field: `Basic`, `WithStemmer(stemSize, stemmer)` or
  `WithMapper(mapper)`. The stemmer or mapper is `None` until features are
  first selected. `SelectFeatures` and `FilterWord` dispatch on it as the
  overrides do.
- **Shared samples.** The copy constructors share `Samples` with the corpus
  they copy, so the samples live in a `SampleList` object that both corpora
  point to.
- **Numbers.** Doubles become exact reals. `Math.Log`, `Math.Sqrt`,
  `decimal.TryParse`, and the double formatting and parsing of the CSV row
  are function parameters (`ln`, `sqrt`, `isNumber`, `fmt`, `parse`).
- **Exceptions.** Where the source throws, on a missing key or an index
  past the end, the model returns `None` or an `ok` flag. Where a throw
  comes from the caller's input, such as a duplicate key given to
  `Dictionary.Add`, it becomes a `requires`.

The model follows the code as written in two places where the comments
promise otherwise:

- `ExtractTokensFromSample` never fills `usedWords`. Every occurrence of a
  word is therefore counted, not once per document (SpamFilter/Corpus.cs:84-100).
- `GetNode` adds a fragment to `nodes` before `SplitPhase` asks whether
  `nodes` contains it. The fragment enqueues at SpamFilter/Stemmer.cs:131-138
  therefore never fire, and only the corpus words are ever split.

## Model

| member | source | states |
|---|---|---|
| `Text.IndexOf` | SpamFilter/FeatureVector.cs:44 | the position of the first occurrence of a present key: it holds the key and no earlier position does |
| `Text.Lower` | SpamFilter/Corpus.cs:174 | `ToLower` keeps the length and lowers each character on its own |
| `Text.LowerChar` | SpamFilter/Corpus.cs:174 | the lowered character is never upper case, and a character that is not upper case is unchanged |
| `Text.LowerFacts` | SpamFilter/Corpus.cs:174 | a lowered word is lower case, and lowering a lower-case word changes nothing |
| `Text.SubstringOfSelf` | SpamFilter/Stemmer.cs:26 | a word is a substring of itself: the stem of a node without out-links |
| `Text.SubstringTransitive` | SpamFilter/Stemmer.cs:61 | a substring of a substring is a substring: the stem of a recursive `FindStem` call |
| `Text.SubstringOfLower` | SpamFilter/StemmedCorpus.cs:38 | every substring of a lower-case word is lower case |
| `Text.SplitOn` | SpamFilter/Corpus.cs:75 | `String.Split` on one character always yields at least one field |
| `Text.SplitWithout` | SpamFilter/FeatureVector.cs:81 | a string without the separator splits into itself alone |
| `Text.SplitAtFirst` | SpamFilter/FeatureVector.cs:81 | splitting `a + sep + b`, with no separator in `a`, yields `a` followed by the fields of `b` |
| `Text.SplitJoin` | SpamFilter/FeatureVector.cs:81 | splitting fields joined by a separator that none of them contains gives back exactly those fields |
| `Text.TrimmedStart` | SpamFilter/Corpus.cs:164 | the first position from `i` on that holds no trimmed character, or the end; every position skipped holds a trimmed character |
| `Text.TrimmedEnd` | SpamFilter/Corpus.cs:164 | the end after the last position below `j` that holds no trimmed character, or `lo`; every position cut off holds a trimmed character |
| `Text.Trim` | SpamFilter/Corpus.cs:164 | `Trim(chars)` gives a stretch of the token whose first and last characters are not among `chars`, and everything removed before and after it is among `chars`, so only leading and trailing characters are stripped |
| `Text.LexLessIrreflexive` | SpamFilter/LexicalMapper.cs:38 | no word sorts before itself |
| `Text.LexLessTransitive` | SpamFilter/LexicalMapper.cs:38 | the ordering of `string.Compare` is transitive |
| `Text.LexLessTotal` | SpamFilter/LexicalMapper.cs:38 | of two different words, one sorts before the other |
| `Text.LexLessAsymmetric` | SpamFilter/LexicalMapper.cs:38 | two words never each sort before the other |
| `Tallies.OccurrencesAppend` | SpamFilter/LexicalMapper.cs:22-30 | occurrences in a concatenation add up |
| `Tallies.OccurrencesPositive` | SpamFilter/LexicalMapper.cs:27-29 | a value occurs at least once exactly when it is in the sequence |
| `Tallies.OccurrencesDistinct` | SpamFilter/Corpus.cs:124-129 | in a duplicate-free sequence a value occurs once or not at all |
| `Tallies.SumCountsIncrement` | SpamFilter/Corpus.cs:96-97 | incrementing the count of a present key adds one to the sum of the counts |
| `Tallies.SumCountsUnchanged` | SpamFilter/Corpus.cs:98-99 | setting the count of an absent key leaves the sum over the present keys unchanged |
| `Tallies.SumCountsAppend` | SpamFilter/Corpus.cs:98-99 | appending a key adds its count to the sum |
| `Tallies.AddCounts` | SpamFilter/LexicalMapper.cs:27-29 | counting one more value keeps the keys duplicate-free and counted, and adds one to the sum of the counts |
| `Tallies.TallyOfCounts` | SpamFilter/LexicalMapper.cs:22-30 | counting a sequence gives a duplicate-free key list holding exactly its values, each counted once per occurrence, with counts summing to its length |
| `Tallies.TallyOfSnoc` | SpamFilter/LexicalMapper.cs:27-29 | counting one more value is one `Add` on the earlier counts |
| `FeatureVectors.FeatureVector.Labelled` | SpamFilter/FeatureVector.cs:15-21 | the names are the given distinct features in order, every value is 0 and the label is `isSpam` |
| `FeatureVectors.FeatureVector.Unlabelled` | SpamFilter/FeatureVector.cs:23-29 | the names are the given distinct features in order, every value is 0 and there is no label |
| `FeatureVectors.FeatureVector.ValueOf` | SpamFilter/FeatureVector.cs:36-41 | reading by name yields a value exactly when the name is a feature, and then the value at that feature's position |
| `FeatureVectors.FeatureVector.ValueAt` | SpamFilter/FeatureVector.cs:48-53 | reading by position yields a value exactly when the position is below `Count` |
| `FeatureVectors.FeatureVector.SetByName` | SpamFilter/FeatureVector.cs:42-45 | an existing feature's cell alone is updated; a new name is appended with its value; the label is kept |
| `FeatureVectors.FeatureVector.SetAt` | SpamFilter/FeatureVector.cs:54-58 | succeeds exactly for a position below `Count` and then changes only that cell; names and label are kept |
| `FeatureVectors.FeatureVector.ToCSV` | SpamFilter/FeatureVector.cs:61-76 | the row is every value followed by a comma, then `unknown`, `spam` or `legit` for no label, true or false |
| `FeatureVectors.FeatureVector.FromCSV` | SpamFilter/FeatureVector.cs:78-92 | the leading fields overwrite the leading positions until one does not parse or runs past `Count`; it succeeds exactly when all of them are stored, and only then does the last field set the label |
| `FeatureVectors.NameAndPositionAgree` | SpamFilter/FeatureVector.cs:36-59 | reading the `i`-th feature by name and position `i` reach the same cell |
| `FeatureVectors.CellsAppend` | SpamFilter/FeatureVector.cs:65-66 | one more value adds its formatted field and a comma to the row |
| `FeatureVectors.CellsSplit` | SpamFilter/FeatureVector.cs:81 | splitting the cells of a row on commas gives the formatted values, then the fields of the rest |
| `FeatureVectors.FormattedCons` | SpamFilter/FeatureVector.cs:65-66 | the formatted fields start with the first value's field |
| `FeatureVectors.RowFields` | SpamFilter/FeatureVector.cs:61-81 | a written row splits into exactly `Count` value fields and one label field |
| `FeatureVectors.StoredFrom` | SpamFilter/FeatureVector.cs:83-84 | the number of leading fields `FromCSV` stores lies between its start and the number of value fields |
| `FeatureVectors.Overwrite` | SpamFilter/FeatureVector.cs:83-84 | overwriting keeps the vector's length |
| `FeatureVectors.StoredFromAll` | SpamFilter/FeatureVector.cs:83-84 | every value field is stored when all of them parse and they fit in the vector |
| `FeatureVectors.RowRoundTrip` | SpamFilter/FeatureVector.cs:61-92 | `FromCSV(ToCSV())` stores every value and restores values and label, when parsing inverts formatting and no formatted value holds a comma |
| `Stemming.FirstBest` | SpamFilter/Stemmer.cs:219-227 | the candidate the sort puts first is one of the candidates |
| `Stemming.FirstBestAppend` | SpamFilter/Stemmer.cs:219-227 | a later candidate becomes the first only with a strictly higher score |
| `Stemming.HighestScored` | SpamFilter/Stemmer.cs:219-227 | the loop finds the position of the first candidate of highest score |
| `Stemming.Split` | SpamFilter/Stemmer.cs:186-230 | the nested loops return the split the row-major scan specifies: a whole-word split at once, else the first best-scoring good split, else four empty fragments |
| `Stemming.ScanShape` | SpamFilter/Stemmer.cs:191-213 | the scan returns its start candidate or a good split of the two words |
| `Stemming.SplitShape` | SpamFilter/Stemmer.cs:186-230 | `Split` returns four empty fragments exactly when no split point is good, and otherwise a good split `(a[..i], a[i..], b[..j], b[j..])` |
| `Stemming.FirstWholePoint` | SpamFilter/Stemmer.cs:204-207 | if some good split has a whole-word fragment, `Split` returns such a split |
| `Stemming.ScanWhole` | SpamFilter/Stemmer.cs:204-207 | the scan stops at the first good whole-word split from where it starts |
| `Stemming.SplitWholeFirst` | SpamFilter/Stemmer.cs:204-207 | the split returned is the first good whole-word split in row-major order |
| `Stemming.ScanMax` | SpamFilter/Stemmer.cs:209-229 | without whole-word splits, the scan's result scores at least as high as every good split still ahead of it |
| `Stemming.SplitBestScore` | SpamFilter/Stemmer.cs:209-229 | without whole-word splits, `Split` returns a good split of maximal score |
| `Stemming.SplitPieces` | SpamFilter/Stemmer.cs:195-198 | every fragment is empty, the whole word, or a non-empty proper prefix or suffix of its word |
| `Stemming.AddLink` | SpamFilter/Stemmer.cs:181-182 | adding to a link set keeps it duplicate-free and adds exactly the new link |
| `Stemming.GetNode` | SpamFilter/Stemmer.cs:159-174 | the empty key gives no node and no change; any other key gives its node, created empty when missing, and other nodes are untouched |
| `Stemming.ConnectNodes` | SpamFilter/Stemmer.cs:176-183 | no node is added; a missing or identical target changes nothing; otherwise the target joins the source's out-links and the source joins the target's in-links, and nothing else changes |
| `Stemming.LinkFragment` | SpamFilter/Stemmer.cs:126-129 | linking a fragment adds at most the fragment as a node, and a non-empty fragment is then a node |
| `Stemming.PairStep` | SpamFilter/Stemmer.cs:119-129 | one pair of corpus words only adds nodes |
| `Stemming.RowStep` | SpamFilter/Stemmer.cs:117-139 | one dequeued word against every corpus word only adds nodes |
| `Stemming.Init` | SpamFilter/Stemmer.cs:106-110 | every corpus word has a node |
| `Stemming.InitAppend` | SpamFilter/Stemmer.cs:106-110 | one more corpus word adds one node with no links |
| `Stemming.Rows` | SpamFilter/Stemmer.cs:112-140 | after any number of dequeued words every corpus word still has a node |
| `Stemming.Graph` | SpamFilter/Stemmer.cs:103-141 | the built graph has a node for every corpus word, each keyed by its token, and every out-link leads to a non-empty proper prefix or suffix |
| `Stemming.GraphWellFormed` | SpamFilter/Stemmer.cs:103-141 | the built graph has duplicate-free and mirrored link sets, shortening out-links, and out-links only on corpus words |
| `Stemming.InitWellFormed` | SpamFilter/Stemmer.cs:106-110 | the initial graph satisfies the graph invariant |
| `Stemming.ConnectWellFormed` | SpamFilter/Stemmer.cs:176-183 | connecting a corpus word to one of its proper prefixes or suffixes keeps the graph invariant |
| `Stemming.ConnectKeepsNodes` | SpamFilter/Stemmer.cs:176-183 | connecting keeps the corpus nodes, tokens as keys, duplicate-free link sets, and no out-links on fragments |
| `Stemming.ConnectKeepsOutLinks` | SpamFilter/Stemmer.cs:181 | connecting to a proper piece keeps every out-link shortening and mirrored by an in-link |
| `Stemming.ConnectKeepsInLinks` | SpamFilter/Stemmer.cs:182 | connecting keeps every in-link mirrored by an out-link |
| `Stemming.GetNodeWellFormed` | SpamFilter/Stemmer.cs:159-174 | creating a node keeps the graph invariant |
| `Stemming.LinkFragmentWellFormed` | SpamFilter/Stemmer.cs:126-129 | linking a corpus word to one of its own fragments keeps the graph invariant |
| `Stemming.PairStepWellFormed` | SpamFilter/Stemmer.cs:119-129 | one pair of corpus words keeps the graph invariant |
| `Stemming.RowStepWellFormed` | SpamFilter/Stemmer.cs:117-139 | one dequeued word keeps the graph invariant |
| `Stemming.RowsWellFormed` | SpamFilter/Stemmer.cs:112-140 | the graph invariant holds after every dequeued word |
| `Stemming.PathShortens` | SpamFilter/Stemmer.cs:126-129 | along any walk over out-links the tokens strictly shorten, so the graph has no cycle and `FindStem` ends |
| `Stemming.Link` | SpamFilter/Stemmer.cs:126-129 | `ConnectNodes(node, GetNode(fragment, nodes))` is linking that fragment |
| `Stemming.SplitPair` | SpamFilter/Stemmer.cs:119-138 | one pair step links the four fragments and never adds to the queue |
| `Stemming.SplitRow` | SpamFilter/Stemmer.cs:117-139 | the inner loop applies the pair step to every corpus word and leaves the queue unchanged |
| `Stemming.Initialise` | SpamFilter/Stemmer.cs:106-110 | the initial graph has one empty node per distinct corpus word, and the queue holds the corpus in order |
| `Stemming.SplitPhase` | SpamFilter/Stemmer.cs:103-141 | the queue only ever holds corpus words, and the graph built is the specified one |
| `Stemming.Support` | SpamFilter/Stemmer.cs:34-39 | the support count of a neighbour is at most its in-degree |
| `Stemming.SupportZero` | SpamFilter/Stemmer.cs:40-43 | a neighbour has no support exactly when none of its in-links is an in-link of the node |
| `Stemming.Partition` | SpamFilter/Stemmer.cs:31-44 | every out-link joins exactly one list; the supported ones carry their positive support |
| `Stemming.MostSupported` | SpamFilter/Stemmer.cs:46-61 | the chosen neighbour exists exactly when some is supported, and its ratio `support/in-degree` is the highest |
| `Stemming.LeastLinked` | SpamFilter/Stemmer.cs:63-75 | the chosen neighbour exists exactly when the list is non-empty, and no neighbour has a smaller in-degree |
| `Stemming.Follow` | SpamFilter/Stemmer.cs:23-81 | the node `FindStem` recurses into, if any, is one of its out-links and has a strictly shorter token |
| `Stemming.PieceSubstring` | SpamFilter/Stemmer.cs:195-198 | a proper prefix or suffix is a substring |
| `Stemming.StemOfSubstring` | SpamFilter/Stemmer.cs:23-81 | the stem is the word itself or a non-empty, strictly shorter substring of it |
| `Stemming.StemOfNode` | SpamFilter/Stemmer.cs:23-81 | the stem is a node of the graph |
| `Stemming.StemOfFixpoint` | SpamFilter/Stemmer.cs:23-81 | the stem's own stem is itself |
| `Stemming.CountSupport` | SpamFilter/Stemmer.cs:34-39 | the inner loop computes the support count |
| `Stemming.PartitionSnoc` | SpamFilter/Stemmer.cs:40-43 | one more out-link joins the supported list with its support, or else the linked list |
| `Stemming.PartitionStep` | SpamFilter/Stemmer.cs:31-44 | one iteration of the out-link loop extends the partition by that out-link |
| `Stemming.PartitionLinks` | SpamFilter/Stemmer.cs:28-44 | the out-link loop splits the out-links into supported and unsupported ones |
| `Stemming.MostSupportedOf` | SpamFilter/Stemmer.cs:49-59 | the loop picks the first supported neighbour of highest ratio |
| `Stemming.LeastLinkedOf` | SpamFilter/Stemmer.cs:66-75 | the loop picks the first neighbour of least in-degree |
| `Stemming.NodeFindStem` | SpamFilter/Stemmer.cs:23-81 | `MorphemeNode.FindStem` returns the token of the stem the walk rules specify |
| `Stemming.FindStem` | SpamFilter/Stemmer.cs:143-149 | a word without a node is its own stem; otherwise it is the stem of its node |
| `Stemming.StemTable` | SpamFilter/Stemmer.cs:99-100 | the table maps exactly the corpus words, each to its stem in the built graph |
| `Stemming.StemsOf` | SpamFilter/Stemmer.cs:99-100 | the table after `n` words has exactly those words as keys |
| `Stemming.StemsTable` | SpamFilter/Stemmer.cs:99-100 | each of the first `n` words maps to its stem |
| `Stemming.StemAll` | SpamFilter/Stemmer.cs:99-100 | the constructor's loop stores `FindStem` of every corpus word |
| `Stemming.Stemmer.constructor` | SpamFilter/Stemmer.cs:90-101 | the stemmer keeps the distinct corpus words and maps each to its stem in the graph built from them |
| `Stemming.Stemmer.Stem` | SpamFilter/Stemmer.cs:151-157 | a word outside the corpus is returned unchanged; a corpus word gets its stem |
| `Stemming.StemIdempotent` | SpamFilter/Stemmer.cs:151-157 | stemming a stem changes nothing |
| `Stemming.StemSubstring` | SpamFilter/Stemmer.cs:151-157 | a stem is a substring of its word, and non-empty for a non-empty word |
| `LexicalMapping.PairKey` | SpamFilter/LexicalMapper.cs:36-41 | the key holds both words, with the case-insensitively smaller one first when they differ ignoring case |
| `LexicalMapping.RowPairs` | SpamFilter/LexicalMapper.cs:32-46 | the inner loop adds one key for each later position, made of words of the document |
| `LexicalMapping.DocPairs` | SpamFilter/LexicalMapper.cs:24-46 | every key of a document is made of words of that document |
| `LexicalMapping.CorpusPairs` | SpamFilter/LexicalMapper.cs:22-48 | every counted key is made of words of the documents |
| `LexicalMapping.DocPairsLength` | SpamFilter/LexicalMapper.cs:24-46 | a document of `n` words contributes `n(n-1)/2` keys |
| `LexicalMapping.CorpusPairsLength` | SpamFilter/LexicalMapper.cs:22-48 | the pair counts add up to the sum of `n(n-1)/2` over the documents |
| `LexicalMapping.RowPairsOrdered` | SpamFilter/LexicalMapper.cs:36-41 | with no word repeated ignoring case, each key of a row has its case-insensitively smaller word first |
| `LexicalMapping.DocPairsOrdered` | SpamFilter/LexicalMapper.cs:36-41 | the same for a whole document |
| `LexicalMapping.CorpusPairsOrdered` | SpamFilter/LexicalMapper.cs:36-41 | the same for all documents |
| `LexicalMapping.CountRow` | SpamFilter/LexicalMapper.cs:32-46 | the inner loop counts the keys of one row |
| `LexicalMapping.CountDocument` | SpamFilter/LexicalMapper.cs:24-47 | the loop over a document counts its words, its tokens and its keys |
| `LexicalMapping.CountTokens` | SpamFilter/LexicalMapper.cs:22-48 | `df` counts the words of all documents, `pairings` the keys and `omega` the tokens |
| `LexicalMapping.WordCounts` | SpamFilter/LexicalMapper.cs:22-30 | `df[w]` is the number of occurrences of `w`, and the counts add up to `omega` |
| `LexicalMapping.PairCounts` | SpamFilter/LexicalMapper.cs:32-46 | each key is counted once per occurrence, and twice the total is the sum of `n(n-1)` over the documents |
| `LexicalMapping.Verdict` | SpamFilter/LexicalMapper.cs:55-89 | a key is accepted exactly when both words are in at least `documents / 80` documents (integer division), the larger of the two conditional probabilities is at least 0.7 and the two differ by less than 0.8; an accepted key maps one of its words to the other with that larger probability |
| `LexicalMapping.DivideMore` | SpamFilter/LexicalMapper.cs:61-63 | dividing by a larger number gives no more |
| `LexicalMapping.DivideMoreStrict` | SpamFilter/LexicalMapper.cs:61-63 | dividing a positive number by a strictly larger one gives strictly less |
| `LexicalMapping.VerdictDirection` | SpamFilter/LexicalMapper.cs:74-84 | `Item1` maps to `Item2` only when `Item2` is in fewer documents; otherwise the target is in no more documents than the source |
| `LexicalMapping.VerdictRanked` | SpamFilter/LexicalMapper.cs:74-84 | for an ordered key, the target is in fewer documents than the source, or equally many and case-insensitively smaller |
| `LexicalMapping.SelectOrigin` | SpamFilter/LexicalMapper.cs:86-89 | every stored source, target and probability is the verdict of some counted key |
| `LexicalMapping.SelectBest` | SpamFilter/LexicalMapper.cs:86-89 | every accepted verdict's source is stored, with a probability no smaller than that verdict's |
| `LexicalMapping.PairsCounted` | SpamFilter/LexicalMapper.cs:52-59 | every counted key has both its words counted in at least one document |
| `LexicalMapping.Cancel` | SpamFilter/LexicalMapper.cs:55-63 | the token total cancels from `P(a^b)/P(b)` |
| `LexicalMapping.Significance` | SpamFilter/LexicalMapper.cs:50-91 | the loop over the keys stores the selection the significance rule specifies |
| `LexicalMapping.PrecedesIrreflexive` | SpamFilter/LexicalMapper.cs:74-84 | no word ranks before itself |
| `LexicalMapping.PrecedesTransitive` | SpamFilter/LexicalMapper.cs:74-84 | the ranking by document frequency, then case-insensitive order, is transitive |
| `LexicalMapping.MappingsRanked` | SpamFilter/LexicalMapper.cs:74-95 | with no word repeated in a document, every target ranks strictly before its source |
| `LexicalMapping.MappingTargets` | SpamFilter/LexicalMapper.cs:93-95 | every source and target is a word of the documents |
| `LexicalMapping.PairsNeedTokens` | SpamFilter/LexicalMapper.cs:55-59 | when a key was counted, some token was counted, so `omega` is positive |
| `LexicalMapping.SubsetSize` | SpamFilter/LexicalMapper.cs:102-109 | a subset is no larger |
| `LexicalMapping.LexicalMapper.constructor` | SpamFilter/LexicalMapper.cs:14-96 | the mappings are the specified selection from the documents, and are ranked when no document repeats a word ignoring case |
| `LexicalMapping.LexicalMapper.AheadShrinks` | SpamFilter/LexicalMapper.cs:102-109 | following a mapping leaves fewer mapped words ranked ahead, so `Map` ends |
| `LexicalMapping.LexicalMapper.Map` | SpamFilter/LexicalMapper.cs:98-112 | `Map` follows the mappings to the end of the chain |
| `LexicalMapping.LexicalMapper.ResolveEnds` | SpamFilter/LexicalMapper.cs:98-112 | the result is not mapped further; an unmapped word, the empty word included, maps to itself |
| `LexicalMapping.LexicalMapper.ResolveIdempotent` | SpamFilter/LexicalMapper.cs:98-112 | mapping a mapped word again changes nothing |
| `Corpora.BaseFilter` | SpamFilter/Corpus.cs:160-186 | the filter gives `""` or the lower-cased trimmed token: at least two characters, not a stop word, not a number; it gives `""` exactly when the trimmed token is empty, a number, a stop word once lowered, or one character long |
| `Corpora.BaseFilterEnds` | SpamFilter/Corpus.cs:162-164 | a kept word neither starts nor ends with a listed punctuation character |
| `Corpora.ResolveToken` | SpamFilter/MappedCorpus.cs:38 | mapping a token whose mappings all lead to tokens ends at an unmapped token |
| `Corpora.FilterMeaning` | SpamFilter/StemmedCorpus.cs:31-39 | the overridden filter rejects exactly what the base filter rejects; before a normaliser exists it is the base filter; a stem is a substring of the base word; a mapped word is unmapped |
| `Corpora.Filtered` | SpamFilter/Corpus.cs:77-80 | one filter result per token |
| `Corpora.NonEmptySnoc` | SpamFilter/Corpus.cs:81-82 | an empty filter result is skipped, any other is kept |
| `Corpora.KeptSnoc` | SpamFilter/Corpus.cs:77-101 | one more token adds its filter result to the kept words unless it is rejected |
| `Corpora.FilteredTokens` | SpamFilter/Corpus.cs:77-80 | every filter result is empty or a token |
| `Corpora.NonEmptyOccurrences` | SpamFilter/Corpus.cs:81-82 | skipping empty results keeps every other word's occurrences, and drops one position per empty result |
| `Corpora.KeptVocabulary` | SpamFilter/Corpus.cs:77-103 | a sample's tally lists each kept word once, and every key is a token |
| `Corpora.NonEmptyTally` | SpamFilter/Corpus.cs:77-101 | counting the non-empty results counts exactly the non-empty words, each at every occurrence |
| `Corpora.SampleCounts` | SpamFilter/Corpus.cs:67-104 | every occurrence of a kept word counts, so a sample's counts add up to its number of tokens minus the rejected ones |
| `Corpora.Containing` | SpamFilter/Corpus.cs:122-131 | no word is in more tallies than there are |
| `Corpora.AllKeysOccurrences` | SpamFilter/Corpus.cs:122-131 | a word occurs among all the tallies' keys once per tally that contains it |
| `Corpora.AllKeysTokens` | SpamFilter/Corpus.cs:122-131 | every key of every tally is a token |
| `Corpora.DocFrequencyCounts` | SpamFilter/Corpus.cs:111-134 | the document frequency of a word is the number of tallies containing it, between 1 and the number of tallies |
| `Corpora.ContainingAppend` | SpamFilter/Corpus.cs:115-131 | tallies appended later add their own containing count |
| `Corpora.RecountDoubles` | SpamFilter/Corpus.cs:115-138 | counting the tallies twice over keeps the same words and doubles every document frequency |
| `Corpora.Entries` | SpamFilter/Corpus.cs:140 | `ToList` lists the keys in order with their counts |
| `Corpora.SortByCount` | SpamFilter/Corpus.cs:142-148 | the sort gives a permutation in non-increasing count order |
| `Corpora.Insert` | SpamFilter/Corpus.cs:142-148 | inserting keeps the order and adds exactly the new entry |
| `Corpora.InsertByCount` | SpamFilter/Corpus.cs:142-148 | inserting before the first smaller count keeps the order and the multiset |
| `Corpora.InsertOrdered` | SpamFilter/Corpus.cs:142-148 | inserting before the first smaller count keeps the order |
| `Corpora.DictionaryFacts` | SpamFilter/Corpus.cs:153-155 | adding distinct entries one by one gives a dictionary with those keys in order and their counts |
| `Corpora.TopKDominates` | SpamFilter/Corpus.cs:136-158 | no dropped word has a higher document frequency than any kept word |
| `Corpora.MultiplicityAtMostOne` | SpamFilter/Corpus.cs:142-148 | a duplicate-free sequence holds each value at most once |
| `Corpora.MultiplicityTwo` | SpamFilter/Corpus.cs:142-148 | a value at two positions is held at least twice |
| `Corpora.PermutationDistinct` | SpamFilter/Corpus.cs:142-148 | a permutation of a duplicate-free sequence is duplicate-free |
| `Corpora.SortedEntries` | SpamFilter/Corpus.cs:140-148 | the sorted list has one entry per word, each with the word's count |
| `Corpora.SortedPosition` | SpamFilter/Corpus.cs:140-148 | every word has its entry in the sorted list |
| `Corpora.TopOfSorted` | SpamFilter/Corpus.cs:140-157 | the first `k` sorted entries form a top-`k` selection |
| `Corpora.TopOrdered` | SpamFilter/Corpus.cs:150-155 | the kept entries are in non-increasing count order |
| `Corpora.TopCounts` | SpamFilter/Corpus.cs:150-155 | the kept words carry their document frequencies |
| `Corpora.TopDominates` | SpamFilter/Corpus.cs:150-155 | no word outside the kept prefix counts more than the last kept word |
| `Corpora.TopFeatures` | SpamFilter/Corpus.cs:140-155 | sorting and truncating keeps `min(k, words)` words with their document frequencies, in non-increasing order, none counting less than any dropped word |
| `Corpora.Weights` | SpamFilter/Corpus.cs:193-210 | one weight per feature |
| `Corpora.SumSquares` | SpamFilter/Corpus.cs:216-218 | the sum of squares is never negative |
| `Corpora.Scaled` | SpamFilter/Corpus.cs:224-228 | scaling keeps the length |
| `Corpora.Normalised` | SpamFilter/Corpus.cs:213-230 | normalising keeps the length |
| `Corpora.Weigh` | SpamFilter/Corpus.cs:196-209 | a new vector over the features, labelled with the sample's label, holding the TF-IDF weight of each feature the sample contains and 0 for the others |
| `Corpora.Normalise` | SpamFilter/Corpus.cs:213-230 | a vector whose squares sum to 0 is unchanged; any other is divided cell by cell by the root of that sum; names and label are kept |
| `Corpora.WeighAll` | SpamFilter/Corpus.cs:193-210 | one new, distinct vector per sample, in sample order, with the sample's label and weights |
| `Corpora.NormaliseAll` | SpamFilter/Corpus.cs:213-230 | every vector of the list is normalised, names and labels kept |
| `Corpora.AbsentFeatures` | SpamFilter/Corpus.cs:198-206 | a feature the sample lacks has weight 0, before and after normalising |
| `Corpora.NormalisedSigns` | SpamFilter/Corpus.cs:224-228 | normalising keeps each cell's sign: zero stays zero and positive stays positive |
| `Corpora.FilteredAt` | SpamFilter/Corpus.cs:77-80 | the `i`-th filter result is the filter of the `i`-th token |
| `Corpora.NonEmptyOrigin` | SpamFilter/Corpus.cs:81-82 | every counted word is a non-empty filter result |
| `Corpora.CountedOrigin` | SpamFilter/Corpus.cs:77-100 | every counted word is the filter result of one of the sample's tokens |
| `Corpora.MappedWords` | SpamFilter/MappedCorpus.cs:31-39 | once a mapper exists, no counted word is mapped further |
| `Corpora.StemmedWords` | SpamFilter/StemmedCorpus.cs:31-39 | once a stemmer exists, every counted word is a substring of a token's base filter result |
| `Corpora.Documents` | SpamFilter/MappedCorpus.cs:21-23 | one document per tally, holding the tally's keys in order |
| `Corpora.FlattenTokens` | SpamFilter/MappedCorpus.cs:21-24 | every word of the documents is a token |
| `Corpora.DocumentsReady` | SpamFilter/MappedCorpus.cs:21-24 | no document repeats a word ignoring case, and every target of the mapper built from them is a token |
| `Corpora.ListDocuments` | SpamFilter/MappedCorpus.cs:21-23 | the loop lists each sample's keys as one document |
| `Corpora.CountDocuments` | SpamFilter/Corpus.cs:122-131 | the loop over the tallies computes the document frequency |
| `Corpora.CountWords` | SpamFilter/Corpus.cs:124-130 | the loop over one tally's keys counts each of them once more |
| `Corpora.SampleList.constructor` | SpamFilter/Corpus.cs:46 | a new sample list is empty |
| `Corpora.Corpus.constructor` | SpamFilter/Corpus.cs:44-48 | an empty corpus with a sample list of its own, no tallies, no features |
| `Corpora.Corpus.Copy` | SpamFilter/Corpus.cs:50-54 | a new corpus that shares the sample list of the one copied, with no tallies and no features |
| `Corpora.Corpus.Stemmed` | SpamFilter/StemmedCorpus.cs:14-18 | a copy whose normaliser is a stemmer of the given list size, not yet built |
| `Corpora.Corpus.Mapped` | SpamFilter/MappedCorpus.cs:12-15 | a copy whose normaliser is a mapper, not yet built |
| `Corpora.Corpus.AddSample` | SpamFilter/Corpus.cs:56-59 | the sample and its label are appended to the shared list |
| `Corpora.Corpus.FilterWord` | SpamFilter/Corpus.cs:160-186 | the filter the corpus's kind specifies |
| `Corpora.Corpus.ExtractTokensFromSample` | SpamFilter/Corpus.cs:67-104 | exactly one tally is appended, that of the sample's kept words; nothing else changes |
| `Corpora.Corpus.ExtractTokens` | SpamFilter/Corpus.cs:111-134 | one tally per sample is appended in sample order to those already there, and the result is the document frequency over all of them |
| `Corpora.Corpus.SetFeatureDF` | SpamFilter/Corpus.cs:15-28 | the features are the keys of the new dictionary in its order |
| `Corpora.Corpus.SelectTopFeatures` | SpamFilter/Corpus.cs:136-158 | the tallies grow by one per sample, and the features are a top-`k` selection by document frequency over all tallies |
| `Corpora.Corpus.Reselect` | SpamFilter/StemmedCorpus.cs:27-28 | after the reset the tallies are exactly one per sample, and the features are a top-`k` selection over them |
| `Corpora.Corpus.BuildStemmer` | SpamFilter/StemmedCorpus.cs:23-24 | the stemmer's vocabulary is a top-`stemListSize` selection from the first pass, and the stemmer is ready |
| `Corpora.Corpus.SelectStemmed` | SpamFilter/StemmedCorpus.cs:20-29 | a stemmer is built from the first pass's selection, then the tallies are exactly one per sample, stemmed, and the features a top-`k` selection over them |
| `Corpora.Corpus.BuildMapper` | SpamFilter/MappedCorpus.cs:20-24 | the mapper is built from one document per tally, each the tally's keys, over the whole filtered vocabulary |
| `Corpora.Corpus.SelectMapped` | SpamFilter/MappedCorpus.cs:17-29 | a mapper is built from the first pass's documents, then the tallies are exactly one per sample, mapped, and the features a top-`k` selection over them |
| `Corpora.Corpus.SelectFeatures` | SpamFilter/Corpus.cs:136-158 | a plain corpus appends a pass to its tallies; a stemmed corpus keeps its stem size and gains a stemmer whose vocabulary is the first pass's top `stemSize` words (StemmedCorpus.cs:20-29); a mapped corpus gains a mapper whose mappings are those learned from the first pass's documents (MappedCorpus.cs:17-29); both then end with one tally per sample; the features are a top-`k` selection; the samples are unchanged |
| `Corpora.Corpus.ConstructDataSet` | SpamFilter/Corpus.cs:188-233 | one new vector per sample, in sample order, over the features, with the sample's label and the normalised TF-IDF weights of its tally |

## Left out

- `Stemmer.Write`, `LexicalMapper.Write` and `Corpus.WriteCSV` write to a `StreamWriter`. This is output only.
- `EmailData.cs` and `Program.cs` read files and write to the console. This is I/O.
- `NaiveBayes.cs` is floating-point Gaussian arithmetic, and `IClassifier.cs` is an interface with no code.
- The `Corpus` indexer over samples (SpamFilter/Corpus.cs:36-42) only reads the list.
- Numbers: `Math.Log`, `Math.Sqrt`, `Math.Pow` and double rounding are not modelled. Weights are exact reals, and `ln` and `sqrt` are parameters. `sqrt` is assumed positive on positive arguments.
- Culture: `decimal.TryParse` is the parameter `isNumber`. `ToLower` and `string.Compare(a, b, true)` are modelled for ASCII letters only.
- CSV numbers: double formatting and parsing are the parameters `fmt` and `parse`.
- `Stemming.Split`: `List.Sort` is unstable, so the source does not fix which of several equally scored candidates comes first. The model takes the first one in row-major order.
- `Corpora.SortByCount`: the model promises only a permutation in non-increasing count order. Which of several equally frequent words is kept at the cut-off is therefore left open, as `List.Sort` leaves it.
- `Stemming.MostSupported` and `Stemming.LeastLinked` break ties by the first neighbour in out-link insertion order, which is the `HashSet` enumeration order when nothing is removed.
- Link sets are `HashSet<MorphemeNode>` holding objects. The model keeps tokens in duplicate-free sequences, which assumes that one token has one node.
- `Stemming.Stemmer.constructor` requires distinct corpus words, because `nodes.Add` and `mappings.Add` throw on a duplicate.
- `FeatureVectors.FeatureVector.Labelled` and `FeatureVectors.FeatureVector.Unlabelled` require distinct feature names, because `Dictionary.Add` throws on a duplicate.
- `FeatureVectors.FeatureVector.FromCSV` does not throw. It returns `ok == false` where `double.Parse` or `ElementAt` would throw, and the cells written before that point keep their new values.
- `FeatureVectors.FeatureVector.ValueOf` and `FeatureVectors.FeatureVector.ValueAt` return `None` where the dictionary or `ElementAt` would throw.
- `LexicalMapping.LexicalMapper.Map` requires the mapping to be ranked. The constructor proves that only when no document repeats a word ignoring case. With a repeated word, a pair `(a, a)` can map a word to itself, and the source loop never ends. That non-terminating case is not modelled. The mapper built by `MappedCorpus` always has ranked mappings, because its documents are dictionary keys.
- `Corpora.Corpus.ConstructDataSet` requires at least one tally per sample, because `SampleFrequencies[i]` throws otherwise.
