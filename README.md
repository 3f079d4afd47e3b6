# QuRe, modelled in Dafny

QuRe reconstructs the haplotypes of a viral quasispecies from sequencing
reads. The reads are aligned to a reference genome. Reads with a poor
alignment p-value are dropped. Homopolymeric and non-homopolymeric errors
are corrected position by position from the per-position tallies. The
alignment is then cut into overlapping windows (amplicons). In each window
the reads' variant patterns become a catalogue of distinct local variants
with percentage frequencies. Full-length haplotypes are stitched together
by choosing one catalogue entry per window so that neighbouring entries
agree on their overlap. The smallest chosen frequency is then subtracted,
and this repeats until a window's catalogue runs dry.

This project models the sequential core of that pipeline in Dafny and
proves properties of the model. One module follows each Java class:

- `Snp`: the variant event and its `r_p_b,` text.
- `Patterns`: pattern strings as event lists, their restriction to a range of coordinates, and the token distance.
- `JString`: the Java string operations the model relies on.
- `Reads`: the read, its events, hash, pattern string and correction.
- `Bases`: the per-position tally, consensus and correction.
- `BaseSets`: the value side of `estimateBaseSet`.
- `LocalVariants`: catalogue entries.
- `LocalVariantSets`: one window's catalogue.
- `IndexSearch`: the carry search over index vectors.
- `Ensembles`: pruning, extraction and the reconstruction loop.
- `GlobalVariants`: haplotypes and their sequences.
- `Amplicons`: window layouts and their statistics.
- `AmpliconSearch`: the phase 0 sweep and the phase 3 selection of `estimateAmpliconsParallel`.
- `ReadSets`: the read set, its filters, p-values, dictionary and FASTA parsing.
- `QuRe`: the pieces of `main` that are modelled.
- `Common` and `Sorting`: shared folds and the stable sort behind every `Collections.sort`.

Objects whose fields the program updates in place are classes with
`modifies` frames. Examples are `Read`, `Base`, `LocalVariantSet`,
`LocalVariantSetEnsemble`, `GlobalVariant`, `AmpliconSet` and `ReadSet`.
Their methods are proved against specification functions, and the
properties of those functions are proved as lemmas. Loops stay loops,
with their invariants. Coordinates are `real`.

The model injects what it cannot see or compute as parameters:

- random draws;
- the helpers of the `Functions` class, which is not part of this model;
- logarithms;
- chi-square and Poisson values;
- Java's text form of a double.

## Model

| member | source | states |
|---|---|---|
| `Common.Min` | bin/3rdPartyTools/qsr/QuRe/AmpliconSet.java:86-87 | the minimum of the per-window counts is one of them and no greater than any of them |
| `Sorting.SortBy` | bin/3rdPartyTools/qsr/QuRe/Read.java:221 | `Collections.sort` by a real key: the result is a permutation of the input that is non-decreasing by the key |
| `Sorting.SortByStable` | bin/3rdPartyTools/qsr/QuRe/LocalVariantSet.java:88 | the sort is stable: the elements with equal keys keep their input order |
| `Sorting.InsertSorted` | bin/3rdPartyTools/qsr/QuRe/LocalVariantSet.java:88 | inserting one element into a sorted list keeps it sorted, the step of the stable sort |
| `JString.LastIndexOf` | bin/3rdPartyTools/qsr/QuRe/QuRe.java:18 | `lastIndexOf`: -1 exactly when the character is absent; otherwise an index holding it with no later occurrence |
| `JString.SplitTerminated` | bin/3rdPartyTools/qsr/QuRe/LocalVariant.java:51-52 | `split(",")` of a comma-terminated list of non-empty comma-free pieces returns exactly those pieces |
| `JString.SplitThree` | bin/3rdPartyTools/qsr/QuRe/GlobalVariant.java:46 | `split("_")` of `a_b_d` with no `_` in the parts and `d` non-empty returns `[a, b, d]` |
| `JString.PiecesTerminated` | bin/3rdPartyTools/qsr/QuRe/LocalVariant.java:51-52 | the pieces of a separator-terminated list are the list plus one trailing empty piece, which is what split then drops |
| `Snp.EqualsIsIdentity` | bin/3rdPartyTools/qsr/QuRe/SNP.java:41-44 | `equals` (all three fields agree) holds exactly when the two events are the same value, so it is an equivalence |
| `Snp.Text` | bin/3rdPartyTools/qsr/QuRe/SNP.java:35-39 | a token starts with the consensus, ends with the base and a `,`, and is five characters longer than the coordinate text |
| `Snp.TokenRoundTrip` | bin/3rdPartyTools/qsr/QuRe/SNP.java:37 | splitting a token without its comma on `_` gives consensus, coordinate text and base, so parsing it gives back the event |
| `Patterns.Tokens` | bin/3rdPartyTools/qsr/QuRe/LocalVariant.java:51 | a split pattern always has at least one piece: the empty pattern gives one empty piece |
| `Patterns.RenderSplit` | bin/3rdPartyTools/qsr/QuRe/LocalVariant.java:51-52 | Java `split(",")` of a pattern string gives exactly the token texts of its events, or one empty piece for the empty pattern |
| `Patterns.RenderIsTerminated` | bin/3rdPartyTools/qsr/QuRe/Read.java:230-240 | a pattern string is its event texts each followed by a comma |
| `Patterns.Restrict` | bin/3rdPartyTools/qsr/QuRe/Read.java:230-240 | `getSNPString(sta, sto)` keeps at most as many events as the read has |
| `Patterns.RestrictMembers` | bin/3rdPartyTools/qsr/QuRe/Read.java:230-240 | an event is in the restriction exactly when it is an event of the read with `sta <= pos <= sto` |
| `Patterns.RestrictIsSubsequence` | bin/3rdPartyTools/qsr/QuRe/Read.java:230-240 | the restriction keeps the events in list order: it is a subsequence of the read's list |
| `Patterns.RestrictNested` | bin/3rdPartyTools/qsr/QuRe/LocalVariantSet.java:35-38 | restricting the full key to a narrower range gives the same sub-key as restricting the read directly, so the sub-keys are determined by the key |
| `Patterns.RestrictSorted` | bin/3rdPartyTools/qsr/QuRe/Read.java:230-240 | the restriction of a position-sorted list is position-sorted |
| `Patterns.RestrictSplit` | bin/3rdPartyTools/qsr/QuRe/LocalVariantSet.java:35-38 | on a sorted list with no event strictly between b and b', the restriction to [a, c] is that to [a, b] followed by that to [b', c] |
| `Patterns.SubKeysConcat` | bin/3rdPartyTools/qsr/QuRe/LocalVariantSet.java:35-38 | with no event in (middle1, middle1+1) or (middle2-1, middle2), overlSNP1 + amplSNP + overlSNP2 equals the full key |
| `Patterns.SubKeysCoverKey` | bin/3rdPartyTools/qsr/QuRe/LocalVariantSet.java:35-38 | the three sub-keys concatenate to the full key if and only if no event of the key lies in one of the two gaps |
| `Patterns.Distance` | bin/3rdPartyTools/qsr/QuRe/LocalVariant.java:48-62 | the number of tokens of each split pattern missing from the other; DistanceSymmetric, DistanceZero and DistanceIsSymmetricDifference prove it symmetric, zero exactly on equal token sets, and the symmetric difference for distinct tokens |
| `Patterns.DistanceSymmetric` | bin/3rdPartyTools/qsr/QuRe/LocalVariant.java:48-62 | `distance(a, b) == distance(b, a)` |
| `Patterns.DistanceZero` | bin/3rdPartyTools/qsr/QuRe/LocalVariant.java:48-62 | the distance is 0 exactly when the two split patterns have the same set of tokens |
| `Patterns.DistanceSelf` | bin/3rdPartyTools/qsr/QuRe/LocalVariant.java:48-62 | a pattern is at distance 0 from itself |
| `Patterns.DistanceFromEmpty` | bin/3rdPartyTools/qsr/QuRe/LocalVariant.java:51-60 | because `""` splits to one empty token, the empty pattern is at distance k+1 from a pattern of k events |
| `Patterns.DistanceIsSymmetricDifference` | bin/3rdPartyTools/qsr/QuRe/LocalVariant.java:48-62 | for patterns without repeated events the distance is the size of the symmetric difference of their token sets |
| `Patterns.DifferencesMatchDistance` | bin/3rdPartyTools/qsr/QuRe/LocalVariant.java:63-77 | `snpDifferences` writes one token per unit of distance, a's missing tokens first and then b's, and nothing else |
| `LocalVariants.Overlaps` | bin/3rdPartyTools/qsr/QuRe/LocalVariant.java:30-33 | a's right-overlap key equals b's left-overlap key; OverlapsIsDirectional shows it is not symmetric |
| `LocalVariants.OverlapsIsDirectional` | bin/3rdPartyTools/qsr/QuRe/LocalVariant.java:30-33 | `overlaps` compares this window's right overlap with the other's left overlap, so it can hold one way and fail the other |
| `LocalVariants.MateFrom` | bin/3rdPartyTools/qsr/QuRe/LocalVariant.java:34-47 | the scan from index i returns the first mate at or after i, or -1 exactly when there is none |
| `LocalVariants.SearchMateFwd` | bin/3rdPartyTools/qsr/QuRe/LocalVariant.java:34-40 | the smallest j with `this.overlaps(lvsA[j])`, or -1 exactly when no entry overlaps |
| `LocalVariants.SearchMateRwd` | bin/3rdPartyTools/qsr/QuRe/LocalVariant.java:41-47 | the smallest j with `lvsA[j].overlaps(this)`, or -1 exactly when no entry overlaps |
| `LocalVariants.SnpDifferences` | bin/3rdPartyTools/qsr/QuRe/LocalVariant.java:63-77 | the differences hold one token per unit of `distance` |
| `LocalVariants.Classify` | bin/3rdPartyTools/qsr/QuRe/LocalVariant.java:114-128 | the loop returns a cluster at the least distance, and no earlier cluster is as close; -1 exactly when there are no clusters |
| `LocalVariants.LengthUpdate` | bin/3rdPartyTools/qsr/QuRe/LocalVariant.java:78-113 | `lengthUpdate` on the split patterns; LengthUpdateCounts proves it is the distinct insertion tokens of both minus the distinct deletion tokens of both |
| `LocalVariants.LengthUpdateCounts` | bin/3rdPartyTools/qsr/QuRe/LocalVariant.java:78-113 | `lengthUpdate` is the number of distinct insertion tokens of the two patterns minus the number of distinct deletion tokens found in both |
| `LocalVariants.TokenLengthUpdateCounts` | bin/3rdPartyTools/qsr/QuRe/LocalVariant.java:80-112 | the same count stated on the two split token lists |
| `LocalVariants.GatherDistinct` | bin/3rdPartyTools/qsr/QuRe/LocalVariant.java:84-101 | the list-building loops add each selected token once: no duplicates, and exactly the selected tokens |
| `LocalVariants.CountSharedCard` | bin/3rdPartyTools/qsr/QuRe/LocalVariant.java:102-111 | the `indexOf` tests count the listed tokens that occur in both patterns |
| `LocalVariants.InsertionsGathered` | bin/3rdPartyTools/qsr/QuRe/LocalVariant.java:84-92 | the insertion list has one entry per distinct insertion token of either pattern |
| `LocalVariants.DeletionsShared` | bin/3rdPartyTools/qsr/QuRe/LocalVariant.java:93-111 | the deletion tokens counted are exactly those that occur in both patterns |
| `LocalVariantSets.PercentRange` | bin/3rdPartyTools/qsr/QuRe/LocalVariantSet.java:84 | a positive count out of a total no smaller than it is a percentage in (0, 100] |
| `LocalVariantSets.SumCountsIsCountIn` | bin/3rdPartyTools/qsr/QuRe/LocalVariantSet.java:73-79 | adding up the kept entries' counts key by key gives the number of kept reads |
| `LocalVariantSets.CountInAtLeast` | bin/3rdPartyTools/qsr/QuRe/LocalVariantSet.java:73-79 | the total of the kept reads is at least any one kept entry's count |
| `LocalVariantSets.ScaledSum` | bin/3rdPartyTools/qsr/QuRe/LocalVariantSet.java:81-87 | when every frequency is c times its count, the frequencies add up to c times the total count |
| `LocalVariantSets.CatalogueFrequencyRange` | bin/3rdPartyTools/qsr/QuRe/LocalVariantSet.java:73-87 | every catalogue frequency lies in (0, 100] |
| `LocalVariantSets.CatalogueMass` | bin/3rdPartyTools/qsr/QuRe/LocalVariantSet.java:73-87 | a non-empty catalogue's frequencies add up to 100 |
| `LocalVariantSets.MassFromShares` | bin/3rdPartyTools/qsr/QuRe/LocalVariantSet.java:81-87 | percentages of the counts of a total add up to 100 |
| `LocalVariantSets.PermutedIndexes` | bin/3rdPartyTools/qsr/QuRe/LocalVariantSet.java:88 | reordering the list `lvsA` keeps it a list of every table value exactly once |
| `LocalVariantSets.SubKeysDetermined` | bin/3rdPartyTools/qsr/QuRe/LocalVariantSet.java:35-38 | amplSNP, overlSNP1 and overlSNP2 are the restrictions of the entry's full key to the three ranges, so they are determined by the key |
| `LocalVariantSets.SubKeysRebuildKey` | bin/3rdPartyTools/qsr/QuRe/LocalVariantSet.java:35-38 | overlSNP1 + amplSNP + overlSNP2 rebuilds the full key exactly when no event lies in (middle1, middle1+1) or (middle2-1, middle2) |
| `LocalVariantSets.LocalVariantSet.Empty` | bin/3rdPartyTools/qsr/QuRe/LocalVariantSet.java:29 | a fresh set has an empty table and an empty list |
| `LocalVariantSets.LocalVariantSet.constructor` | bin/3rdPartyTools/qsr/QuRe/LocalVariantSet.java:16-91 | the table holds the patterns of the spanning reads seen at least twice, each at 100 times its count over the kept reads, and `lvsA` lists each entry once by non-increasing frequency |
| `LocalVariantSets.LocalVariantSet.SortMultinomialFrequencies` | bin/3rdPartyTools/qsr/QuRe/LocalVariantSet.java:263-277 | an in-place permutation of `lvsA` by non-increasing frequency that keeps the order of equal frequencies |
| `LocalVariantSets.Build` | bin/3rdPartyTools/qsr/QuRe/LocalVariantSet.java:29-88 | the three passes and the sort leave the catalogue of the observed patterns, each entry carrying the sub-keys of a read it came from |
| `LocalVariantSets.CatalogueOfKept` | bin/3rdPartyTools/qsr/QuRe/LocalVariantSet.java:73-88 | rescaling the kept counts and sorting the listing gives a catalogue |
| `LocalVariantSets.Select` | bin/3rdPartyTools/qsr/QuRe/LocalVariantSet.java:29-59 | after grouping and pruning, the table holds exactly the patterns seen at least twice, with their counts |
| `LocalVariantSets.PrunedCounts` | bin/3rdPartyTools/qsr/QuRe/LocalVariantSet.java:54-59 | dropping the entries counted fewer than twice leaves the patterns seen at least twice |
| `LocalVariantSets.TakenFromRescaled` | bin/3rdPartyTools/qsr/QuRe/LocalVariantSet.java:54-87 | changing frequencies and removing entries keeps each entry's sub-keys those of some spanning read |
| `LocalVariantSets.Group` | bin/3rdPartyTools/qsr/QuRe/LocalVariantSet.java:29-51 | only spanning reads contribute, entries are keyed by the full pattern, and each frequency is that pattern's count |
| `LocalVariantSets.GroupStep` | bin/3rdPartyTools/qsr/QuRe/LocalVariantSet.java:30-51 | one turn of the grouping loop extends the observed patterns by read i and keeps the counts |
| `LocalVariantSets.TakenFromStep` | bin/3rdPartyTools/qsr/QuRe/LocalVariantSet.java:39-49 | an entry opened or bumped for read i keeps the sub-keys of a read among the first i+1 |
| `LocalVariantSets.AddRead` | bin/3rdPartyTools/qsr/QuRe/LocalVariantSet.java:32-50 | a spanning read opens its pattern's entry at 1 or adds 1 to it; a read that does not span changes nothing |
| `LocalVariantSets.Prune` | bin/3rdPartyTools/qsr/QuRe/LocalVariantSet.java:54-59 | the result holds exactly the entries counted at least twice, unchanged |
| `LocalVariantSets.Normalise` | bin/3rdPartyTools/qsr/QuRe/LocalVariantSet.java:73-87 | every kept entry becomes 100 times its count over the kept total and is listed once |
| `LocalVariantSets.Total` | bin/3rdPartyTools/qsr/QuRe/LocalVariantSet.java:73-79 | the total is the number of reads whose pattern was kept |
| `LocalVariantSets.Rescale` | bin/3rdPartyTools/qsr/QuRe/LocalVariantSet.java:80-87 | each kept entry, in key order, is rescaled to a percentage of the total and appended to the list |
| `LocalVariantSets.RescaleStep` | bin/3rdPartyTools/qsr/QuRe/LocalVariantSet.java:81-87 | one turn of the rescaling loop rescales key i and appends its entry |
| `LocalVariantSets.RescaledAll` | bin/3rdPartyTools/qsr/QuRe/LocalVariantSet.java:80-87 | after the last key, every entry is rescaled and the list holds each once |
| `LocalVariantSets.ListedByKeys` | bin/3rdPartyTools/qsr/QuRe/LocalVariantSet.java:80-87 | a list built in the order of the distinct keys lists every table value exactly once |
| `Reads.InsBefore` | bin/3rdPartyTools/qsr/QuRe/Read.java:170-177 | the insertion count after n columns is at most n |
| `Reads.RunLength` | bin/3rdPartyTools/qsr/QuRe/Read.java:170-186 | the run of insertion columns ending at column n is at most n long |
| `Reads.TriClosedForm` | bin/3rdPartyTools/qsr/QuRe/Read.java:179 | the step growing by one epsilon per insertion puts the k-th insertion of a run at k(k+1)/2 epsilons |
| `Reads.OneEventPerMismatch` | bin/3rdPartyTools/qsr/QuRe/Read.java:156-187 | `setSNP` emits exactly one event per column where query and reference differ |
| `Reads.InsertionBetweenAnchors` | bin/3rdPartyTools/qsr/QuRe/Read.java:170-180 | an insertion lies strictly between the coordinate of its anchor and that coordinate plus one |
| `Reads.InsertionStepGrows` | bin/3rdPartyTools/qsr/QuRe/Read.java:172-179 | within a run each insertion follows the previous one by a step one epsilon larger than the last |
| `Reads.CorrectedOverStep` | bin/3rdPartyTools/qsr/QuRe/Read.java:62-86 | handling one more base adds at most the one key of that base to the new hash |
| `Reads.RebuildStep` | bin/3rdPartyTools/qsr/QuRe/Read.java:64-85 | one turn of the loop of `correct` gives the new hash of the bases handled so far |
| `Reads.BaseKeys` | bin/3rdPartyTools/qsr/QuRe/Read.java:65 | the keys `reference_position` of the bases handled |
| `Reads.CorrectedHash` | bin/3rdPartyTools/qsr/QuRe/Read.java:57-87 | a kept entry's base is one of A/C/G/T/- with a positive count at that position; an added entry is the consensus of an in-span base whose reference channel is empty and differs from it; every key comes from a base |
| `Reads.Decide` | bin/3rdPartyTools/qsr/QuRe/Read.java:65-85 | the channel-by-channel test of one base agrees with the declarative decision |
| `Reads.Rebuild` | bin/3rdPartyTools/qsr/QuRe/Read.java:60-86 | the loop over the bases builds exactly the corrected hash |
| `Reads.ListEvents` | bin/3rdPartyTools/qsr/QuRe/Read.java:199-208 | the events listed are exactly those of the hash, each once |
| `Reads.ScanColumn` | bin/3rdPartyTools/qsr/QuRe/Read.java:156-187 | one column of the `setSNP` loop keeps the list, hash, insertion count and step equal to their declarative values |
| `Reads.ScanSubstitution` | bin/3rdPartyTools/qsr/QuRe/Read.java:158-168 | a substitution or deletion column is recorded at `start + i - insCount` and resets the step |
| `Reads.ScanInsertion` | bin/3rdPartyTools/qsr/QuRe/Read.java:170-180 | an insertion column is recorded one step after the previous position, and the count and step grow |
| `Reads.ScanMatch` | bin/3rdPartyTools/qsr/QuRe/Read.java:181-186 | a matching column records nothing and moves the anchor to its own coordinate |
| `Reads.Read.constructor` | bin/3rdPartyTools/qsr/QuRe/Read.java:36-55 | a new read has no events, p-values of -1, and the coordinates its alignment gives it |
| `Reads.Read.SetSnp` | bin/3rdPartyTools/qsr/QuRe/Read.java:145-192 | the list is the events of the mismatching columns, the hash maps their keys to bases, the string has one token per event, `stop = start + columns - insCount` and `insertions = insCount` |
| `Reads.Read.UpdateSnpFromHash` | bin/3rdPartyTools/qsr/QuRe/Read.java:195-228 | the list becomes the hash's events, each once, sorted by non-decreasing position, and the string is their tokens in that order |
| `Reads.Read.Correct` | bin/3rdPartyTools/qsr/QuRe/Read.java:57-89 | the hash becomes the corrected hash against the bases; list and string are rebuilt from it in position order |
| `Reads.Read.GetSnpString` | bin/3rdPartyTools/qsr/QuRe/Read.java:230-240 | the events inside [sta, sto]; SnpStringInWindow proves it keeps exactly those, in list order |
| `Reads.Read.Distance` | bin/3rdPartyTools/qsr/QuRe/Read.java:242-261 | the pattern distance of the two reads' events inside [sta, sto]; ReadDistanceProperties proves it symmetric and 0 against itself |
| `Reads.Read.Overlaps` | bin/3rdPartyTools/qsr/QuRe/Read.java:270-275 | each read sticks out of the other on one side; OverlapsSymmetric and OverlapsIsStrict prove it symmetric, irreflexive and false under containment |
| `Reads.SnpStringInWindow` | bin/3rdPartyTools/qsr/QuRe/Read.java:230-240 | `getSNPString` keeps exactly the events with `sta <= pos <= sto`, in list order |
| `Reads.OverlapsSymmetric` | bin/3rdPartyTools/qsr/QuRe/Read.java:270-275 | `overlaps` is symmetric |
| `Reads.OverlapsIsStrict` | bin/3rdPartyTools/qsr/QuRe/Read.java:270-275 | `overlaps` is irreflexive and false when one read's interval contains the other's |
| `Reads.ReadDistanceProperties` | bin/3rdPartyTools/qsr/QuRe/Read.java:242-261 | the read distance is symmetric and 0 against itself |
| `Ensembles.MassIsSum` | bin/3rdPartyTools/qsr/QuRe/LocalVariantSetEnsemble.java:463-467 | a catalogue's mass is the sum of its frequencies |
| `Ensembles.MassConcat` | bin/3rdPartyTools/qsr/QuRe/LocalVariantSetEnsemble.java:468-479 | the mass of two catalogue pieces is the sum of their masses |
| `Ensembles.MassPermutation` | bin/3rdPartyTools/qsr/QuRe/LocalVariantSetEnsemble.java:480-481 | re-sorting a catalogue keeps its mass |
| `Ensembles.Positives` | bin/3rdPartyTools/qsr/QuRe/LocalVariantSetEnsemble.java:167-178 | removing spent entries never lengthens a catalogue |
| `Ensembles.PositivesMembers` | bin/3rdPartyTools/qsr/QuRe/LocalVariantSetEnsemble.java:167-178 | exactly the entries with a positive frequency survive the removal |
| `Ensembles.PositivesMass` | bin/3rdPartyTools/qsr/QuRe/LocalVariantSetEnsemble.java:468-479 | deleting the entries of frequency 0 keeps the mass when no entry is negative |
| `Ensembles.PositivesShrink` | bin/3rdPartyTools/qsr/QuRe/LocalVariantSetEnsemble.java:468-479 | a catalogue with an entry that is not positive loses at least that entry |
| `Ensembles.RemoveSpentStep` | bin/3rdPartyTools/qsr/QuRe/LocalVariantSetEnsemble.java:173-174 | `remove(j)` of a spent entry leaves the positive entries and the prefix before j unchanged |
| `Ensembles.RemoveNonPositive` | bin/3rdPartyTools/qsr/QuRe/LocalVariantSetEnsemble.java:170-177 | the removal loop leaves exactly the positive entries, in order |
| `Ensembles.RemoveSpent` | bin/3rdPartyTools/qsr/QuRe/LocalVariantSetEnsemble.java:167-178 | every window keeps exactly its positive entries, so every window is live |
| `Ensembles.MarkWindow` | bin/3rdPartyTools/qsr/QuRe/LocalVariantSetEnsemble.java:150-163 | each entry of a window without a mate in the next window gets frequency 0, the others are unchanged |
| `Ensembles.PruneWindows` | bin/3rdPartyTools/qsr/QuRe/LocalVariantSetEnsemble.java:148-165 | every window but the last is marked against the next window as it was before pruning; the last is never pruned |
| `Ensembles.SurvivorsOfPruning` | bin/3rdPartyTools/qsr/QuRe/LocalVariantSetEnsemble.java:148-178 | after marking and removal, an entry survives exactly when it was live and overlaps some entry of the next window |
| `Ensembles.MarkingMass` | bin/3rdPartyTools/qsr/QuRe/LocalVariantSetEnsemble.java:161-162 | zeroing entries never raises a window's mass |
| `Ensembles.MultinomialSize` | bin/3rdPartyTools/qsr/QuRe/LocalVariantSetEnsemble.java:180-185 | the size is the smallest catalogue size |
| `Ensembles.SortAll` | bin/3rdPartyTools/qsr/QuRe/LocalVariantSetEnsemble.java:189-190 | every window becomes its stable sort by non-increasing frequency |
| `Ensembles.TruncOfDraw` | bin/3rdPartyTools/qsr/QuRe/LocalVariantSetEnsemble.java:75 | `(int)(Math.random()*(n-1))` is an index in [0, n) |
| `Ensembles.GuideDistribution` | bin/3rdPartyTools/qsr/QuRe/LocalVariantSetEnsemble.java:55-111 | the guide is always an index in [0, n): the first window with the largest score, or the random start when no score beats -Double.MAX_VALUE |
| `Ensembles.LinksAndTail` | bin/3rdPartyTools/qsr/QuRe/LocalVariantSetEnsemble.java:435-449 | the global pattern splits at any window into the links before it and the tail from it |
| `Ensembles.ChainHoldsWindows` | bin/3rdPartyTools/qsr/QuRe/LocalVariantSetEnsemble.java:435-449 | for a consistent choice every window's three sub-keys appear as one block of the global pattern: a shared overlap is read once |
| `Ensembles.BuildChain` | bin/3rdPartyTools/qsr/QuRe/LocalVariantSetEnsemble.java:435-449 | `gv.SNP` is each window's overlSNP1 + amplSNP followed by the last window's overlSNP2; the "should not happen" exit is never taken |
| `Ensembles.MinChosen` | bin/3rdPartyTools/qsr/QuRe/LocalVariantSetEnsemble.java:455-462 | `gv.frequency` is the least of the chosen frequencies |
| `Ensembles.Subtract` | bin/3rdPartyTools/qsr/QuRe/LocalVariantSetEnsemble.java:463-467 | every chosen entry is decreased by the frequency and floored at 0; nothing else changes |
| `Ensembles.Extracted` | bin/3rdPartyTools/qsr/QuRe/LocalVariantSetEnsemble.java:463-481 | an extraction keeps the number of windows |
| `Ensembles.SpendMass` | bin/3rdPartyTools/qsr/QuRe/LocalVariantSetEnsemble.java:466 | taking f from an entry that holds at least f lowers the window's mass by exactly f |
| `Ensembles.ExtractedMass` | bin/3rdPartyTools/qsr/QuRe/LocalVariantSetEnsemble.java:463-481 | one extraction with f at most the chosen frequency takes exactly f from the window's mass |
| `Ensembles.ExtractedLive` | bin/3rdPartyTools/qsr/QuRe/LocalVariantSetEnsemble.java:468-479 | after an extraction every entry has a positive frequency |
| `Ensembles.EntriesShrink` | bin/3rdPartyTools/qsr/QuRe/LocalVariantSetEnsemble.java:468-479 | windows that do not grow do not raise the entry count, and one that shrinks lowers it |
| `Ensembles.ExtractedEntries` | bin/3rdPartyTools/qsr/QuRe/LocalVariantSetEnsemble.java:458-479 | an extraction with the least chosen frequency empties that entry, so the number of entries goes down |
| `Ensembles.LeastExtractionShrinks` | bin/3rdPartyTools/qsr/QuRe/LocalVariantSetEnsemble.java:458-479 | every successful extraction deletes at least one entry, so the outer loop terminates |
| `Ensembles.LeastExtractionMass` | bin/3rdPartyTools/qsr/QuRe/LocalVariantSetEnsemble.java:458-479 | on live catalogues the extracted frequency is positive and is taken exactly once from every window |
| `Ensembles.Extraction` | bin/3rdPartyTools/qsr/QuRe/LocalVariantSetEnsemble.java:417-481 | the search from the guide fails exactly when no choice is consistent, and then nothing changes; otherwise it returns the earliest consistent choice, its pattern and least frequency, and the spent, cleaned and re-sorted catalogues |
| `Ensembles.ExtractedSteps` | bin/3rdPartyTools/qsr/QuRe/LocalVariantSetEnsemble.java:463-481 | subtraction, removal and sorting in sequence give the extraction |
| `Ensembles.Marked` | bin/3rdPartyTools/qsr/QuRe/LocalVariantSetEnsemble.java:150-163 | marking keeps a window's length |
| `Ensembles.Pruned` | bin/3rdPartyTools/qsr/QuRe/LocalVariantSetEnsemble.java:148-178 | pruning and removal keep the number of windows |
| `Ensembles.SortedAll` | bin/3rdPartyTools/qsr/QuRe/LocalVariantSetEnsemble.java:189-190 | sorting keeps the number of windows |
| `Ensembles.PrunedMembers` | bin/3rdPartyTools/qsr/QuRe/LocalVariantSetEnsemble.java:148-178 | window i < n-1 keeps exactly its live entries with a mate in the pre-pruned window i+1; the last window keeps its live entries |
| `Ensembles.PrunedWindow` | bin/3rdPartyTools/qsr/QuRe/LocalVariantSetEnsemble.java:148-178 | a pruned window is no heavier and no longer than before, and all its entries are positive |
| `Ensembles.PrunedShrinks` | bin/3rdPartyTools/qsr/QuRe/LocalVariantSetEnsemble.java:148-178 | pruning leaves live windows and never raises a window's mass or the entry count |
| `Ensembles.SortedAllKeeps` | bin/3rdPartyTools/qsr/QuRe/LocalVariantSetEnsemble.java:189-190 | sorting keeps every window's entries, mass and liveness, and the entry count |
| `Ensembles.SharedOverlapRange` | bin/3rdPartyTools/qsr/QuRe/LocalVariantSetEnsemble.java:30-52 | window i's right-overlap range [starts[i+1], stops[i]] is exactly window i+1's left-overlap range |
| `Ensembles.SameReadOverlaps` | bin/3rdPartyTools/qsr/QuRe/LocalVariantSetEnsemble.java:37-47 | entries of adjacent windows taken from the same read overlap |
| `Ensembles.OneReadConsistent` | bin/3rdPartyTools/qsr/QuRe/LocalVariantSetEnsemble.java:369-382 | a choice whose every entry comes from one read is consistent |
| `Ensembles.BuiltWindow` | bin/3rdPartyTools/qsr/QuRe/LocalVariantSetEnsemble.java:35-47 | a catalogue built over window i's bounds and overlaps is that window's catalogue |
| `Ensembles.CataloguedStep` | bin/3rdPartyTools/qsr/QuRe/LocalVariantSetEnsemble.java:35-47 | appending window i's catalogue extends the catalogues of the first i windows |
| `Ensembles.BuildWindow` | bin/3rdPartyTools/qsr/QuRe/LocalVariantSetEnsemble.java:37-42 | the catalogue of window i over [starts[i], stops[i]] with overlaps ending at the previous stop and starting at the next start |
| `Ensembles.BuildCatalogues` | bin/3rdPartyTools/qsr/QuRe/LocalVariantSetEnsemble.java:23-53 | one catalogue per window, each built from the population over that window's bounds |
| `Ensembles.PrunedIs` | bin/3rdPartyTools/qsr/QuRe/LocalVariantSetEnsemble.java:148-178 | the marking pass followed by the removal gives the pruned catalogues |
| `Ensembles.PrepareRound` | bin/3rdPartyTools/qsr/QuRe/LocalVariantSetEnsemble.java:148-190 | pruned, cleaned and sorted windows, no heavier than before; the size is 0 exactly when some window is empty, which it is whenever one was empty before |
| `Ensembles.SortedEntries` | bin/3rdPartyTools/qsr/QuRe/LocalVariantSetEnsemble.java:189-190 | sorting keeps the bound on the number of entries |
| `Ensembles.PruneAndRemove` | bin/3rdPartyTools/qsr/QuRe/LocalVariantSetEnsemble.java:148-178 | the pruning pass then the removal gives the pruned catalogues |
| `Ensembles.PrunedSizes` | bin/3rdPartyTools/qsr/QuRe/LocalVariantSetEnsemble.java:148-178 | pruning never makes a window longer |
| `Ensembles.SortedWindows` | bin/3rdPartyTools/qsr/QuRe/LocalVariantSetEnsemble.java:189-190 | sorting every window keeps its size and mass, and keeps live windows live |
| `Ensembles.SmallestSize` | bin/3rdPartyTools/qsr/QuRe/LocalVariantSetEnsemble.java:180-187 | the smallest size is 0 exactly when a window is empty, which stops the loop |
| `Ensembles.BudgetExtracted` | bin/3rdPartyTools/qsr/QuRe/LocalVariantSetEnsemble.java:206-213 | a haplotype's frequency is taken from every window, so the kept frequencies fit within every window's loss |
| `Ensembles.BudgetLowered` | bin/3rdPartyTools/qsr/QuRe/LocalVariantSetEnsemble.java:148-178 | pruning that only lowers windows keeps the budget |
| `Ensembles.ExtractionProgress` | bin/3rdPartyTools/qsr/QuRe/LocalVariantSetEnsemble.java:458-481 | extracting the least chosen frequency from live catalogues takes a positive frequency from every window and deletes an entry |
| `Ensembles.NextHaplotype` | bin/3rdPartyTools/qsr/QuRe/LocalVariantSetEnsemble.java:192-207 | the guide is an index of a window; the round stops when no choice is consistent or a window empties, and otherwise hands on the earliest consistent choice and the spent catalogues |
| `Ensembles.RoundStep` | bin/3rdPartyTools/qsr/QuRe/LocalVariantSetEnsemble.java:148-207 | one pass of the `while(true)` body: it stops when a window is empty or no choice is consistent, and every window loses mass either way; it always stops when a window was empty on entry |
| `Ensembles.StoppedMass` | bin/3rdPartyTools/qsr/QuRe/LocalVariantSetEnsemble.java:186-207 | a round that stops leaves no window heavier than at its start |
| `Ensembles.ExtractsAfter` | bin/3rdPartyTools/qsr/QuRe/LocalVariantSetEnsemble.java:148-207 | an extraction after pruning is progress with respect to the catalogues before pruning |
| `Ensembles.Record` | bin/3rdPartyTools/qsr/QuRe/LocalVariantSetEnsemble.java:209-214 | a new haplotype object with the pattern and a positive frequency, its sequence patched from the reference over the partition span (`setSequence`), is appended to the list, which keeps its objects distinct |
| `Ensembles.Reconstruct` | bin/3rdPartyTools/qsr/QuRe/LocalVariantSetEnsemble.java:146-217 | haplotype k is a fresh, distinct object whose pattern is the chain of the earliest consistent choice that round k found from its pruned and sorted catalogues, whose frequency is that choice's least frequency, and whose sequence is `setSequence` of that pattern; the loop ends with an empty window or no consistent choice, the frequencies fit within every window's loss, and none is found when a window starts empty |
| `Ensembles.CataloguedMass` | bin/3rdPartyTools/qsr/QuRe/LocalVariantSet.java:73-87 | freshly built catalogues have no negative frequency and every non-empty window holds a mass of exactly 100 |
| `Ensembles.ReconstructedWithinHundred` | bin/3rdPartyTools/qsr/QuRe/LocalVariantSetEnsemble.java:139-221 | reconstructed from freshly built catalogues, the extracted haplotype frequencies sum to at most 100 |
| `Ensembles.Ensemble.constructor` | bin/3rdPartyTools/qsr/QuRe/LocalVariantSetEnsemble.java:23-53 | needs at least two windows (it reads `a.starts[1]`); builds one catalogue per window over [starts[i], stops[i]] |
| `Ensembles.Ensemble.GlobalVariantReconstructor` | bin/3rdPartyTools/qsr/QuRe/LocalVariantSetEnsemble.java:384-483 | with no consistent choice it returns the default object (frequency -1) and changes nothing; otherwise the earliest consistent choice's pattern and least frequency, and the catalogues with that frequency spent |
| `Ensembles.Ensemble.QuasispeciesReconstructor` | bin/3rdPartyTools/qsr/QuRe/LocalVariantSetEnsemble.java:139-221 | the returned list holds distinct fresh `GlobalVariant` objects; haplotype k carries the chained pattern and least frequency of round k's earliest consistent choice over the pruned, sorted catalogues, and its sequence is `setSequence` of that pattern over [starts[0], stops[n-1]]; the loop ends with an empty window or no consistent choice, every frequency is positive, together they take no more than any window's starting mass, and none is found when a window starts empty; the ensemble's catalogues are left as the loop leaves them |
| `GlobalVariants.RefMapKeys` | bin/3rdPartyTools/qsr/QuRe/GlobalVariant.java:30-36 | the first loop puts exactly the whole positions (int)(start-1)+1 .. (int)stop into the table |
| `GlobalVariants.Spell` | bin/3rdPartyTools/qsr/QuRe/GlobalVariant.java:57-61 | reading the table along the keys gives one letter per key |
| `GlobalVariants.RemoveGaps` | bin/3rdPartyTools/qsr/QuRe/GlobalVariant.java:62 | `replaceAll("-", "")` leaves no '-' and never lengthens the string |
| `GlobalVariants.GlobalVariant.constructor` | bin/3rdPartyTools/qsr/QuRe/GlobalVariant.java:13-19 | the default object has no pattern, no sequence, and frequency and deviation -1 |
| `GlobalVariants.GlobalVariant.SetSequence` | bin/3rdPartyTools/qsr/QuRe/GlobalVariant.java:27-63 | the sequence is the table's letters (reference over [start, stop], events patched in) in ascending position order, without '-' |
| `GlobalVariants.FillReference` | bin/3rdPartyTools/qsr/QuRe/GlobalVariant.java:29-36 | one entry per reference position, holding the reference letter |
| `GlobalVariants.PutEvents` | bin/3rdPartyTools/qsr/QuRe/GlobalVariant.java:43-51 | each event, in list order, puts its base at its position |
| `GlobalVariants.SortedKeysOf` | bin/3rdPartyTools/qsr/QuRe/GlobalVariant.java:55-56 | `Arrays.sort` of the key set lists every key once, in strictly ascending order |
| `GlobalVariants.ReadInOrder` | bin/3rdPartyTools/qsr/QuRe/GlobalVariant.java:54-61 | the letters of the table in ascending key order |
| `GlobalVariants.OverlayLastWins` | bin/3rdPartyTools/qsr/QuRe/GlobalVariant.java:43-51 | a later event at the same position overwrites an earlier one; other positions keep their letter |
| `GlobalVariants.EventIsKeyed` | bin/3rdPartyTools/qsr/QuRe/GlobalVariant.java:49-50 | every event is put at its own position, inside [start, stop] or not |
| `GlobalVariants.ReferenceSpelled` | bin/3rdPartyTools/qsr/QuRe/GlobalVariant.java:29-61 | without events the table spells the reference slice in order |
| `GlobalVariants.ReferenceOnly` | bin/3rdPartyTools/qsr/QuRe/GlobalVariant.java:29-61 | with no events the sequence is `refGenome[(int)(start-1) .. (int)stop)` |
| `GlobalVariants.ReferenceStep` | bin/3rdPartyTools/qsr/QuRe/GlobalVariant.java:30-36 | the last sorted key of the reference table is its top position |
| `GlobalVariants.SpellAgrees` | bin/3rdPartyTools/qsr/QuRe/GlobalVariant.java:57-61 | spelling reads only the listed keys |
| `GlobalVariants.RemoveGapsOfPlain` | bin/3rdPartyTools/qsr/QuRe/GlobalVariant.java:62 | removing gaps leaves a gap-free string as it is |
| `GlobalVariants.SortedKeys` | bin/3rdPartyTools/qsr/QuRe/GlobalVariant.java:56 | sorting distinct keys gives a strictly increasing listing of the same keys, so an insertion follows its whole-number anchor |
| `IndexSearch.MismatchFwd` | bin/3rdPartyTools/qsr/QuRe/LocalVariantSetEnsemble.java:305-311 | -1 exactly when every pair (i, i+1) with i >= g overlaps; otherwise i+1 for the first failing pair, a value in (g, n-1] |
| `IndexSearch.MismatchRwd` | bin/3rdPartyTools/qsr/QuRe/LocalVariantSetEnsemble.java:313-319 | -1 exactly when every pair below g overlaps; otherwise i-1 for the first failing pair going down from g, a value in [0, g) |
| `IndexSearch.ConsistentOverlaps` | bin/3rdPartyTools/qsr/QuRe/LocalVariantSetEnsemble.java:369-382 | false for null, otherwise true exactly when every adjacent pair overlaps |
| `IndexSearch.NoMismatchIffConsistent` | bin/3rdPartyTools/qsr/QuRe/LocalVariantSetEnsemble.java:305-319 | whatever the guide, both scans find nothing exactly when the vector is consistent |
| `IndexSearch.RwdReadsPrefix` | bin/3rdPartyTools/qsr/QuRe/LocalVariantSetEnsemble.java:326-327 | the backward scan reads only positions 0 .. g, so the mismatch found in the old vector stays valid after a forward repair that changed only positions above g |
| `IndexSearch.CarryDown` | bin/3rdPartyTools/qsr/QuRe/LocalVariantSetEnsemble.java:330-335 | the forward carry raises one position, moves down while it overflows and lies above g, and leaves every passed position at its size |
| `IndexSearch.CarryUp` | bin/3rdPartyTools/qsr/QuRe/LocalVariantSetEnsemble.java:349-354 | the backward carry, moving up toward g |
| `IndexSearch.ZeroOut` | bin/3rdPartyTools/qsr/QuRe/LocalVariantSetEnsemble.java:338-343 | the reset loops set one range of positions to 0 and keep the rest |
| `IndexSearch.UpdateMatchingSet` | bin/3rdPartyTools/qsr/QuRe/LocalVariantSetEnsemble.java:321-367 | works on a copy; null exactly when a carry reaches g and idx[g] overflows; every result is in bounds; an inconsistent vector moves strictly forward in search order; no consistent vector is passed over |
| `IndexSearch.RepairFwd` | bin/3rdPartyTools/qsr/QuRe/LocalVariantSetEnsemble.java:328-346 | overflow at g gives null; landing on g restarts with every other position 0; stopping above g changes only positions above g and moves forward |
| `IndexSearch.ContinuedFwd` | bin/3rdPartyTools/qsr/QuRe/LocalVariantSetEnsemble.java:338-339 | a forward repair stopping above g keeps positions 0 .. g and moves forward in search order |
| `IndexSearch.RepairRwd` | bin/3rdPartyTools/qsr/QuRe/LocalVariantSetEnsemble.java:347-365 | the same three outcomes for the backward repair below g |
| `IndexSearch.ContinuedRwd` | bin/3rdPartyTools/qsr/QuRe/LocalVariantSetEnsemble.java:357-358 | a backward repair stopping below g keeps positions g .. n-1 and moves forward in search order |
| `IndexSearch.Digits` | bin/3rdPartyTools/qsr/QuRe/LocalVariantSetEnsemble.java:321-367 | the search order's digits: idx[g], idx[g+1] .. idx[n-1], then idx[g-1] .. idx[0] |
| `IndexSearch.BumpedAbove` | bin/3rdPartyTools/qsr/QuRe/LocalVariantSetEnsemble.java:330-339 | raising a position above g, keeping those before it, moves forward in search order |
| `IndexSearch.BumpedBelow` | bin/3rdPartyTools/qsr/QuRe/LocalVariantSetEnsemble.java:349-358 | raising a position below g, keeping those after it, moves forward in search order |
| `IndexSearch.BumpSkips` | bin/3rdPartyTools/qsr/QuRe/LocalVariantSetEnsemble.java:330-339 | a carry step skips only vectors that come before the old one or agree with it at the failing pair |
| `IndexSearch.ZerosSkipNothing` | bin/3rdPartyTools/qsr/QuRe/LocalVariantSetEnsemble.java:418-420 | the all-zero start vector has passed over nothing |
| `IndexSearch.SharesUpperMismatch` | bin/3rdPartyTools/qsr/QuRe/LocalVariantSetEnsemble.java:305-311 | a vector agreeing at a failing pair above g fails above g too |
| `IndexSearch.SharesLowerMismatch` | bin/3rdPartyTools/qsr/QuRe/LocalVariantSetEnsemble.java:313-319 | a vector agreeing at a failing pair below g fails below g too |
| `IndexSearch.UpperStep` | bin/3rdPartyTools/qsr/QuRe/LocalVariantSetEnsemble.java:330-339 | a vector passed over by the forward carry is inconsistent |
| `IndexSearch.SkipFwd` | bin/3rdPartyTools/qsr/QuRe/LocalVariantSetEnsemble.java:328-346 | the forward repair keeps "no consistent vector passed over" |
| `IndexSearch.LowerStep` | bin/3rdPartyTools/qsr/QuRe/LocalVariantSetEnsemble.java:349-358 | a vector passed over by the backward carry is inconsistent |
| `IndexSearch.SkipRwd` | bin/3rdPartyTools/qsr/QuRe/LocalVariantSetEnsemble.java:347-365 | the backward repair keeps "no consistent vector passed over" |
| `IndexSearch.Exhausted` | bin/3rdPartyTools/qsr/QuRe/LocalVariantSetEnsemble.java:336-337 | when a carry reaches g, no consistent vector has its guide position at idx[g] or below |
| `IndexSearch.SkipRestart` | bin/3rdPartyTools/qsr/QuRe/LocalVariantSetEnsemble.java:340-345 | restarting from the next guide entry keeps "no consistent vector passed over" |
| `IndexSearch.FirstFound` | bin/3rdPartyTools/qsr/QuRe/LocalVariantSetEnsemble.java:422-433 | a consistent vector reached with nothing passed over is the earliest in search order |
| `IndexSearch.ValueLex` | bin/3rdPartyTools/qsr/QuRe/LocalVariantSetEnsemble.java:422-433 | the mixed-radix value grows with the search order, so it is a bounded measure |
| `IndexSearch.Progress` | bin/3rdPartyTools/qsr/QuRe/LocalVariantSetEnsemble.java:422-433 | each update strictly lowers the number of vectors left to search, which stays positive |
| `IndexSearch.SearchConsistent` | bin/3rdPartyTools/qsr/QuRe/LocalVariantSetEnsemble.java:417-433 | the `while(!consistentOverlaps)` loop terminates; a result is in bounds, consistent and the earliest; no result means no consistent vector exists; a consistent start vector is returned as it is |
| `Bases.SetChannel` | bin/3rdPartyTools/qsr/QuRe/Base.java:85-94 | writing one channel sets it and leaves the other four alone |
| `Bases.SetChannelMass` | bin/3rdPartyTools/qsr/QuRe/Base.java:84-94 | overwriting one channel changes the total by the difference |
| `Bases.ArgMax` | bin/3rdPartyTools/qsr/QuRe/Base.java:95-116 | the consensus holds a largest count, and a later channel wins only when strictly larger than each earlier one |
| `Bases.ArgMaxIsFirstMaximum` | bin/3rdPartyTools/qsr/QuRe/Base.java:95-116 | the consensus is the first maximum in the order A, C, G, T, '-' |
| `Bases.RecountFillsCoverage` | bin/3rdPartyTools/qsr/QuRe/Base.java:82-94 | coverage is raised to at least the total; when the reference channel was 0, the channels afterwards add up to the coverage and no other channel changes |
| `Bases.Corrected` | bin/3rdPartyTools/qsr/QuRe/Base.java:148-189 | correcting with a consensus in {A, C, G, T, -} keeps the total |
| `Bases.Emptied` | bin/3rdPartyTools/qsr/QuRe/Base.java:150-179 | exactly the flagged channels (positive, error above the tolerance) are zeroed |
| `Bases.CorrectedChannels` | bin/3rdPartyTools/qsr/QuRe/Base.java:148-189 | a channel other than the consensus is emptied exactly when flagged; the consensus channel receives all the removed mass |
| `Bases.Entropy` | bin/3rdPartyTools/qsr/QuRe/Base.java:56-78 | the entropy is -1 exactly when coverage is 0, and non-negative otherwise |
| `Bases.Base.constructor` | bin/3rdPartyTools/qsr/QuRe/Base.java:22-37 | position -1, bases 'X', empty counts, probCoverage -1, flags false, entropy -1 |
| `Bases.Base.Init` | bin/3rdPartyTools/qsr/QuRe/Base.java:39-54 | the ten-argument constructor stores its arguments, with probCoverage -1 and flags false |
| `Bases.Base.CalculateEntropy` | bin/3rdPartyTools/qsr/QuRe/Base.java:56-78 | the entropy field becomes the entropy of the counts (-1 when coverage is 0, else non-negative) |
| `Bases.Base.SetConsensus` | bin/3rdPartyTools/qsr/QuRe/Base.java:80-123 | recount, consensus the first maximum, and `removed` set with consensus '?' when coverage < 30 or probCoverage < threshold; `removed` is never cleared |
| `Bases.Base.RecountChannels` | bin/3rdPartyTools/qsr/QuRe/Base.java:82-94 | coverage raised to the total, the reference channel set to coverage minus the previous total |
| `Bases.Base.ScanConsensus` | bin/3rdPartyTools/qsr/QuRe/Base.java:95-116 | the consensus becomes the first maximum of the counts |
| `Bases.Base.Correct` | bin/3rdPartyTools/qsr/QuRe/Base.java:125-192 | a no-op when consensus is '?'; otherwise flagged channels are emptied into the consensus channel (total kept), `corrected` is set iff some channel was flagged, and `removed` is only ever set |
| `Bases.Base.Redistribute` | bin/3rdPartyTools/qsr/QuRe/Base.java:148-189 | the counts become the corrected counts and `corrected` records whether any channel was flagged |
| `Bases.Base.EmptyFlagged` | bin/3rdPartyTools/qsr/QuRe/Base.java:148-179 | the flagged channels are zeroed and their mass collected |
| `Bases.Base.MoveToConsensus` | bin/3rdPartyTools/qsr/QuRe/Base.java:180-189 | the collected mass is added to the consensus channel |
| `Bases.ClearChannel` | bin/3rdPartyTools/qsr/QuRe/Base.java:150-155 | one channel is zeroed and its mass collected exactly when positive with error above the tolerance |
| `BaseSets.Weight` | bin/3rdPartyTools/qsr/QuRe/ReadSet.java:137-155 | an event adds the same share (1, 0.5, 0.3333 or 0.2) to every channel its IUPAC symbol denotes and nothing to the others |
| `BaseSets.WeightMass` | bin/3rdPartyTools/qsr/QuRe/ReadSet.java:137-155 | one event weighs 1 in total, except a three-base code, which weighs 0.9999 |
| `BaseSets.AddAllAt` | bin/3rdPartyTools/qsr/QuRe/ReadSet.java:126-183 | after the tally the records are the reference positions and the event positions; a position's reference is the genome's, or '-' when an event created it; its counts are the summed weights of its events |
| `BaseSets.AddAllConcat` | bin/3rdPartyTools/qsr/QuRe/ReadSet.java:126-131 | tallying two event lists in turn is tallying their concatenation |
| `BaseSets.WeightAtAbsent` | bin/3rdPartyTools/qsr/QuRe/ReadSet.java:131-134 | a position named by no event receives no weight |
| `BaseSets.InitialAt` | bin/3rdPartyTools/qsr/QuRe/ReadSet.java:119-125 | the reference records are positions 1 .. n, each with its genome base and no counts |
| `BaseSets.InitialRecords` | bin/3rdPartyTools/qsr/QuRe/ReadSet.java:119-125 | the first loop builds exactly the reference records |
| `BaseSets.AddEvents` | bin/3rdPartyTools/qsr/QuRe/ReadSet.java:131-183 | the loop over one read's events adds each event's weight in turn |
| `BaseSets.Tally` | bin/3rdPartyTools/qsr/QuRe/ReadSet.java:117-186 | the reference records with every event of every read added, in population order |
| `BaseSets.Smoothed` | bin/3rdPartyTools/qsr/QuRe/ReadSet.java:226-236 | one window average per sorted position |
| `BaseSets.WindowSum` | bin/3rdPartyTools/qsr/QuRe/ReadSet.java:229-235 | the inner loop sums the coverages of indices [max(0, i-10), min(n, i+10)) and counts them |
| `BaseSets.WindowAverages` | bin/3rdPartyTools/qsr/QuRe/ReadSet.java:224-242 | the averages are the smoothed profile and the peak index is the first strict maximum above 0, or 0 |
| `BaseSets.ExtendUp` | bin/3rdPartyTools/qsr/QuRe/ReadSet.java:243-252 | from the peak, the last position reached through gaps below 1.1; the next gap, if any, is at least 1.1 |
| `BaseSets.ExtendDown` | bin/3rdPartyTools/qsr/QuRe/ReadSet.java:243-260 | from the peak, the first position reached downward through gaps below 1.1 |
| `BaseSets.Region` | bin/3rdPartyTools/qsr/QuRe/ReadSet.java:243-260 | maxCoverageStart and maxCoverageStop are the ends of the maximal run of closely spaced positions around the peak |
| `BaseSets.RegionKeepsRun` | bin/3rdPartyTools/qsr/QuRe/ReadSet.java:281-286 | over increasing positions the region filter keeps exactly the run |
| `BaseSets.Extent` | bin/3rdPartyTools/qsr/QuRe/ReadSet.java:287-304 | the new bounds start from the old alignStop and alignStart and enclose every surviving position |
| `BaseSets.ExtentIsExtremes` | bin/3rdPartyTools/qsr/QuRe/ReadSet.java:287-304 | when positions survive within the old alignment, alignStart <= alignStop are the extreme surviving positions |
| `BaseSets.PlusMass` | bin/3rdPartyTools/qsr/QuRe/ReadSet.java:157-181 | adding an event's channels to a record adds their masses |
| `BaseSets.FirstPeakUnique` | bin/3rdPartyTools/qsr/QuRe/ReadSet.java:236-241 | the peak index the scan picks is the only one meeting its definition |
| `BaseSets.RunUnique` | bin/3rdPartyTools/qsr/QuRe/ReadSet.java:243-260 | there is one maximal run around a given index |
| `BaseSets.BaseCoverage` | bin/3rdPartyTools/qsr/QuRe/ReadSet.java:188-198 | a base's coverage is the number of reads whose span [start, stop] holds its position |
| `Amplicons.CheckConsistency` | bin/3rdPartyTools/qsr/QuRe/AmpliconSet.java:239-253 | one window, or every window overlapping the next with both ends advancing; ConsistentLayout and Advance derive the ordering of the whole layout |
| `Amplicons.CheckNonMutualOverlapsConsistency` | bin/3rdPartyTools/qsr/QuRe/AmpliconSet.java:255-288 | the two-window test, or every triple consistent with no window reaching the next but one; NonMutualImpliesConsistency and NonMutualIsStronger prove it strictly stronger than checkConsistency |
| `Amplicons.NonMutualImpliesConsistency` | bin/3rdPartyTools/qsr/QuRe/AmpliconSet.java:239-288 | a layout passing checkNonMutualOverlapsConsistency passes checkConsistency |
| `Amplicons.NonMutualIsStronger` | bin/3rdPartyTools/qsr/QuRe/AmpliconSet.java:255-288 | three windows where the first reaches the third pass checkConsistency but not the non-mutual test |
| `Amplicons.ConsistentLayout` | bin/3rdPartyTools/qsr/QuRe/AmpliconSet.java:239-253 | a consistent layout has strictly increasing starts and stops, non-empty windows when there are two or more, and a positive overlap between neighbours |
| `Amplicons.Advance` | bin/3rdPartyTools/qsr/QuRe/AmpliconSet.java:243-251 | in a consistent layout any later window starts and stops strictly after any earlier one |
| `Amplicons.Covering` | bin/3rdPartyTools/qsr/QuRe/AmpliconSet.java:69-79 | covering[j] is a subsequence of the population, no longer than it |
| `Amplicons.CoveringExact` | bin/3rdPartyTools/qsr/QuRe/AmpliconSet.java:71-79 | covering[j] holds exactly the reads that span the window |
| `Amplicons.Coverages` | bin/3rdPartyTools/qsr/QuRe/AmpliconSet.java:64-85 | one coverage per window |
| `Amplicons.CoveragesBelow` | bin/3rdPartyTools/qsr/QuRe/AmpliconSet.java:84 | rcv[j] is the number of reads spanning window j |
| `Amplicons.CoverWindow` | bin/3rdPartyTools/qsr/QuRe/AmpliconSet.java:69-79 | the inner loop gathers the spanning reads in population order and counts them |
| `Amplicons.CoversAppend` | bin/3rdPartyTools/qsr/QuRe/AmpliconSet.java:67-85 | appending the next window's covering keeps every covering list exact |
| `Amplicons.ReadCoverage` | bin/3rdPartyTools/qsr/QuRe/AmpliconSet.java:64-86 | the coverage loop yields rcv, its minimum mrc and the covering lists |
| `Amplicons.CoverageBounds` | bin/3rdPartyTools/qsr/QuRe/AmpliconSet.java:80-86 | minReadCoverage is some window's coverage and no more than any window's or the population's; it is zero exactly when some window is spanned by no read |
| `Amplicons.LeastAppend` | bin/3rdPartyTools/qsr/QuRe/AmpliconSet.java:80-83 | the running minimum after one more value is that value when it is below the minimum so far, and stays an entry no entry is below |
| `Amplicons.LeastIsMin` | bin/3rdPartyTools/qsr/QuRe/AmpliconSet.java:80-83 | an entry no entry is below is the minimum that Functions.min returns |
| `Amplicons.RowScaledIsRow` | bin/3rdPartyTools/qsr/QuRe/AmpliconSet.java:120-126 | adding each distance divided by the overlap length sums to the row's total divided once |
| `Amplicons.RowsScaledIsTotal` | bin/3rdPartyTools/qsr/QuRe/AmpliconSet.java:119-126 | the same over all rows |
| `Amplicons.AddRow` | bin/3rdPartyTools/qsr/QuRe/AmpliconSet.java:120-126 | the inner pair loop adds the scaled distances of read i to every later read |
| `Amplicons.ExhaustiveSum` | bin/3rdPartyTools/qsr/QuRe/AmpliconSet.java:119-126 | the double loop yields the sum of all pairwise distances over the overlap, divided by its length |
| `Amplicons.OverlapDiversity` | bin/3rdPartyTools/qsr/QuRe/AmpliconSet.java:108-142 | one overlap's diversity: zero without coverage, the mean pair distance per base below 3333 pairs, the sampled estimate otherwise |
| `Amplicons.Diversities` | bin/3rdPartyTools/qsr/QuRe/AmpliconSet.java:89-153 | one diversity per overlap |
| `Amplicons.DiversitiesShape` | bin/3rdPartyTools/qsr/QuRe/AmpliconSet.java:152 | modp2[j-1] is the diversity of the overlap between windows j-1 and j |
| `Amplicons.DiversityStats` | bin/3rdPartyTools/qsr/QuRe/AmpliconSet.java:88-154 | the overlap loop yields modp2 and its minimum, 0 for a single window |
| `Amplicons.UncoveredMeansNoDiversity` | bin/3rdPartyTools/qsr/QuRe/AmpliconSet.java:115 | with a window no read spans every overlap diversity is zero and none counts as non-zero |
| `Amplicons.NoPositive` | bin/3rdPartyTools/qsr/QuRe/AmpliconSet.java:164-165 | all-zero diversities count no non-zero overlap |
| `Amplicons.DiversityNonNegative` | bin/3rdPartyTools/qsr/QuRe/AmpliconSet.java:113-154 | on a consistent layout every diversity and their minimum are non-negative and the division by zero never happens |
| `Amplicons.OneDiversityNonNegative` | bin/3rdPartyTools/qsr/QuRe/AmpliconSet.java:113-141 | one overlap's diversity is non-negative when the overlap has positive length and each side has a read |
| `Amplicons.PairsAtLeastOne` | bin/3rdPartyTools/qsr/QuRe/AmpliconSet.java:127 | two or more reads give at least one pair to divide by |
| `Amplicons.CountPositive` | bin/3rdPartyTools/qsr/QuRe/AmpliconSet.java:164-165 | the number of non-zero diversities is at most their number |
| `Amplicons.CountPositiveAppend` | bin/3rdPartyTools/qsr/QuRe/AmpliconSet.java:164-165 | one more diversity adds one exactly when it is positive |
| `Amplicons.OverlapStats` | bin/3rdPartyTools/qsr/QuRe/AmpliconSet.java:156-166 | the overlap-length loop yields the lengths, their minimum and the count of non-zero diversities |
| `Amplicons.OverlapLengthPositive` | bin/3rdPartyTools/qsr/QuRe/AmpliconSet.java:156-163 | a consistent layout's overlap lengths and their minimum are positive |
| `Amplicons.NonZeroFractionBelowOne` | bin/3rdPartyTools/qsr/QuRe/AmpliconSet.java:167 | dividing by the number of windows, not of overlaps, keeps the fraction in [0, 1) |
| `Amplicons.StatsOf` | bin/3rdPartyTools/qsr/QuRe/AmpliconSet.java:59-177 | the ten statistics of a layout; ComputeStats computes it, StatsOfBounds bounds it |
| `Amplicons.StatsOfBounds` | bin/3rdPartyTools/qsr/QuRe/AmpliconSet.java:59-177 | on a consistent layout the minimum coverage is a read count, zero exactly when a window is unspanned; the minimum diversity is non-negative; the non-zero fraction is in [0, 1); the window count is the layout's length; the minimum overlap is positive |
| `Amplicons.ComputeStats` | bin/3rdPartyTools/qsr/QuRe/AmpliconSet.java:59-177 | the statistics constructor computes the ten statistics of the layout |
| `Amplicons.CountBounds` | bin/3rdPartyTools/qsr/QuRe/AmpliconSet.java:189-201 | the tail counts are at most n, at least 1 for a value among the candidates, and monotone in the statistic |
| `Amplicons.TailProbability` | bin/3rdPartyTools/qsr/QuRe/AmpliconSet.java:202-211 | each tail fraction lies in [0, 1], and is at least 1/n for a value among the candidates |
| `Amplicons.Adjusted` | bin/3rdPartyTools/qsr/QuRe/AmpliconSet.java:322-324 | a length is at least 50, and unchanged when it already is and the uniform replacement is not drawn |
| `Amplicons.ProposedLength` | bin/3rdPartyTools/qsr/QuRe/AmpliconSet.java:316-324 | every proposed window length is at least 50 |
| `Amplicons.FirstLength` | bin/3rdPartyTools/qsr/QuRe/AmpliconSet.java:301-310 | the first chained window is at least 50 long |
| `Amplicons.LinkFacts` | bin/3rdPartyTools/qsr/QuRe/AmpliconSet.java:325-330 | a chain step ends within the alignment, past the previous stop, clamped to alignStop once beyond it, and starts inside the previous window |
| `Amplicons.LinkStart` | bin/3rdPartyTools/qsr/QuRe/AmpliconSet.java:325-326 | the next start lies between the previous start and the previous stop |
| `Amplicons.GapDecreases` | bin/3rdPartyTools/qsr/QuRe/AmpliconSet.java:312-331 | each step brings the chain closer to alignStop, so the loop ends |
| `Amplicons.ChainWindows` | bin/3rdPartyTools/qsr/QuRe/AmpliconSet.java:297-331 | the chain grows one linked window at a time until a stop equals alignStop |
| `Amplicons.ChainWithinAlignment` | bin/3rdPartyTools/qsr/QuRe/AmpliconSet.java:325-330 | every stop after the first lies within the alignment and stops advance until alignStop |
| `Amplicons.ChainShape` | bin/3rdPartyTools/qsr/QuRe/AmpliconSet.java:311-331 | when the first window fits, each window starts inside the previous one, starts never move back and stops strictly advance |
| `Amplicons.ChainOvershoot` | bin/3rdPartyTools/qsr/QuRe/AmpliconSet.java:311-328 | when the first window overshoots, the chain has exactly two windows, the second ending at alignStop |
| `Amplicons.TiledStarts` | bin/3rdPartyTools/qsr/QuRe/AmpliconSet.java:358-363 | the tiling's i-th start is alignStart + i * step |
| `Amplicons.TiledConsistent` | bin/3rdPartyTools/qsr/QuRe/AmpliconSet.java:356-369 | a tiling with a positive window passes checkConsistency and every overlap is exactly the window long |
| `Amplicons.TileGapDecreases` | bin/3rdPartyTools/qsr/QuRe/AmpliconSet.java:360-363 | each tiling step brings the stop closer to alignStop, so the loop ends |
| `Amplicons.Tile` | bin/3rdPartyTools/qsr/QuRe/AmpliconSet.java:356-369 | the tiling loop shifts both ends by step until alignStop, clamping the last stop |
| `Amplicons.FixedStep` | bin/3rdPartyTools/qsr/QuRe/AmpliconSet.java:355 | the step is at least 5 |
| `Amplicons.FixedWindows` | bin/3rdPartyTools/qsr/QuRe/AmpliconSet.java:342-369 | the fixed layout tiles with the proposed window, or a third of the alignment when it does not fit |
| `Amplicons.Values` | bin/3rdPartyTools/qsr/QuRe/AmpliconSet.java:219-229 | the ten probabilities the score adds |
| `Amplicons.AmpliconSet.constructor` | bin/3rdPartyTools/qsr/QuRe/AmpliconSet.java:32-57 | no windows, every statistic and probability zero, score -1E100 |
| `Amplicons.AmpliconSet.WithStats` | bin/3rdPartyTools/qsr/QuRe/AmpliconSet.java:59-177 | the layout as given, its statistics over the population, probabilities zero and score 0 |
| `Amplicons.LogScore` | bin/3rdPartyTools/qsr/QuRe/AmpliconSet.java:219-229 | the sum of log(max(1E-100, p)) over the probabilities; LogScoreConcat proves it adds up term by term |
| `Amplicons.LogScoreConcat` | bin/3rdPartyTools/qsr/QuRe/AmpliconSet.java:219-229 | the score of two lists of probabilities is the sum of their scores, so each probability adds its own term |
| `Amplicons.AmpliconSet.SetStats` | bin/3rdPartyTools/qsr/QuRe/AmpliconSet.java:179-232 | each probability is the fraction of candidates at most as good (at least as many windows), the two length probabilities adding their old value; the score is the sum of floored logarithms, -1E100 when not finite; the layout and statistics are unchanged |
| `Amplicons.AmpliconSet.InitialiseRandomAmpliconSet` | bin/3rdPartyTools/qsr/QuRe/AmpliconSet.java:290-399 | the layout drawn, its statistics, probabilities zero except the three left uncopied, score 0 |
| `Amplicons.AmpliconSet.Adopt` | bin/3rdPartyTools/qsr/QuRe/AmpliconSet.java:378-398 | fields copied from a fresh candidate, except numOverlapsProbability and the two length probabilities, which keep their values |
| `Amplicons.DrawLayout` | bin/3rdPartyTools/qsr/QuRe/AmpliconSet.java:292-377 | chained with a draw below 0.9, otherwise a fixed tiling |
| `Amplicons.AmpliconSet.IsBetter` | bin/3rdPartyTools/qsr/QuRe/AmpliconSet.java:234-237 | a strictly higher score; IsBetterStrictOrder proves it a strict order |
| `Amplicons.IsBetterStrictOrder` | bin/3rdPartyTools/qsr/QuRe/AmpliconSet.java:234-237 | isBetter is irreflexive, asymmetric and transitive, and candidates neither better than the other have equal scores |
| `AmpliconSearch.Proposed` | bin/3rdPartyTools/qsr/QuRe/ReadSet.java:882 | fourteen proposed window sizes |
| `AmpliconSearch.Clamped` | bin/3rdPartyTools/qsr/QuRe/ReadSet.java:890-891 | a redrawn size is at least 50 |
| `AmpliconSearch.WindowSizes` | bin/3rdPartyTools/qsr/QuRe/ReadSet.java:882-892 | each of the fourteen sizes is its proposal, narrowed for a small standard deviation, then redrawn when below 50; all are at least 50 |
| `AmpliconSearch.SweepLoop` | bin/3rdPartyTools/qsr/QuRe/ReadSet.java:905-919 | the tiling loop as written, run for a bounded number of passes; SweepLoopDiverges and ShortAlignmentHangs prove it never exits for a step that is not positive |
| `AmpliconSearch.SweepLoopDiverges` | bin/3rdPartyTools/qsr/QuRe/ReadSet.java:905-919 | with a step that is not positive and a first stop inside the alignment the tiling loop never exits |
| `AmpliconSearch.ShortAlignmentHangs` | bin/3rdPartyTools/qsr/QuRe/ReadSet.java:902-919 | an alignment shorter than 50 makes the first sweep cell loop forever |
| `AmpliconSearch.SweepLayout` | bin/3rdPartyTools/qsr/QuRe/ReadSet.java:902-926 | one sweep cell: no layout exactly when the step is not positive, otherwise the tiling of the clamped window |
| `AmpliconSearch.Sweep` | bin/3rdPartyTools/qsr/QuRe/ReadSet.java:896-933 | 9 x 14 cells in the source's order, steps outer and sizes inner, each holding its cell's tiling |
| `AmpliconSearch.SweptConsistent` | bin/3rdPartyTools/qsr/QuRe/ReadSet.java:927-929 | over a non-empty alignment every layout the sweep makes passes checkConsistency |
| `AmpliconSearch.Candidates` | bin/3rdPartyTools/qsr/QuRe/ReadSet.java:980-988 | the kept list is no longer than the list |
| `AmpliconSearch.CandidatesExact` | bin/3rdPartyTools/qsr/QuRe/ReadSet.java:984-987 | a member is kept exactly when it is consistent and every window has more than one read |
| `AmpliconSearch.CandidatesConcat` | bin/3rdPartyTools/qsr/QuRe/ReadSet.java:980-988 | the filter works block by block, so the kept members stay in list order |
| `AmpliconSearch.KeepCandidates` | bin/3rdPartyTools/qsr/QuRe/ReadSet.java:980-988 | the in-place removal loop leaves exactly the candidates, in order |
| `AmpliconSearch.ByScore` | bin/3rdPartyTools/qsr/QuRe/ReadSet.java:1079-1090 | one sort key per candidate |
| `AmpliconSearch.Ranked` | bin/3rdPartyTools/qsr/QuRe/ReadSet.java:1079-1090 | the stable sort by descending score; RankedOrder proves it a permutation with non-increasing scores |
| `AmpliconSearch.RankedOrder` | bin/3rdPartyTools/qsr/QuRe/ReadSet.java:1079-1090 | the ranking is a permutation of the list with non-increasing scores |
| `AmpliconSearch.BurnOut` | bin/3rdPartyTools/qsr/QuRe/ReadSet.java:1102-1114 | the cut is the first index whose cumulative weight reaches 0.9, or 0, and what it keeps weighs less than 0.9 |
| `AmpliconSearch.BurnOutEmpty` | bin/3rdPartyTools/qsr/QuRe/ReadSet.java:1102-1114 | when the best candidate alone carries 0.9 of the weight, the cut keeps nothing |
| `AmpliconSearch.CredibleCount` | bin/3rdPartyTools/qsr/QuRe/ReadSet.java:1102-1114 | the shortest prefix of the ranking whose weight reaches 0.9, or the whole ranking |
| `AmpliconSearch.CredibleCountExtendsBurnOut` | bin/3rdPartyTools/qsr/QuRe/ReadSet.java:1102-1114 | the corrected cut keeps exactly one candidate more than the written one when the weight reaches 0.9 |
| `AmpliconSearch.AltBest` | bin/3rdPartyTools/qsr/QuRe/ReadSet.java:1118-1141 | the written loop always yields 0 |
| `AmpliconSearch.Probabilities` | bin/3rdPartyTools/qsr/QuRe/ReadSet.java:1125-1134 | one probability record per candidate |
| `AmpliconSearch.FirstBalanced` | bin/3rdPartyTools/qsr/QuRe/ReadSet.java:1118-1141 | the first candidate whose ten probabilities are all at least 0.5, or 0 when none is |
| `AmpliconSearch.AltBestMissesBalanced` | bin/3rdPartyTools/qsr/QuRe/ReadSet.java:1121-1139 | after an unbalanced best candidate, a balanced second one is chosen by the corrected loop and missed by the written one |
| `ReadSets.Significant` | bin/3rdPartyTools/qsr/QuRe/ReadSet.java:90-101 | the retained reads are no more than the population |
| `ReadSets.SignificantExact` | bin/3rdPartyTools/qsr/QuRe/ReadSet.java:94-100 | a read is retained exactly when its adjusted p-value is at most alpha |
| `ReadSets.SignificantConcat` | bin/3rdPartyTools/qsr/QuRe/ReadSet.java:90-101 | the filter works block by block, so the retained reads keep their order |
| `ReadSets.Aligned` | bin/3rdPartyTools/qsr/QuRe/ReadSet.java:59-66 | the retained reads are no more than the population |
| `ReadSets.AlignedExact` | bin/3rdPartyTools/qsr/QuRe/ReadSet.java:62-65 | a read is dropped exactly when it ends before alignStart or starts after alignStop |
| `ReadSets.AlignedConcat` | bin/3rdPartyTools/qsr/QuRe/ReadSet.java:59-66 | the filter works block by block, so the retained reads keep their order |
| `ReadSets.FilterSignificant` | bin/3rdPartyTools/qsr/QuRe/ReadSet.java:90-101 | walking the list and removing in place each read whose adjusted p-value exceeds alpha leaves exactly the significant reads, in order |
| `ReadSets.FilterAligned` | bin/3rdPartyTools/qsr/QuRe/ReadSet.java:59-66 | walking the list and removing in place each read outside the alignment window leaves exactly the aligned reads, in order |
| `ReadSets.ReadLengths` | bin/3rdPartyTools/qsr/QuRe/ReadSet.java:74-81 | one post-alignment length per read |
| `ReadSets.Lengths` | bin/3rdPartyTools/qsr/QuRe/ReadSet.java:74-81 | the loop fills readLengths with insertions plus span of each read |
| `ReadSets.ByPvalue` | bin/3rdPartyTools/qsr/QuRe/ReadSet.java:434-447 | one sort key per read |
| `ReadSets.SortedByPvalueOrder` | bin/3rdPartyTools/qsr/QuRe/ReadSet.java:434-447 | the p-value sort is a permutation with non-decreasing p-values |
| `ReadSets.Adjustment` | bin/3rdPartyTools/qsr/QuRe/ReadSet.java:446-460 | the BH step-up value or the capped Bonferroni value; AdjustmentRange bounds it |
| `ReadSets.AdjustmentRange` | bin/3rdPartyTools/qsr/QuRe/ReadSet.java:446-460 | under BH the adjusted value is at least the raw p-value; otherwise it is p times n capped at 1 |
| `ReadSets.StepUpUncapped` | bin/3rdPartyTools/qsr/QuRe/ReadSet.java:448-452 | the step-up value exceeds the raw p-value and is not capped at 1 |
| `ReadSets.Dictionary` | bin/3rdPartyTools/qsr/QuRe/ReadSet.java:690-717 | every k-mer start with index + k below the genome length is listed under its k-mer, in ascending order, and nothing else |
| `ReadSets.IndexesStep` | bin/3rdPartyTools/qsr/QuRe/ReadSet.java:699-712 | appending the next position to its k-mer's list keeps the dictionary exact |
| `ReadSets.LastKmerNotIndexed` | bin/3rdPartyTools/qsr/QuRe/ReadSet.java:695 | the loop's strict bound leaves the last k-mer of the genome unindexed |
| `ReadSets.AscendingUnique` | bin/3rdPartyTools/qsr/QuRe/ReadSet.java:702-710 | strictly ascending position lists with the same members are equal |
| `ReadSets.Ascending` | bin/3rdPartyTools/qsr/QuRe/ReadSet.java:702-710 | a list ascending step by step is ascending throughout |
| `ReadSets.AscendingPair` | bin/3rdPartyTools/qsr/QuRe/ReadSet.java:702-710 | any earlier position in a list is below any later one |
| `ReadSets.DictionaryUnique` | bin/3rdPartyTools/qsr/QuRe/ReadSet.java:690-717 | the dictionary is determined by the genome and k |
| `ReadSets.UpperCase` | bin/3rdPartyTools/qsr/QuRe/ReadSet.java:638 | toUpperCase character by character, length kept |
| `ReadSets.UToT` | bin/3rdPartyTools/qsr/QuRe/ReadSet.java:639 | every U becomes T and nothing else changes |
| `ReadSets.KeepOnly` | bin/3rdPartyTools/qsr/QuRe/ReadSet.java:640 | removing characters never lengthens the text |
| `ReadSets.KeepOnlyExact` | bin/3rdPartyTools/qsr/QuRe/ReadSet.java:640 | exactly the allowed characters survive |
| `ReadSets.KeepOnlyConcat` | bin/3rdPartyTools/qsr/QuRe/ReadSet.java:640 | the removal works piece by piece |
| `ReadSets.KeepOnlyAll` | bin/3rdPartyTools/qsr/QuRe/ReadSet.java:640 | a text whose characters are all allowed is kept whole |
| `ReadSets.CleanReadCodes` | bin/3rdPartyTools/qsr/QuRe/ReadSet.java:638-640 | a cleaned read holds only IUPAC codes |
| `ReadSets.CleanReadIdempotent` | bin/3rdPartyTools/qsr/QuRe/ReadSet.java:638-640 | cleaning a cleaned read changes nothing |
| `ReadSets.CleanReadConcat` | bin/3rdPartyTools/qsr/QuRe/ReadSet.java:638-640 | cleaning splits over concatenation |
| `ReadSets.CleanGenomeBases` | bin/3rdPartyTools/qsr/QuRe/ReadSet.java:682-685 | a cleaned reference holds only A, C, G and T |
| `ReadSets.Headers` | bin/3rdPartyTools/qsr/QuRe/ReadSet.java:615 | header lines are listed in increasing order and are header lines |
| `ReadSets.HeadersComplete` | bin/3rdPartyTools/qsr/QuRe/ReadSet.java:615 | every header line is listed |
| `ReadSets.ParsedFirstHeader` | bin/3rdPartyTools/qsr/QuRe/ReadSet.java:615-627 | the first header opens a record named by the rest of the line, index 0, keeping the text read before it |
| `ReadSets.RecordsExtend` | bin/3rdPartyTools/qsr/QuRe/ReadSet.java:617-622 | records already closed stay as they were when a header is appended |
| `ReadSets.ParsedNextHeader` | bin/3rdPartyTools/qsr/QuRe/ReadSet.java:615-627 | a later header closes the open record and opens the next, with the next index |
| `ReadSets.ParsedLine` | bin/3rdPartyTools/qsr/QuRe/ReadSet.java:628-629 | any other line joins the open record's text |
| `ReadSets.ParsedEnd` | bin/3rdPartyTools/qsr/QuRe/ReadSet.java:604-610 | at the end of the file the open record is added |
| `ReadSets.Feed` | bin/3rdPartyTools/qsr/QuRe/ReadSet.java:615-629 | one line of the loop: a header closes the open record when there is one and opens the next; other text joins the open record; FeedParsed proves it keeps the parse |
| `ReadSets.Scan` | bin/3rdPartyTools/qsr/QuRe/ReadSet.java:601-632 | the loop variables after the first i lines; ScanParsed proves they are the parse of those lines, and ParseRecords follows it |
| `ReadSets.FeedParsed` | bin/3rdPartyTools/qsr/QuRe/ReadSet.java:615-629 | one more line, header or text, keeps the loop variables a parse of the lines read so far |
| `ReadSets.ScanParsed` | bin/3rdPartyTools/qsr/QuRe/ReadSet.java:601-632 | after any number of lines the loop variables hold the closed records, the open record and the header count |
| `ReadSets.ParseRecords` | bin/3rdPartyTools/qsr/QuRe/ReadSet.java:597-632 | the reading loop yields one record per header (one unnamed record without headers), each the text up to the next header |
| `ReadSets.ReadFasta` | bin/3rdPartyTools/qsr/QuRe/ReadSet.java:588-646 | one record per header (one unnamed record of index -1 without headers), each the text up to the next header, cleaned; the average and standard deviation are those of the cleaned lengths |
| `ReadSets.CleanAll` | bin/3rdPartyTools/qsr/QuRe/ReadSet.java:635-642 | the cleaning pass cleans every record's sequence and changes nothing else, and `rl[i]` is the cleaned length of record i |
| `ReadSets.ReadSet.constructor` | bin/3rdPartyTools/qsr/QuRe/ReadSet.java:34-44 | an empty read set |
| `ReadSets.ReadSet.RemoveBadReads` | bin/3rdPartyTools/qsr/QuRe/ReadSet.java:88-112 | the population becomes the significant reads, in order; the removed count is the difference; the program exits exactly when none remain |
| `ReadSets.ReadSet.KeepAligned` | bin/3rdPartyTools/qsr/QuRe/ReadSet.java:59-67 | the population becomes the reads reaching into the alignment, in order |
| `ReadSets.ReadSet.UpdatePopulationStats` | bin/3rdPartyTools/qsr/QuRe/ReadSet.java:57-86 | the aligned reads remain; the program exits exactly when none do; otherwise the read-length average and deviation are those of the retained reads |
| `ReadSets.ReadSet.SetAllPvalues` | bin/3rdPartyTools/qsr/QuRe/ReadSet.java:427-461 | under BH the population is stably sorted by p-value and rank i gets p(n+1)/(i+1); otherwise the order is kept and each read gets min(1, pn) |
| `ReadSets.ReadSet.BuildDictionary` | bin/3rdPartyTools/qsr/QuRe/ReadSet.java:690-720 | the genome dictionary lists every indexed k-mer start |
| `ReadSets.ReadSet.ReadReferenceGenome` | bin/3rdPartyTools/qsr/QuRe/ReadSet.java:651-688 | the name is the last header line, the genome the other lines joined and cleaned to A/C/G/T, and its dictionary is built |
| `ReadSets.ReadSet.SetAlignment` | bin/3rdPartyTools/qsr/QuRe/ReadSet.java:287-304 | the new alignStart and alignStop enclose every surviving position and are either surviving positions or the old opposite bounds |
| `ReadSets.ReadSet.SelectAmpliconSet` | bin/3rdPartyTools/qsr/QuRe/ReadSet.java:1091-1141 | goodAmpliconSets is the credible prefix of the ranking and the chosen set its first balanced member, or its first |
| `QuRe.OutputPrefix` | bin/3rdPartyTools/qsr/QuRe/QuRe.java:17-19 | without a dot the whole argument; otherwise the proper prefix before the last dot |
| `QuRe.Arguments` | bin/3rdPartyTools/qsr/QuRe/QuRe.java:21-30 | defaults for up to two arguments; failure for three or four; otherwise the parsed arguments 2, 3 and 4, failing exactly when one does not parse |
| `QuRe.Workers` | bin/3rdPartyTools/qsr/QuRe/QuRe.java:32-34 | one worker per core but one, at least one |
| `QuRe.DropEnd` | bin/3rdPartyTools/qsr/QuRe/QuRe.java:176-197 | dropping an end window leaves one fewer |
| `QuRe.WrittenAttempts` | bin/3rdPartyTools/qsr/QuRe/QuRe.java:174-201 | every layout the written loop rebuilds from is shorter than the first and has at least one window |
| `QuRe.WrittenRetryReachesOneWindow` | bin/3rdPartyTools/qsr/QuRe/QuRe.java:174-201 | when nothing reconstructs, the written loop rebuilds the ensemble from a one-window layout |
| `QuRe.DropEndConsistent` | bin/3rdPartyTools/qsr/QuRe/QuRe.java:176-197 | dropping an end window keeps a layout consistent |
| `QuRe.Retry` | bin/3rdPartyTools/qsr/QuRe/QuRe.java:174-201 | the layout ends as a block of consecutive windows of the old one, at least two, consistent when the old one was; it reconstructs, or is down to two windows |

## Left out

- Smith-Waterman-Gotoh alignment through jaligner is not modelled because it is a foreign library: `Read.align`, `setRandomScores`, `setRandomScoresParallel`, `alignParallel`, `alignThread` and the matrix loading in the `ReadSet` constructors. The events `setSNP` computes from an alignment's two character arrays are modelled.
- Threads are not modelled because their point is concurrency: `correctReadsParallel`, phase 1 of `estimateAmpliconsParallel` (ReadSet.java:936-976), `LocalVariantSet.correctLocalVariantSetParallel` and `ClusterSet`.
- The `Functions` class is not part of this model. Its helpers appear as parameters: `average`, `stdev`, `min`, `poissonError`, `zetaStandardProbability`, `inverseChi`, `isHomopolymeric`, `mergeGlobalVariantSet` and `setFrequencies`.
- Floating-point values are exact reals. No double rounding, NaN or infinity is modelled; the finiteness test on the score is a parameter.
- The score's logarithms, the `exp` normalisation of the scores (ReadSet.java:1092-1100, which becomes the weights `w`), the guide's chi-square scores, the entropy logarithms, `locationDistance` and `setPvalue` are injected as values or functions. Only the structure around them is proved.
- Every `Math.random` and Gaussian draw is an input. The random-pair sampling branch of the overlap diversity (AmpliconSet.java:130-141) is the parameter `sampled`.
- I/O is not modelled: files, `printToFile`, progress printing, logging and `System.exit`. The exits are report flags, and FASTA files are given as their lines.
- `Double.toString` of a coordinate is the parameter `posText`. Pattern tests on substrings (`-_`, `_-`, `indexOf`) are modelled on the events. This assumes a coordinate's text holds no `-`, `_` or `,`, which holds for non-negative coordinates, and that distinct coordinates have distinct texts, which holds for `Double.toString`; together these make token comparison (`Patterns.Distance`, `Patterns.RenderSplit`) the same as event comparison.
- Hashtable and HashMap iteration order is modelled as some order of the key set.
- `toUpperCase` is modelled on ASCII letters only.
- `reconstruct` and `reconstructBack` are not modelled because they are called only from commented-out code. The dead subsampling of `estimateAmpliconsParallel` (ReadSet.java:857-871) is not modelled either, since `pop` is reset to the whole population.
- The leading-comma strip of `GlobalVariant.setSequence` (GlobalVariant.java:39-40) has no counterpart, because a pattern is a list of events and has no text to strip.
- Phase 0 layouts are tied to `AmpliconSet` objects only through `AmpliconSearch.SweptConsistent` and `AmpliconSearch.Candidates`. The sweep yields layouts; it does not construct objects.
- QuRe.java:170 replaces the selected set with `goodAmpliconSets.get(0)`. `ReadSets.ReadSet.SelectAmpliconSet` models the selection itself. `QuRe.Retry` takes the set it is given.
- `AmpliconSearch.Candidate`: also requires `|starts| <= |stops|`. The Java arrays of a layout always have the same length.
- `ReadSets.ReadSet.SetAllPvalues`: requires the population to hold distinct read objects. A Java `Vector` could hold one read twice, and then its adjusted p-value would be written twice.
- `ReadSets.ReadSet.SelectAmpliconSet`: requires a non-empty ranking with one weight per candidate. On an empty ranking the source throws at `goodAmpliconSets.get(0)`.
- `ReadSets.ReadSet.SelectAmpliconSet`: follows the corrected cut and the corrected balance test, not the written ones (see Findings).
- `BaseSets.FirstPeakUnique`, `BaseSets.RunUnique` and `AmpliconSearch.CredibleCountExtendsBurnOut` are uniqueness facts that the verifier proves without a written proof.
- `Amplicons.AmpliconSet.WithStats`: the `alignStart` and `alignStop` arguments of the Java constructor are unused there, and are dropped.
- `Amplicons.AmpliconSet.WithStats`: requires at least one window. With none, the Java constructor fails at `new double[starts.length-1]`.
- `GlobalVariants.GlobalVariant.SetSequence`: requires `0 <= (int)(start-1)` and `(int)stop <= refGenome.length()` unless the range is empty. Outside that range `refGenome.charAt(i)` throws StringIndexOutOfBoundsException at GlobalVariant.java:33, and the model does not represent the exception.
- `Ensembles.Record`: requires `InGenome` for the same reason, since it calls `SetSequence`; the StringIndexOutOfBoundsException of GlobalVariant.java:33 is not modelled.
- `Ensembles.Ensemble.QuasispeciesReconstructor`: requires `InGenome` over the first start and the last stop, so that no recorded haplotype reads outside the reference; the StringIndexOutOfBoundsException of GlobalVariant.java:33 is not modelled.
- `BaseSets.ExtendUp`: requires `best < |pos|`. When every base has been removed, `bs.get(key[maxIndMaxAvgCoverage])` at ReadSet.java:243 throws ArrayIndexOutOfBoundsException, and the model does not represent the exception.
- `BaseSets.ExtendDown`: requires `best < |pos|`, excluding the same ArrayIndexOutOfBoundsException at ReadSet.java:243.
- `BaseSets.Region`: requires `best < |pos|`, excluding the same ArrayIndexOutOfBoundsException at ReadSet.java:243 on an empty key array.
- `ReadSets.ReadSet.UpdatePopulationStats`: does not store each read's midpoint in `mappingPosition` (ReadSet.java:79). Only commented-out output (QuRe.java:62) reads that field, so no behaviour depends on it.
- `AmpliconSearch.SweepLoop`: takes a fuel bound, because the written loop need not terminate. It shows non-termination as running out of every fuel.

## Findings

| source | as written | input that shows it | evidently intended | confidence | as-written member | corrected member |
|---|---|---|---|---|---|---|
| bin/3rdPartyTools/qsr/QuRe/ReadSet.java:902-919 | the sweep tiles with step `window*frac-1` and loops while the last stop is below `alignStop` | an alignment from 0 to 30: every size overshoots, so the window is 10, the first step is -0.5 and the first stop 9.5, and the stops then fall for ever | skip a step that cannot advance the tiling | not executed | `AmpliconSearch.SweepLoop`, `AmpliconSearch.ShortAlignmentHangs` | `AmpliconSearch.SweepLayout` |
| bin/3rdPartyTools/qsr/QuRe/ReadSet.java:1102-1114 | `burnOut` is the index of the candidate whose cumulative weight reaches 0.9, and only the candidates before it are kept | weights [0.95, 0.05]: `burnOut` is 0, `goodAmpliconSets` is empty, and `get(0)` then throws | a credible set that includes the candidate reaching 0.9 | not executed | `AmpliconSearch.BurnOut`, `AmpliconSearch.BurnOutEmpty` | `AmpliconSearch.CredibleCount` |
| bin/3rdPartyTools/qsr/QuRe/ReadSet.java:1118-1141 | the balance test reads `bestAmplicon`, which is `goodAmpliconSets.get(0)`, on every pass | a first candidate with some probability below 0.5 and a balanced second one: `altBest` stays 0 | test `goodAmpliconSets.get(oo)` and choose the first balanced candidate | not executed | `AmpliconSearch.AltBest` | `AmpliconSearch.FirstBalanced` |
| bin/3rdPartyTools/qsr/QuRe/QuRe.java:174-201 | the retry drops an end window while the reconstruction is empty and more than one window is left | a two-window layout that never reconstructs: the loop rebuilds the ensemble from one window, whose constructor reads `a.starts[1]` | stop at two windows | not executed | `QuRe.WrittenAttempts`, `QuRe.WrittenRetryReachesOneWindow` | `QuRe.Retry` |
