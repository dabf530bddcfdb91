# Discordant-pair translocation clustering, in Dafny

This project models the structural-variant core of the cgseq toolkit:

- **Candidate record.** A breakpoint candidate (`Translocation`) has a "from" span and a "to" span. It also holds a set of supporting read names, positive and negative strand counters, and an optional one-directional link to a reciprocal candidate.
- **First pass.** The sweep-line clusterer (`Translocations.addRead`, `addTranslocation`, `done`) reads a coordinate-sorted stream of discordant reads. It keeps a buffer of active candidates. Candidates that fall behind the stream are filed into an append-only index, but only when they have at least `minEvidence` distinct reads.
- **Second pass.** `findReciprocalMatches` links each still-unlinked entry to the first entry whose index key overlaps its to-span and whose to-span overlaps the entry's current from-span. The index key is the from-span as it was at filing time. Every later such candidate is folded into that first one. `dump` then selects the linked entries that have enough evidence.
- **Two generic helpers.** `LRUCache` is a bounded, insertion-ordered map. A read moves the key to the most recent end, and an insertion that overflows evicts the eldest entry. `MapCount` counts occurrences and lists the counts in non-increasing order.

Everything is a value:
- A span is `Span(ref, start, end)`, half-open.
- A candidate is a datatype, and the buffer is a sequence of candidates.
- The index is a sequence of `Annotation(key, value)` entries. Positions in it are handles.
- The reciprocal link is an `Option<nat>` handle into the index.

Each operation of the source is a pure function from state to state. `target.combine(potential)` mutates an entry that is still in the index. In the model, that becomes replacing the value at the target's handle, so a later read through the link sees the combined candidate.

The outer loop of `findReciprocalMatches` is `Matching.Iterate` applied to `Matching.Turn`, one turn per index position. `Turn` and the reciprocal test `Matching.Matches` are total. A position outside the index leaves the index unchanged, and a handle outside the index never matches. The loop and the index query only produce positions inside the index, so neither case arises.

Files:
- `optional.dfy`, `seqs.dfy`, `spans.dfy`: option type, sequence helpers, spans.
- `candidate.dfy`: `Translocation.java`.
- `clustering.dfy`: the first pass of `Translocations.java`.
- `matching.dfy`: `findReciprocalMatches` and `dump`.
- `clustering_examples.dfy` and `matching_examples.dfy`: worked scenarios on concrete inputs.
- `lrucache.dfy`: `LRUCache.java`.
- `mapcount.dfy`: `MapCount.java`.

Two library behaviours are not visible in the repository, so the model fixes them as assumptions:
- **Overlap.** `GenomeSpan.overlaps` is taken to mean same reference and half-open interval intersection (`Spans.Overlaps`).
- **Index order.** The index (`AbstractAnnotationSource`) is taken to return query results and its iteration in insertion order (`Matching.Query`, the loops over the index).

## Model

| member | source | states |
|---|---|---|
| Candidate.New | src/java/io/compgen/cgseq/cli/sv/Translocation.java:16-19 | a new candidate has the given spans, no reads, both counters at zero and no link |
| Candidate.AddEvidence | src/java/io/compgen/cgseq/cli/sv/Translocation.java:21-28 | afterwards the name is contained; the read set is the old one plus the name; the evidence count grows by one exactly when the name was new; exactly the counter chosen by the strand flag grows by one, also for a duplicate name; spans and link are unchanged |
| Candidate.AddAllCounts | src/java/io/compgen/cgseq/cli/sv/Translocation.java:21-32 | after any run of `addEvidence` calls, the read set is exactly the names ever added, and from a new candidate the evidence count is the number of distinct names; the two counters together count every call and the negative one counts the negative-strand calls |
| Candidate.DuplicateStillCounts | src/java/io/compgen/cgseq/cli/sv/Translocation.java:21-28 | re-adding a name already present leaves the evidence count unchanged but still bumps one strand counter |
| Candidate.ExtendFrom | src/java/io/compgen/cgseq/cli/sv/Translocation.java:54-58 | the new from-span keeps its own reference, encloses the old span and the argument, and is enclosed by every span that encloses both (the least cover); nothing else changes |
| Candidate.ExtendTo | src/java/io/compgen/cgseq/cli/sv/Translocation.java:60-64 | the same for the to-span; the from-span, reads, counters and link are unchanged |
| Candidate.ExtendIdempotent | src/java/io/compgen/cgseq/cli/sv/Translocation.java:54-64 | extending twice by the same span equals extending once, on either side |
| Candidate.GrowthKeepsOverlaps | src/java/io/compgen/cgseq/cli/sv/Translocation.java:46-85 | a span that `overlapsFrom` or `overlapsTo` accepts is still accepted after the candidate's spans are extended or another candidate is combined in |
| Candidate.Combine | src/java/io/compgen/cgseq/cli/sv/Translocation.java:78-91 | both spans keep the receiver's references and enclose both candidates' spans; a name is held exactly when either candidate held it; the evidence count lies between the larger input count and the sum; both strand counters are sums; the receiver's link is kept |
| Candidate.CombineExtends | src/java/io/compgen/cgseq/cli/sv/Translocation.java:78-85 | the spans after combining are those that `extendFrom`/`extendTo` with the other candidate's spans would give |
| Candidate.CombineAssociative | src/java/io/compgen/cgseq/cli/sv/Translocation.java:78-91 | folding three candidates gives the same result whichever pair is combined first |
| Candidate.CombineTwice | src/java/io/compgen/cgseq/cli/sv/Translocation.java:87-90 | combining the same candidate twice unites its read names once but adds its strand counters twice |
| Candidate.SetReciprocal | src/java/io/compgen/cgseq/cli/sv/Translocation.java:93-98 | the link read back is the handle just set; spans, reads and counters are unchanged |
| Candidate.ReciprocalLastWins | src/java/io/compgen/cgseq/cli/sv/Translocation.java:96-98 | a second `setReciprocal` overwrites the first: the result equals setting only the second |
| Spans.Extend | src/java/io/compgen/cgseq/cli/sv/Translocation.java:55-57 | the hull keeps the first span's reference, encloses both spans, is the least such span, and takes each endpoint from one of the inputs |
| Clustering.Init | src/java/io/compgen/cgseq/cli/sv/Translocations.java:28-31 | a new clusterer stores its two parameters and starts with an empty buffer and index |
| Clustering.ObservationOf | src/java/io/compgen/cgseq/cli/sv/Translocations.java:33-43 | the from-span starts at the read's 0-based start and ends `extend` past its end; the to-span is the mate's 0-based start padded by `extend` on each side, so it is `2*extend+1` wide |
| Clustering.ObservationCoversRead | src/java/io/compgen/cgseq/cli/sv/Translocations.java:37-41 | with non-negative padding the from-span covers the aligned bases and the to-span contains the mate's first base |
| Clustering.AddRead | src/java/io/compgen/cgseq/cli/sv/Translocations.java:33-44 | `addRead` keeps the two parameters, only appends to the index, and leaves some buffered candidate holding the read's name |
| Clustering.Absorb | src/java/io/compgen/cgseq/cli/sv/Translocations.java:61-63 | a candidate absorbing a read holds its name, keeps its references, encloses the read's spans, has one more strand count and keeps its link |
| Clustering.Fresh | src/java/io/compgen/cgseq/cli/sv/Translocations.java:88-92 | the candidate started for an unabsorbed read has exactly the read's spans, one read and one strand count, and no link |
| Clustering.Step | src/java/io/compgen/cgseq/cli/sv/Translocations.java:57-84 | one loop iteration keeps the candidate, in absorbed form when it absorbs, exactly when it does not retire; files it under its from-span exactly when it retires with enough evidence; sets `found` when it absorbs |
| Clustering.Sweep | src/java/io/compgen/cgseq/cli/sv/Translocations.java:57-84 | the whole loop keeps or files each candidate at most once, files only candidates keyed by their from-span with enough evidence, and sets `found` only on a non-empty buffer |
| Clustering.SweepKept | src/java/io/compgen/cgseq/cli/sv/Translocations.java:57-84 | the loop keeps exactly the candidates that hold the name or overlap the from-span, in buffer order, each absorbed when it holds the name or overlaps on both sides |
| Clustering.SweepEvicted | src/java/io/compgen/cgseq/cli/sv/Translocations.java:77-83 | the loop files exactly the retiring candidates with at least minEvidence reads, in buffer order, each keyed by its from-span |
| Clustering.SweepFound | src/java/io/compgen/cgseq/cli/sv/Translocations.java:54-84 | the loop's `found` flag is set exactly when some buffered candidate absorbs the read |
| Clustering.AddTranslocation | src/java/io/compgen/cgseq/cli/sv/Translocations.java:46-93 | parameters are kept; the index is only appended to; every new entry is keyed by its candidate's from-span and meets the threshold; the buffer grows by at most one |
| Clustering.BufferAfterAdd | src/java/io/compgen/cgseq/cli/sv/Translocations.java:54-92 | position by position, the new buffer is the non-retiring candidates in their old relative order (absorbed or unchanged), followed by a fresh candidate exactly when nobody absorbed the read |
| Clustering.IndexAfterAdd | src/java/io/compgen/cgseq/cli/sv/Translocations.java:77-83 | the new index is the old one followed by exactly the retiring candidates with enough evidence, in buffer order, keyed by their from-spans |
| Clustering.CandidateFate | src/java/io/compgen/cgseq/cli/sv/Translocations.java:57-84 | a candidate that absorbs the read stays in absorbed form, one overlapping only on the from side stays unchanged, and one that retires with enough evidence is filed |
| Clustering.ReadIsHeld | src/java/io/compgen/cgseq/cli/sv/Translocations.java:54-92 | after the step some buffered candidate holds the read's name |
| Clustering.BufferOrigins | src/java/io/compgen/cgseq/cli/sv/Translocations.java:55-92 | every buffered candidate afterwards is a non-retiring old one touched by the read, or the fresh one, which appears only when nobody absorbed the read |
| Clustering.FlushSpec | src/java/io/compgen/cgseq/cli/sv/Translocations.java:99-104 | the loop of `done` files exactly the buffered candidates with enough evidence, in buffer order |
| Clustering.FlushFilesQualified | src/java/io/compgen/cgseq/cli/sv/Translocations.java:100-103 | every buffered candidate with enough evidence is filed, and nothing filed falls short of the threshold |
| Clustering.Flush | src/java/io/compgen/cgseq/cli/sv/Translocations.java:100-104 | the loop of `done` files at most one entry per buffered candidate, each a buffered candidate keyed by its own from-span |
| Clustering.Done | src/java/io/compgen/cgseq/cli/sv/Translocations.java:99-106 | the buffer ends empty; the old index is a prefix; the new entries are exactly the qualifying buffered candidates, in order, keyed by their from-spans, and all meet the threshold |
| Clustering.AddPreservesInvariant | src/java/io/compgen/cgseq/cli/sv/Translocations.java:46-93 | `addTranslocation` keeps every index entry keyed by its from-span, at the threshold and unlinked, and every buffered candidate non-empty and unlinked |
| Clustering.DonePreservesInvariant | src/java/io/compgen/cgseq/cli/sv/Translocations.java:99-106 | `done` keeps the same invariant |
| Clustering.IngestPreserves | src/java/io/compgen/cgseq/cli/sv/Translocations.java:46-93 | over a whole stream the invariant holds and the index is append-only: a filed candidate never changes in the first pass |
| Clustering.ClusterThreshold | src/java/io/compgen/cgseq/cli/sv/Translocations.java:79-103 | after the first pass the buffer is empty and every filed candidate has at least minEvidence distinct reads, is keyed by its from-span and is unlinked |
| Clustering.GatherNext | src/java/io/compgen/cgseq/cli/sv/Translocations.java:57-76 | a candidate holding exactly the names, strand total and span hulls of some observations, when given a read overlapping the first of them on both sides, absorbs it, is not retired, and then holds exactly the names, strand total and hulls of the longer sequence |
| Clustering.SingleKept | src/java/io/compgen/cgseq/cli/sv/Translocations.java:56-92 | with one buffered candidate that absorbs the read and is not retired, the buffer afterwards is that candidate in its absorbed form and nothing else |
| Clustering.SingleFilesNothing | src/java/io/compgen/cgseq/cli/sv/Translocations.java:57-86 | with one buffered candidate that is not retired, the index is unchanged |
| Clustering.Aggregation | src/java/io/compgen/cgseq/cli/sv/Translocations.java:46-93 | reads whose from- and to-spans all overlap the first read's aggregate into a single buffered candidate while nothing is filed: it holds every read name, lies on the first read's references, its spans enclose every read's spans with each end taken from some read, and it counts one strand per read |
| Clustering.DoneSingle | src/java/io/compgen/cgseq/cli/sv/Translocations.java:99-106 | `done` on an empty index and one buffered candidate files that candidate under its from-span exactly when it has enough evidence |
| Clustering.AggregationFiled | src/java/io/compgen/cgseq/cli/sv/Translocations.java:46-106 | for such a stream the first pass files exactly one entry, keyed by its from-span and holding every read name, when there are at least minEvidence distinct names, and nothing otherwise |
| ClusteringExamples.ThreeReadScenario | src/java/io/compgen/cgseq/cli/sv/Translocations.java:46-106 | three chr1 reads with no padding and threshold two give one filed candidate covering from [100,170) to [5000,5060) with reads r1 and r2; the far read is discarded by `done` |
| ClusteringExamples.AbsorptionIsNotExclusive | src/java/io/compgen/cgseq/cli/sv/Translocations.java:57-76 | a read overlapping two buffered candidates on both sides is absorbed by both, and both stay buffered |
| Matching.Query | src/java/io/compgen/cgseq/cli/sv/Translocations.java:134 | the handles returned are exactly those whose key overlaps the span, in increasing index order |
| Matching.QueryIsWhere | src/java/io/compgen/cgseq/cli/sv/Translocations.java:134 | the query equals the position filter of the index by the key-overlap test |
| Matching.MatchedHandles | src/java/io/compgen/cgseq/cli/sv/Translocations.java:134-137 | a handle is kept exactly when it is a potential whose to-span overlaps t's from-span; order is kept |
| Matching.MatchedPotentialMutual | src/java/io/compgen/cgseq/cli/sv/Translocations.java:134-137 | while every key is its entry's from-span, `p` is a potential of `t` that passes the reciprocal test exactly when `t` is a potential of `p` that passes it |
| Matching.CombineInto | src/java/io/compgen/cgseq/cli/sv/Translocations.java:143 | the target entry keeps its key and becomes its old candidate combined with the potential; every other entry is unchanged |
| Matching.Scan | src/java/io/compgen/cgseq/cli/sv/Translocations.java:134-148 | the inner loop keeps the index's length; a target once chosen stays; a target chosen in the loop is one of the potentials visited and passes the reciprocal test |
| Matching.ScanFrame | src/java/io/compgen/cgseq/cli/sv/Translocations.java:134-148 | once chosen, the target never changes; keys and links of all entries are untouched; only the target entry can change |
| Matching.ScanFirst | src/java/io/compgen/cgseq/cli/sv/Translocations.java:137-141 | the target is the first potential passing the reciprocal test, and there is none exactly when no potential passes |
| Matching.ScanReads | src/java/io/compgen/cgseq/cli/sv/Translocations.java:137-145 | read sets only grow, and the target ends up holding the reads of every potential that passed the test |
| Matching.ScanFold | src/java/io/compgen/cgseq/cli/sv/Translocations.java:137-145 | when the target is another entry than t, it ends up as its old value combined with each later passing potential, in index order |
| Matching.FoldIntoCovers | src/java/io/compgen/cgseq/cli/sv/Translocations.java:142-145 | folding later matches into the target unites the read sets, keeps its references and link, and grows its spans to enclose every folded candidate's spans |
| Matching.MatchOne | src/java/io/compgen/cgseq/cli/sv/Translocations.java:127-153 | one outer iteration keeps the index's length, and a link it sets on an unlinked entry points into the index |
| Matching.MatchOneFrame | src/java/io/compgen/cgseq/cli/sv/Translocations.java:127-153 | one outer iteration keeps every key, skips an already linked entry entirely, changes no link except t's, and keeps all links inside the index |
| Matching.MatchOneLinks | src/java/io/compgen/cgseq/cli/sv/Translocations.java:128-152 | an unlinked entry is linked exactly when some entry with a key overlapping its to-span passes the reciprocal test, and the link goes to the first such entry in index order |
| Matching.MatchOneNoMatch | src/java/io/compgen/cgseq/cli/sv/Translocations.java:150-152 | when no potential passes, the iteration changes nothing |
| Matching.MatchOneMerges | src/java/io/compgen/cgseq/cli/sv/Translocations.java:137-152 | with a target other than t: t gets the link and nothing else; the target keeps its (now stale) key and becomes its old value folded with every later match; all other entries are unchanged |
| Matching.MatchOneGrows | src/java/io/compgen/cgseq/cli/sv/Translocations.java:143 | no entry loses a read in one iteration |
| Matching.MatchOneReads | src/java/io/compgen/cgseq/cli/sv/Translocations.java:137-152 | read sets only grow, and the linked target holds the reads of every entry that passed the test, also when t is its own target |
| Matching.MatchPrefixFrame | src/java/io/compgen/cgseq/cli/sv/Translocations.java:127-154 | over any prefix of the pass every key is kept and every link stays inside the index |
| Matching.FindReciprocalMatches | src/java/io/compgen/cgseq/cli/sv/Translocations.java:118-155 | the pass keeps the index length and every key, and keeps every link inside the index |
| Matching.MatchPrefixGrows | src/java/io/compgen/cgseq/cli/sv/Translocations.java:127-154 | over any prefix of the pass, no entry loses a read |
| Matching.MatchPrefixKeepsLinks | src/java/io/compgen/cgseq/cli/sv/Translocations.java:128-130 | a link present before the pass is never changed by it |
| Matching.LinkSettledAtTurn | src/java/io/compgen/cgseq/cli/sv/Translocations.java:127-153 | an entry's final link is the one chosen in its own iteration; later iterations do not change it |
| Matching.ScanGrows | src/java/io/compgen/cgseq/cli/sv/Translocations.java:134-149 | the inner loop only grows entries: keys and span references stay, spans only widen and reads only grow |
| Matching.MatchOneGrowsAll | src/java/io/compgen/cgseq/cli/sv/Translocations.java:127-152 | one iteration only grows entries in the same sense |
| Matching.PrefixGrowsFrom | src/java/io/compgen/cgseq/cli/sv/Translocations.java:127-153 | any run of iterations only grows entries in the same sense |
| Matching.UnlinkedUntilTurn | src/java/io/compgen/cgseq/cli/sv/Translocations.java:127-153 | an entry that starts unlinked is still unlinked when its own iteration comes |
| Matching.ReciprocalSymmetry | src/java/io/compgen/cgseq/cli/sv/Translocations.java:127-153 | when entry a starts unlinked and a, b overlap crosswise (a's to-span with b's from-span, b's to-span with a's from-span), b keyed by its from-span, then a ends linked inside the index and its partner holds every read b started with |
| Matching.FindReciprocalKeepsThreshold | src/java/io/compgen/cgseq/cli/sv/Translocations.java:118-155 | entries that met the evidence threshold before the pass still meet it after |
| Matching.Dump | src/java/io/compgen/cgseq/cli/sv/Translocations.java:108-116 | the report lists exactly the entries with at least minEvidence reads and a link, in index order, each with its partner's current value |
| Matching.DumpUpTo | src/java/io/compgen/cgseq/cli/sv/Translocations.java:109-115 | the loop over the first n entries reports at most n lines, each for an entry with at least minEvidence reads |
| Matching.DumpSpec | src/java/io/compgen/cgseq/cli/sv/Translocations.java:109-115 | the loop over any prefix of the index reports exactly the qualifying entries of that prefix, in order |
| Matching.DumpMeetsThreshold | src/java/io/compgen/cgseq/cli/sv/Translocations.java:110 | no report line names an entry below the evidence threshold |
| Matching.DiscoverMeetsThreshold | src/java/io/compgen/cgseq/cli/sv/Translocations.java:108-116 | every reported line, after both passes, is an entry with at least minEvidence reads |
| MatchingExamples.ReciprocalPairScenario | src/java/io/compgen/cgseq/cli/sv/Translocations.java:118-155 | two mutually pointing candidates A and B end up linked each to the other, and the report with threshold two has the two lines (A, B) and (B, A) |
| MatchingExamples.StaleKeyScenario | src/java/io/compgen/cgseq/cli/sv/Translocations.java:137-152 | with two matches, A links to the first, which absorbs the second and keeps its old key although its from-span now reaches further; the second stays unchanged and unlinked |
| MatchingExamples.DoubleCountScenario | src/java/io/compgen/cgseq/cli/sv/Translocations.java:127-153 | with two entries T1, T2 pointing at G and X, the first two turns link both to G and fold X into G twice: G holds two reads but its positive-strand counter is three |
| LruCache.Empty | src/java/io/compgen/cgseq/support/LRUCache.java:22-24 | a new cache stores its bound and has no entries |
| LruCache.ContainsKey | src/java/io/compgen/cgseq/support/LRUCache.java:26-28 | true exactly when some entry holds the key; the cache is a value, so the query changes nothing |
| LruCache.Lookup | src/java/io/compgen/cgseq/support/LRUCache.java:31-32 | a value is found exactly when the key is present, and it is the value of an entry holding the key |
| LruCache.Remove | src/java/io/compgen/cgseq/support/LRUCache.java:32 | with distinct keys, removing a key leaves the other entries in order, the same as filtering the key out |
| LruCache.Put | src/java/io/compgen/cgseq/support/LRUCache.java:39-41 | the bound is kept, and a cache with distinct keys and at most maxSize entries stays so |
| LruCache.Get | src/java/io/compgen/cgseq/support/LRUCache.java:30-37 | the value returned is the stored value of the key, or none when absent; the bound and the invariant are kept |
| LruCache.GetAfterPut | src/java/io/compgen/cgseq/support/LRUCache.java:30-41 | with maxSize at least one, reading a key right after writing it returns the written value |
| LruCache.GetAbsent | src/java/io/compgen/cgseq/support/LRUCache.java:30-37 | reading an absent key returns nothing and leaves contents and order unchanged |
| LruCache.GetPresent | src/java/io/compgen/cgseq/support/LRUCache.java:31-34 | reading a present key returns its value and moves the key to the most recent end; the other entries keep their relative order, and the key set and size are unchanged |
| LruCache.PutOverflow | src/java/io/compgen/cgseq/support/LRUCache.java:15-18 | a new key put into a full cache evicts exactly the eldest entry: the other entries keep their order and the new entry comes last; the size is unchanged, the eldest key is gone, the new key reads back, and every other key keeps its value |
| LruCache.PutFresh | src/java/io/compgen/cgseq/support/LRUCache.java:39-41 | a new key put into a cache with room is appended, and nothing is evicted or changed |
| LruCache.PutExisting | src/java/io/compgen/cgseq/support/LRUCache.java:39-41 | a put on a present key replaces its value in place: same size, same key order, every other key keeps its value |
| LruCache.NeverOverfull | src/java/io/compgen/cgseq/support/LRUCache.java:15-18 | whatever calls a client makes on a new cache, it never holds more than maxSize entries (none for a bound below one) and never the same key twice |
| MapCount.Incr | src/java/io/compgen/cgseq/support/MapCount.java:15-21 | a new key gets count 1, a known key one more; the key set gains just the key; every other count is unchanged |
| MapCount.CountsAreMultiplicities | src/java/io/compgen/cgseq/support/MapCount.java:15-21 | from an empty counter, a key is present exactly when it was passed to `incr`, and its count is how many times it was passed |
| MapCount.IncrTotal | src/java/io/compgen/cgseq/support/MapCount.java:15-21 | every `incr` raises the sum of all counts by exactly one |
| MapCount.TotalIsCalls | src/java/io/compgen/cgseq/support/MapCount.java:15-21 | the sum of counts equals the number of `incr` calls |
| MapCount.Insert | src/java/io/compgen/cgseq/support/MapCount.java:30-37 | inserting a pair into a list ordered by non-increasing count keeps it ordered, and the result holds exactly the old pairs plus the new one, with multiplicity |
| MapCount.SortedCounts | src/java/io/compgen/cgseq/support/MapCount.java:23-40 | the listing has one pair per counted key, each key exactly once with its current count, nothing else, and is ordered by non-increasing count |

## Behaviour of the code worth noting

- **Absorption is not exclusive.** A read is absorbed by every buffered candidate that holds its name or overlaps it on both sides. The loop never stops early, so one read can support several candidates (`ClusteringExamples.AbsorptionIsNotExclusive`).
- **Duplicates still bump a counter.** A strand counter is bumped even when the read name is already present (`Candidate.DuplicateStillCounts`).
- **Both directions are reported.** Each of two mutually pointing candidates links itself in its own turn, so `dump` reports the pair twice: (A, B) and (B, A) (`MatchingExamples.ReciprocalPairScenario`).
- **Index keys go stale.** An index key is the from-span at filing time. A later `combine` widens the candidate's from-span but not its key (`MatchingExamples.StaleKeyScenario`).
- **Strand counts can double-count.** `combine` leaves the folded candidate in the index. It can match again in a later turn and be folded into the same target a second time. Its reads are then united only once, but its strand counters are added twice (`Candidate.CombineTwice`, `MatchingExamples.DoubleCountScenario`).

## Left out

- Reading alignments from a BAM file, and the read filters in front of the clusterer, are not modelled. `addRead` takes the record fields it reads as an `AlignedRead` value.
- The debug file written by `findReciprocalMatches` is not modelled, and neither is its early return when that file cannot be created. The progress iterator is left out as well. All three are I/O. The model assumes the file opens.
- The text formats of `dump` and `Translocation.toString` are not modelled. `dump` is modelled as the list of (entry, partner) values it would print.
- `GenomeSpan` and `AbstractAnnotationSource` are not part of this model. Their overlap test and query order are fixed by the two assumptions stated at the top.
- Java's 32-bit `int` is not modelled: coordinates, counters and counts are unbounded integers. The `MapCount` counts are bounded by the number of `incr` calls, so they wrap from the 2^31-th call on. The strand counters are not bounded by the number of `addEvidence` calls once `findReciprocalMatches` has run: a candidate that stays in the index can be folded into the same target in several turns (`MatchingExamples.DoubleCountScenario`), so no call count bounds when they wrap. The coordinates `alignmentEnd + extend` and `mateAlignmentStart - 1 - extend` in `addRead` (Translocations.java:37,41) wrap for a large `extend` whatever the number of reads; that wrap is not modelled, and `Clustering.ObservationOf` states the spans as they are without it (a to-span of width `2 * extend + 1`).
- A stored `null` is not represented: `None` stands for an absent key only, and every stored value is a real value. In the source, `put(k, null)` is accepted; a later `get(k)` then returns `null` as for an absent key, yet still moves `k` to the most recent end (LRUCache.java:30-34).
- Hash iteration order is not modelled. `MapCount.SortedCounts` takes keys in an arbitrary order, standing for `HashMap.keySet()`, and places ties in that order, as a stable sort does. That order is unspecified.
- `peekBuffer`, `getAnnotationNames` and the plain getters (`getFrom`, `getTo`, `getPosStrandCount`, `getNegStrandCount`) are not separate members. They read fields of the datatypes directly.
- `getEvidenceCount`, `containsRead`, `overlapsFrom`, `overlapsTo` and `getReciprocal` (Translocation.java:30-52,93-95) are the one-line definitions `Candidate.EvidenceCount`, `Candidate.ContainsRead`, `Candidate.OverlapsFrom`, `Candidate.OverlapsTo` and `Candidate.GetReciprocal`, without contracts of their own: each reads one field or applies the span overlap test. What they return is stated through the contracts of `Candidate.AddEvidence`, `Candidate.Combine`, `Candidate.SetReciprocal` and `Candidate.GrowthKeepsOverlaps`.
- Matching.Scan: its own contract states the length, the target's range and origin, and that a chosen target stays. The rest is stated by `Matching.ScanFrame`, `Matching.ScanFirst`, `Matching.ScanReads` and `Matching.ScanFold`.
- Matching.MatchOne: its own contract states only the length and the range of a new link. The rest is stated by `Matching.MatchOneFrame`, `Matching.MatchOneLinks`, `Matching.MatchOneNoMatch`, `Matching.MatchOneMerges` and `Matching.MatchOneReads`.
- Matching.MatchOneMerges: states the exact value of the target only when the target is another entry than t. When t is its own first match, later tests see the growing t, and only read growth is stated (`Matching.MatchOneReads`).
- Matching.FindReciprocalMatches: its contract states lengths, keys and links. The content of each entry is stated per iteration (`Matching.MatchOneFrame`, `Matching.MatchOneLinks`, `Matching.MatchOneMerges`) and across the pass (`Matching.MatchPrefixGrows`, `Matching.LinkSettledAtTurn`, `Matching.ReciprocalSymmetry`), not as one closed formula.
