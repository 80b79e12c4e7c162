# Algorithms Part II: the verified cores

This project models, in Dafny, three pieces of an algorithms coursework repository and
proves what each of them promises.

- **The compression pipeline (week5).**
  - `CircularSuffixArray` sorts the n circular rotations of a text in place. It uses a 3-way radix quicksort over an array of offsets.
  - `BurrowsWheeler.transform` emits the row `first` of the text in the sorted rotation matrix, followed by the matrix's last column.
  - `BurrowsWheeler.inverseTransform` rebuilds the text from the last column. It uses symbol counts, prefix sums and a `next` array.
  - `MoveToFront` replaces each byte by its rank in a 256-entry table, then moves that entry to the front.
  - Move-to-front is proved to round-trip on every byte sequence. The Burrows-Wheeler transform is proved to round-trip on every non-empty one, using the corrected sort (see "## Findings"); on the empty text it fails with `NoSuchElement`.
- **The dictionary side of the Boggle solver (week4).**
  - A 26-way trie over `A`-`Z`, with `put`, `get`, `contains` and `hasPrefix`.
  - The constructor, which stores each trimmed, upper-cased dictionary word with its position plus one.
  - The length-to-score table, `scoreOf`, the `Q` to `QU` expansion, and the filter of `getAllValidWords`.
- **The shortest ancestral path (week1).**
  - Breadth-first search from one vertex or from a set of vertices, over a digraph given as adjacency sequences.
  - The scan for the common ancestor with the smallest summed distance.
  - `length` and `ancestor`, with their argument checks.

Files:

- `common.dfy` (module `Common`): bytes, `Option`, `Result`, the exceptions, and permutations of 0..n-1.
- `rotations.dfy` (module `Rotations`): circular rotations and lexicographic order, the vocabulary of the sort and of the transform.
- `move_to_front.dfy` (module `MoveToFront`).
- `circular_suffix_array.dfy` (module `SuffixArrays`).
- `burrows_wheeler.dfy` (module `BurrowsWheeler`).
- `boggle.dfy` (module `Boggle`).
- `sap.dfy` (module `ShortestAncestralPath`).

Imperative code stays imperative:

- The suffix sort, the counting loops, the table rotation and the BFS work on arrays, with loop invariants.
- The trie is a class whose `Put` replaces the root. The trie itself is a datatype of nodes, rebuilt along the key's path.

Each method is proved against a specification function or predicate. The properties of that specification are proved as lemmas.

An exception the source throws is a `Failure` of the `Result` it returns:

- `IllegalArgumentException` is `IllegalArgument`.
- `ArrayIndexOutOfBoundsException` is `IndexOutOfBounds`.
- `NoSuchElementException` from reading an exhausted stream is `NoSuchElement`.

Null arguments are `Option.None`.

Behaviours of the code that the model keeps:

- `index(i)` out of range throws `IllegalArgumentException`; there is no separate out-of-range error.
- The inverse transform does not validate `first`. A `first` outside `[0, n)` fails only when `next[first]` is read (`IndexOutOfBounds`).
- Both transforms read their text with algs4's `BinaryStdIn.readString`, which throws `NoSuchElementException` on an exhausted stream (that library's code is not part of this model). So the transform of the empty text fails before it writes anything, the inverse transform of a `first` followed by no bytes fails, and the round trip of the empty text ends in `NoSuchElement`.
- A move-to-front rank is read as one 8-bit character, so it can never be outside 0..255.
- The suffix sort as written does not stop on periodic text; see "## Findings".

## Model

| member | source | states |
|---|---|---|
| MoveToFront.Identity | week5/MoveToFront.java:19-21 | the starting table holds value i at position i and is a permutation of the 256 byte values |
| MoveToFront.NewTable | week5/MoveToFront.java:19-21 | a fresh array holding the identity table |
| MoveToFront.Rotated | week5/MoveToFront.java:38-44 | moving entry pos to the front: the new front is the old entry pos, entries 1..pos are the old 0..pos-1, entries after pos are unchanged |
| MoveToFront.MoveToFront | week5/MoveToFront.java:38-44 | the swap loop leaves the array equal to the rotation of its old contents at pos |
| MoveToFront.RotatedIsTable | week5/MoveToFront.java:38-44 | the table stays a permutation of the 256 byte values after every move |
| MoveToFront.RotatedAtFront | week5/MoveToFront.java:38-44 | moving position 0 to the front changes nothing |
| MoveToFront.IndexOf | week5/MoveToFront.java:25-31 | the scan finds the first, and in a table the only, position holding the byte |
| MoveToFront.EveryByteInTable | week5/MoveToFront.java:25-31 | every byte value occurs in a table, so the scan always finds it |
| MoveToFront.EncodeFrom | week5/MoveToFront.java:22-33 | encoding emits one rank per input byte |
| MoveToFront.DecodeFrom | week5/MoveToFront.java:50-55 | decoding emits one byte per input rank |
| MoveToFront.EncodeStep | week5/MoveToFront.java:25-32 | the first rank emitted is the byte's position in the table; the rest is encoded against the rotated table |
| MoveToFront.EncodeAfter | week5/MoveToFront.java:25-32 | after output already written, emitting one rank moves it to the output and leaves the rest of the input against the rotated table |
| MoveToFront.Encode | week5/MoveToFront.java:18-36 | the array loop emits exactly the ranks of the encoding against the identity table |
| MoveToFront.Decode | week5/MoveToFront.java:46-58 | the array loop emits exactly the bytes of the decoding against the identity table |
| MoveToFront.DecodeEncode | week5/MoveToFront.java:18-58 | decoding an encoding gives back the bytes, from any table |
| MoveToFront.EncodeDecode | week5/MoveToFront.java:18-58 | encoding a decoding gives back the ranks, from any table |
| MoveToFront.RoundTrip | week5/MoveToFront.java:18-58 | encode followed by decode returns the input |
| MoveToFront.RepeatEncodesZero | week5/MoveToFront.java:25-44 | a byte equal to the one before it encodes to rank 0 |
| MoveToFront.EncodeRunOfA | week5/MoveToFront.java:18-44 | "AAAA" encodes to 65, 0, 0, 0 |
| SuffixArrays.NewCircularSuffixArray | week5/CircularSuffixArray.java:6-17 | a null text fails with IllegalArgument; any other text gives a valid suffix array of it |
| SuffixArrays.CircularSuffixArray.constructor | week5/CircularSuffixArray.java:6-17 | after the identity fill and the sort, the offsets are a permutation of 0..n-1 listing the rotations in lexicographic order |
| SuffixArrays.CircularSuffixArray.CharAt | week5/CircularSuffixArray.java:45-47 | character d of the rotation at offset i, read circularly |
| SuffixArrays.CircularSuffixArray.Exch | week5/CircularSuffixArray.java:49-53 | two entries trade places, the others keep theirs, and the multiset of offsets is unchanged |
| SuffixArrays.CircularSuffixArray.Partition | week5/CircularSuffixArray.java:25-37 | the pivot v is character d of the rotation at index[lo] as it was on entry; after the loop, [lo,lt) is below v, [lt,gt] equals it, (gt,hi] is above it; the range is permuted and nothing outside it moves |
| SuffixArrays.PartitionBelow | week5/CircularSuffixArray.java:30-31 | a rotation below the pivot, exchanged with the first one equal to it, extends the lower band and the partition state holds one step further |
| SuffixArrays.PartitionAbove | week5/CircularSuffixArray.java:32-33 | a rotation above the pivot, exchanged with the last unexamined one, extends the upper band |
| SuffixArrays.SwapFramed | week5/CircularSuffixArray.java:49-53 | an exchange inside lo..hi keeps the range a rearrangement and moves nothing outside it |
| SuffixArrays.CircularSuffixArray.Sort | week5/CircularSuffixArray.java:23-43 | the rotations at index[lo..hi] end up in lexicographic order, the range is permuted and nothing outside it moves (corrected guard, see Findings) |
| SuffixArrays.JoinSorted | week5/CircularSuffixArray.java:38-42 | three sorted bands ordered by the character at depth d, the middle one sharing the prefix, make one sorted range |
| SuffixArrays.CircularSuffixArray.Index | week5/CircularSuffixArray.java:55-60 | index(i) is the i-th sorted offset for 0 <= i < n and IllegalArgument otherwise |
| SuffixArrays.CircularSuffixArray.Length | week5/CircularSuffixArray.java:62-64 | the length of the text |
| SuffixArrays.AsWrittenMiddleCall | week5/CircularSuffixArray.java:39-41 | the guard as written makes the middle call, on the same band one character deeper, for every pivot character |
| SuffixArrays.AsWrittenNeverStops | week5/CircularSuffixArray.java:39-41 | on "AA", the band at every depth holds both rotations and the guard as written recurses on it one level deeper |
| BurrowsWheeler.Rows | week5/BurrowsWheeler.java:26-32 | row k of the sorted matrix is the rotation at the k-th sorted offset |
| BurrowsWheeler.Transform | week5/BurrowsWheeler.java:17-36 | the empty text fails with NoSuchElement, and only it; otherwise first is the row holding the text itself and last is the last column of the sorted rotation matrix, one byte per row |
| BurrowsWheeler.FindFirst | week5/BurrowsWheeler.java:20-25 | the first row whose offset is 0, and none exactly when no offset is 0 |
| BurrowsWheeler.LastColumn | week5/BurrowsWheeler.java:26-32 | entry k is the byte just before the k-th sorted offset, which is the last byte of row k |
| BurrowsWheeler.TransformKeepsBytes | week5/BurrowsWheeler.java:26-32 | the last column is a rearrangement of the text's bytes |
| BurrowsWheeler.Counts | week5/BurrowsWheeler.java:45-50 | after counting and prefix sums, count[c] is the number of symbols below c |
| BurrowsWheeler.BelowZero | week5/BurrowsWheeler.java:45-50 | count[0] is 0 |
| BurrowsWheeler.BelowAll | week5/BurrowsWheeler.java:45-50 | count[256] is the length of the column |
| BurrowsWheeler.BelowSucc | week5/BurrowsWheeler.java:48-50 | each prefix sum adds the number of occurrences of one symbol |
| BurrowsWheeler.NextArray | week5/BurrowsWheeler.java:51-53 | next lists the positions of the column by symbol, stably; afterwards count[c] is the number of symbols up to and including c |
| BurrowsWheeler.NextFacts | week5/BurrowsWheeler.java:51-53 | next is a permutation of 0..n-1, its symbols are non-decreasing, and equal symbols keep their left-to-right order |
| BurrowsWheeler.RankInjective | week5/BurrowsWheeler.java:51-53 | two positions never receive the same slot of next |
| BurrowsWheeler.RankOnto | week5/BurrowsWheeler.java:51-53 | every slot of next receives a position |
| BurrowsWheeler.NextRows | week5/BurrowsWheeler.java:51-53 | row next[j] of the sorted matrix is row j rotated left by one |
| BurrowsWheeler.WalkIsText | week5/BurrowsWheeler.java:55-59 | following next n times from first spells the text |
| BurrowsWheeler.FollowNext | week5/BurrowsWheeler.java:55-59 | a starting row outside the column fails with IndexOutOfBounds; otherwise the n bytes met by following next from that row |
| BurrowsWheeler.InverseTransform | week5/BurrowsWheeler.java:38-63 | a missing first or an empty column fails with NoSuchElement, and nothing else does; a first outside [0,n) fails with IndexOutOfBounds; otherwise the n bytes met by following the stable counting-sort `next` array from row first, and for every text whose transform is (first, column) exactly that text |
| BurrowsWheeler.RoundTrip | week5/BurrowsWheeler.java:17-63 | the inverse of the transform of a non-empty text is the text; the empty text fails with NoSuchElement |
| ShortestAncestralPath.NewSAP | week1/SAP.java:20-23 | a null graph fails with IllegalArgument; otherwise the object holds the graph |
| ShortestAncestralPath.SAP.constructor | week1/SAP.java:20-23 | the object holds the given digraph |
| ShortestAncestralPath.SAP.Search | week1/SAP.java:111-120 | when the queue empties, marked vertices carry their shortest distance from the sources and unmarked ones are unreachable and keep their distTo entry |
| ShortestAncestralPath.SAP.Expand | week1/SAP.java:113-119 | visiting the neighbours of one dequeued vertex keeps the search invariant; afterwards every neighbour is marked, each neighbour that was unmarked is at distance one more than the vertex and was appended to the queue once, in adjacency order, and every other vertex keeps its mark and distance |
| ShortestAncestralPath.FreshMembers | week1/SAP.java:113-119 | the vertices appended for one dequeued vertex are exactly its neighbours that were unmarked, each appended once |
| ShortestAncestralPath.SAP.BfsFrom | week1/SAP.java:105-121 | marked is exactly the set of vertices reachable from v and distTo their shortest distance; unmarked vertices keep their distTo entry |
| ShortestAncestralPath.SAP.BfsFromAll | week1/SAP.java:130-149 | an out-of-range source fails with IllegalArgument; otherwise marked and distTo are the shortest distances from the source set; either way unmarked vertices keep their distTo entry |
| ShortestAncestralPath.SearchDone | week1/SAP.java:111-120 | an empty queue under the loop invariant means the search is complete |
| ShortestAncestralPath.SearchedFacts | week1/SAP.java:105-121 | after a search a vertex is marked iff it is reachable, and its distance is the unique shortest one |
| ShortestAncestralPath.ReachMarked | week1/SAP.java:111-120 | a vertex reachable in k steps is marked with a distance of at most k |
| ShortestAncestralPath.SAP.Closest | week1/SAP.java:53-63 | the scan keeps the smallest summed distance over common vertices seen so far, ties going to the later vertex |
| ShortestAncestralPath.ClosestIsSap | week1/SAP.java:53-65 | the scan over complete searches yields (-1,-1) when no vertex is shared, else the minimal length and the largest vertex attaining it |
| ShortestAncestralPath.SAP.FindAncestralPath | week1/SAP.java:44-66 | the result is the shortest ancestral path of two vertices |
| ShortestAncestralPath.SAP.FindAncestralPathOfSets | week1/SAP.java:74-96 | out-of-range set elements fail with IllegalArgument; otherwise the shortest ancestral path of the two sets |
| ShortestAncestralPath.SAP.Length | week1/SAP.java:31-36 | out-of-range vertices fail with IllegalArgument; otherwise the length of the shortest ancestral path (0 when v == w) |
| ShortestAncestralPath.SameVertexSap | week1/SAP.java:33 | a vertex and itself have length 0 and ancestor the vertex |
| ShortestAncestralPath.SAP.Ancestor | week1/SAP.java:157-160 | out-of-range vertices fail with IllegalArgument; otherwise the ancestor of the shortest ancestral path |
| ShortestAncestralPath.SAP.LengthOfSets | week1/SAP.java:168-174 | null sets or null elements fail with IllegalArgument; otherwise the length of the shortest ancestral path of the sets |
| ShortestAncestralPath.SAP.AncestorOfSets | week1/SAP.java:182-188 | null sets or null elements fail with IllegalArgument; otherwise its ancestor |
| ShortestAncestralPath.SapUnique | week1/SAP.java:44-66 | length and ancestor come from the same unique answer, so length is the summed distance at ancestor |
| ShortestAncestralPath.SapSymmetric | week1/SAP.java:44-66 | swapping the two sides gives the same answer |
| ShortestAncestralPath.DistUnique | week1/SAP.java:105-121 | the shortest distance from a source set is unique |
| Boggle.Slot | week4/BoggleSolver.java:239 | the child index is in range exactly for the letters A-Z |
| Boggle.EmptyNode | week4/BoggleSolver.java:222-225 | a new node has value 0 and 26 absent children |
| Boggle.PutAt | week4/BoggleSolver.java:231-242 | a put either yields a well-formed node or fails with IndexOutOfBounds |
| Boggle.PutOutcome | week4/BoggleSolver.java:231-242 | a put succeeds exactly when the rest of the key is made of A-Z |
| Boggle.GetAt | week4/BoggleSolver.java:255-262 | a lookup fails only with IndexOutOfBounds on a key with a character outside A-Z |
| Boggle.GetAfterPutAt | week4/BoggleSolver.java:227-262 | after a put, a lookup finds the new value at the key and the old value elsewhere, and a node exists on the old nodes and on the key's prefixes |
| Boggle.GetAfterPut | week4/BoggleSolver.java:227-262 | the same for whole words: put changes the value of the key alone and adds the key's prefixes |
| Boggle.HoldsEmpty | week4/BoggleSolver.java:217-225 | the empty trie holds no word |
| Boggle.PutHolds | week4/BoggleSolver.java:227-242 | a put of a letter key keeps the trie holding exactly its words, updated at the key |
| Boggle.BoggleTrie.constructor | week4/BoggleSolver.java:217-225 | a new trie holds nothing |
| Boggle.BoggleTrie.Put | week4/BoggleSolver.java:227-242 | a key of letters is stored with its value, replacing an earlier one; other keys fail with IndexOutOfBounds and change nothing |
| Boggle.BoggleTrie.Get | week4/BoggleSolver.java:248-253 | -1 for a null key, an absent key or a key stored with 0; otherwise the stored value |
| Boggle.BoggleTrie.Contains | week4/BoggleSolver.java:244-246 | true exactly when get does not answer -1 |
| Boggle.BoggleTrie.HasPrefix | week4/BoggleSolver.java:264-267 | true exactly when some stored word starts with the prefix |
| Boggle.TrimStart | week4/BoggleSolver.java:27 | the first character above ' ' from a position on |
| Boggle.TrimEnd | week4/BoggleSolver.java:27 | the last character above ' ' before a position |
| Boggle.Trim | week4/BoggleSolver.java:27 | the trimmed word is a slice of the word that drops only characters at or below ' ' at the two ends and has no such character at either of its own ends; a word without one is unchanged |
| Boggle.TrimIsSlice | week4/BoggleSolver.java:27 | any slice that drops only blanks at the ends and starts and ends above ' ' is the trimmed word, so `trim` is determined by that property |
| Boggle.UpperCase | week4/BoggleSolver.java:27 | a-z become A-Z and every other character stays |
| Boggle.Normalize | week4/BoggleSolver.java:27 | the stored form of a word is no longer than it, has no character at or below ' ' at either end and no letter a-z |
| Boggle.NormalizeLetters | week4/BoggleSolver.java:27 | trimming and upper-casing leave a word of A-Z unchanged |
| Boggle.NormalizeIdempotent | week4/BoggleSolver.java:63 | normalizing twice is normalizing once |
| Boggle.NormalizeAll | week4/BoggleSolver.java:26-29 | each dictionary word is normalized in its place |
| Boggle.DictionaryMapDomain | week4/BoggleSolver.java:26-29 | the words stored are exactly the dictionary's words |
| Boggle.DictionaryMapValue | week4/BoggleSolver.java:26-29 | a word is stored with one plus the position of its last occurrence |
| Boggle.NewBoggleSolver | week4/BoggleSolver.java:23-30 | the construction fails with IndexOutOfBounds exactly when a normalized word has a character outside A-Z; otherwise the trie holds every word with its position plus one |
| Boggle.SolverWords | week4/BoggleSolver.java:23-30 | a built solver accepts exactly the normalized dictionary words |
| Boggle.GetScore | week4/BoggleSolver.java:37-55 | 0 exactly for lengths 0-2, at most 11, and 11 from length 8 on |
| Boggle.GetScoreMonotone | week4/BoggleSolver.java:37-55 | longer words never score less |
| Boggle.CharToString | week4/BoggleSolver.java:212-215 | 'Q' becomes "QU" and every other character itself |
| Boggle.BoggleSolver.constructor | week4/BoggleSolver.java:25 | the solver keeps the trie it is given |
| Boggle.BoggleSolver.ScoreOf | week4/BoggleSolver.java:62-66 | the score of the normalized word's length when the dictionary holds it, 0 otherwise |
| Boggle.BoggleSolver.FilterValidWords | week4/BoggleSolver.java:88-92 | exactly the board's words longer than two letters that the dictionary holds |

## Left out

- Stream I/O (`BinaryStdIn`, `BinaryStdOut`) and the `main` methods: the transforms take and return byte sequences.
- The 32-bit framing of `first`: the inverse transform takes it as an `Option<int>`, where `None` is a stream too short to hold the integer.
- Java's 16-bit `char` strings: the texts are bytes, as the binary streams deliver them.
- The static table of `MoveToFront`, shared across calls: each encode or decode builds its own table. Every call resets it to the identity first, so behaviour is the same.
- Performance: linear-time inversion, the cost of a rotation and the recursion depth of the sort.
- The board side of the Boggle solver (`createGraph`, `gridMap`, `charMap`, `getAllWords`, `dfs`): it needs `BoggleBoard` and `Digraph`, whose code is not part of this model. `getAllValidWords` is modelled from the list of board words on.
- Unicode case mapping: `UpperCase` maps only a-z, where `String.toUpperCase` also maps letters above U+007F.
- A null dictionary and null dictionary words: the dictionary is a sequence of strings.
- Trie nodes that are updated in place: a put rebuilds the path to the key. No node is shared between tries, so no caller can tell the difference.
- The copy of the digraph made by the SAP constructor: the graph is an immutable value.
- week2/SeamCarver.java, week3/BaseballElimination.java, week1/WordNet.java and week1/Outcast.java: they are not part of this model.
- SuffixArrays.CircularSuffixArray.Sort: the guard on the middle recursion is `d + 1 < n`, not the source's `v >= 0` (see Findings). The tie order among identical rotations is therefore whatever the partition leaves, and it is not stated.
- Boggle.BoggleTrie.Get: for a key with a character outside A-Z, the contract does not say whether the lookup fails or answers -1. The source fails only when its walk reaches that character.
- Boggle.BoggleTrie.Contains: same as Get for keys outside A-Z.
- Boggle.BoggleTrie.HasPrefix: same as Get for prefixes outside A-Z.
- Boggle.BoggleSolver.ScoreOf: same as Get for words outside A-Z.
- Boggle.BoggleSolver.FilterValidWords: requires the board words to be made of A-Z, which board letters and the `QU` expansion guarantee.
- Boggle.GetScore: the contract states the zero range, the bound and the value from length 8 on. The values 1, 2, 3 and 5 for lengths 3-7 appear only in the table itself.
- ShortestAncestralPath.NewSAP: requires every adjacency entry to be a vertex of the graph, which an algs4 `Digraph` guarantees.
- ShortestAncestralPath.SAP.BfsFromAll: on failure, the contract does not say which of the sources before the bad one are marked; it says only that unmarked vertices keep their distTo entry.

## Findings

| source | as written | input that shows it | evidently intended | confidence | as-written member | corrected member |
|---|---|---|---|---|---|---|
| week5/CircularSuffixArray.java:39-41 | the equal band is sorted again one character deeper whenever `v >= 0`, which always holds since `charAt` returns a non-negative character, so the depth is never bounded | the text "AA" (or any text with two equal rotations): the band of equal rotations is the same at every depth, so the recursion never ends and the stack overflows | recurse on the equal band only while the next depth is below n, since rotations that agree on n characters are equal | not executed | SuffixArrays.AsWrittenMiddleCall, SuffixArrays.AsWrittenNeverStops | SuffixArrays.CircularSuffixArray.Sort |
