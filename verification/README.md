# PSL ground rules, simple term store and streamed page reader — a Dafny model

This project models three pieces at the centre of PSL (Probabilistic Soft Logic) inference.

- **Ground logical rules** (`ground_rule.dfy`, module `GroundLogicalRules`). A ground rule is
  a clause in negated disjunctive normal form: positive literals and negative literals over
  ground atoms.
  - The constructor builds the rule's dissatisfaction function and folds a hash code over
    the source rule and the literals.
  - `getFunction` gives the function coefficient +1 per positive literal and −1 per negative
    literal, and the constant 1 − |pos|. It adds a hinge at zero when there is more than one
    literal, and never squares.
  - Also modelled: `getAtoms`, `size`, `equals`/`hashCode`, and `baseToString`, which
    re-negates the clause into a disjunction of literals.
  - Proved: for truth values in [0,1] the dissatisfaction stays in [0,1]. On 0/1 values it is
    1 exactly when the original clause is violated and 0 otherwise. Rendering loses nothing:
    the literal lists can be read back from the formula.
- **The simple term store** (`term_store.dfy`, module `TermStores`, over the union-find in
  `atom_store.dfy`, module `AtomStores`). The store keeps a list of all terms and a map from
  connected-component id to that component's terms.
  - `add` appends the term and files it under the union-find root of its first atom. It then
    unions each further atom's set into that root, moving the other set's bucket onto the end
    of the term's bucket.
  - The class invariant is proved to hold after every operation:
    - the buckets taken together hold exactly the stored terms, as a multiset;
    - every bucket key is a current root;
    - every atom of every term in a bucket has that key as its root.
  - Consequences proved from the invariant: each stored term sits in exactly one bucket, and
    the bucket sizes add up to `size()`.
  - `get`, `clear`, `iterator`, `size` and `getConnectedComponentKeys` are modelled too.
- **The streamed page reader** (`page_reader.dfy`, module `StreamingPages`). This is
  `SGDStreamingCacheIterator.readPage`.
  - A page is an 8-byte header (body byte count, then term count, each a big-endian 32-bit
    int) followed by the body.
  - The reader reads the header into the front of the shared term buffer, decodes it, reads
    the body behind it, and logs 8 + body bytes as read from disk. It then appends the first
    `numTerms` pool terms to the term cache.
  - The page file is a parameter: its bytes, or `None` when opening or reading fails.
  - `ReadPage` is proved equal, in all its effects, to the function `ReadPageSpec`. Proved
    about that function:
    - exactly when a page is accepted;
    - what an accepted page and a rejected page each leave behind;
    - that a page laid out by a writer reads back;
    - that reading a page twice repeats the same effects;
    - that bytes after the declared body are never examined.

`wrappers.dfy` (module `Wrappers`) holds the `Option`, `Result` and `Outcome` types. The model
uses them where the source returns null or throws.

Three behaviours of the code that are easy to get wrong:
- `add` always merges the other component's bucket into the term's own bucket, whatever
  the two sizes are.
- The page reader checks that the file holds at least the declared body, but not that the
  file ends there (`StreamingPages.TrailingBytesIgnored`).
- The header ints are signed 32-bit values. A negative body size fails the buffer's range
  check, and a negative term count loads no terms.

## Model

| member | source | states |
|---|---|---|
| `GroundLogicalRules.GetFunction` | psl-core/src/main/java/org/linqs/psl/model/rule/logical/AbstractGroundLogicalRule.java:78-102 | The function has one slot per literal, +1 for each positive literal in order, then −1 for each negative literal in order, constant 1 − \|pos\|; it is hinged iff there is more than one literal and is never squared |
| `GroundLogicalRules.RawValue` | psl-core/src/main/java/org/linqs/psl/model/rule/logical/AbstractGroundLogicalRule.java:85-99 | Before the hinge the function's value is sum of positive values − sum of negative values + 1 − \|pos\| |
| `GroundLogicalRules.DissatisfactionInUnitInterval` | psl-core/src/main/java/org/linqs/psl/model/rule/logical/AbstractGroundLogicalRule.java:73-102 | With every atom's truth value in [0,1], the dissatisfaction is in [0,1] |
| `GroundLogicalRules.BooleanDissatisfaction` | psl-core/src/main/java/org/linqs/psl/model/rule/logical/AbstractGroundLogicalRule.java:97-99 | On 0/1 truth values the dissatisfaction is 1 exactly when the original clause is violated (all positive atoms true, all negative atoms false), else 0 |
| `GroundLogicalRules.NewGroundLogicalRule` | psl-core/src/main/java/org/linqs/psl/model/rule/logical/AbstractGroundLogicalRule.java:51-71 | Keeps the rule and both literal lists, builds the dissatisfaction with getFunction, and the hash is the rule's hash with every positive, then every negative, literal folded in left to right |
| `GroundLogicalRules.Size` | psl-core/src/main/java/org/linqs/psl/model/rule/logical/AbstractGroundLogicalRule.java:127-129 | size() is the number of literals, one per entry of the clause that baseToString renders |
| `GroundLogicalRules.SizeIsArity` | psl-core/src/main/java/org/linqs/psl/model/rule/logical/AbstractGroundLogicalRule.java:127-129 | size() equals the number of function slots and the capacity the function was created with |
| `GroundLogicalRules.GetAtoms` | psl-core/src/main/java/org/linqs/psl/model/rule/logical/AbstractGroundLogicalRule.java:104-117 | An atom is in the result iff it is a positive or a negative literal |
| `GroundLogicalRules.AtomsBoundedBySize` | psl-core/src/main/java/org/linqs/psl/model/rule/logical/AbstractGroundLogicalRule.java:104-129 | getAtoms never has more elements than size() |
| `GroundLogicalRules.Equals` | psl-core/src/main/java/org/linqs/psl/model/rule/logical/AbstractGroundLogicalRule.java:131-150 | For any two rules: equals holds only for the same source rule, the same hash code and equal ordered literal lists, and every rule equals itself; it is false for null |
| `GroundLogicalRules.EqualsIffSameRuleAndLiterals` | psl-core/src/main/java/org/linqs/psl/model/rule/logical/AbstractGroundLogicalRule.java:131-155 | For constructed rules, equals holds iff the rules and the ordered literal lists agree; equal rules have equal hash codes; equals is symmetric and false for null |
| `GroundLogicalRules.ClauseLiterals` | psl-core/src/main/java/org/linqs/psl/model/rule/logical/AbstractGroundLogicalRule.java:160-169 | The literal array has one entry per literal |
| `GroundLogicalRules.BaseToString` | psl-core/src/main/java/org/linqs/psl/model/rule/logical/AbstractGroundLogicalRule.java:157-172 | An empty clause fails (literals[0] does not exist); otherwise the result is the disjunction of the negated positive literals then the negative literals, or the single literal alone |
| `GroundLogicalRules.RenderingRoundTrip` | psl-core/src/main/java/org/linqs/psl/model/rule/logical/AbstractGroundLogicalRule.java:159-171 | The positive and negative literal lists can be read back from the rendered formula |
| `AtomStores.AtomStore.FindAtomRoot` | psl-core/src/main/java/org/linqs/psl/reasoner/term/SimpleTermStore.java:54 | The root of an atom is a root (its own root) and is the atom's recorded root |
| `AtomStores.AtomStore.Union` | psl-core/src/main/java/org/linqs/psl/reasoner/term/SimpleTermStore.java:76 | Afterwards two atoms share a root iff they did before or each was in one of the two joined sets; the first argument's root survives; sets only merge |
| `AtomStores.CoarsensTransitive` | psl-core/src/main/java/org/linqs/psl/reasoner/term/SimpleTermStore.java:67-86 | "Sets only merge" composes over successive unions |
| `TermStores.MergePreservesFlatten` | psl-core/src/main/java/org/linqs/psl/reasoner/term/SimpleTermStore.java:84-85 | Moving one bucket onto the end of another and removing it keeps the buckets' joint multiset of terms |
| `TermStores.FilingKeepsFlatten` | psl-core/src/main/java/org/linqs/psl/reasoner/term/SimpleTermStore.java:57-63 | Appending a term to a bucket (new or existing) adds exactly that term to the joint multiset |
| `TermStores.FilingKeepsConnected` | psl-core/src/main/java/org/linqs/psl/reasoner/term/SimpleTermStore.java:54-63 | Filing a term under its first atom's root keeps every other term's atoms rooted at its bucket key |
| `TermStores.SimpleTermStore.constructor` | psl-core/src/main/java/org/linqs/psl/reasoner/term/SimpleTermStore.java:42-46 | Starts with no terms and no components, satisfying the store invariant |
| `TermStores.SimpleTermStore.FileInBucket` | psl-core/src/main/java/org/linqs/psl/reasoner/term/SimpleTermStore.java:57-63 | The term is appended to its root's bucket, created if absent; nothing else changes |
| `TermStores.SimpleTermStore.UnifyAtom` | psl-core/src/main/java/org/linqs/psl/reasoner/term/SimpleTermStore.java:68-85 | One loop step, exactly: the other atom's set is relabelled to the term's root, and its bucket, if it has one and is a different set, is appended to the term's bucket and removed |
| `TermStores.MergeStepShape` | psl-core/src/main/java/org/linqs/psl/reasoner/term/SimpleTermStore.java:68-85 | One step keeps the joint multiset of terms, only grows the term's bucket at its end, leaves other remaining buckets as they were, puts the atom under the term's root and only merges sets |
| `TermStores.MergeStepKeepsBuckets` | psl-core/src/main/java/org/linqs/psl/reasoner/term/SimpleTermStore.java:76-85 | One step keeps every term other than the one being added in a bucket keyed by its atoms' root |
| `TermStores.UnifyAll` | psl-core/src/main/java/org/linqs/psl/reasoner/term/SimpleTermStore.java:65-86 | The state after the loop, as the step folded over the term's further atoms; the union-find stays a forest and every bucket key stays a root |
| `TermStores.SimpleTermStore.UnifyTermAtoms` | psl-core/src/main/java/org/linqs/psl/reasoner/term/SimpleTermStore.java:65-86 | The loop leaves the buckets and roots exactly as UnifyAll describes |
| `TermStores.UnifyAllKeepsBuckets` | psl-core/src/main/java/org/linqs/psl/reasoner/term/SimpleTermStore.java:65-86 | The loop keeps the joint multiset of terms and the other terms connected, only grows the term's bucket at its end and leaves the other remaining buckets as they were |
| `TermStores.UnifyAllJoinsAtoms` | psl-core/src/main/java/org/linqs/psl/reasoner/term/SimpleTermStore.java:67-76 | After the loop each further atom of the term is under the term's root |
| `TermStores.UnifyAllRoots` | psl-core/src/main/java/org/linqs/psl/reasoner/term/SimpleTermStore.java:67-76 | After the loop an atom's root is the term's root exactly when its old root was the term's root or the old root of one of the further atoms; every other atom keeps its old root |
| `TermStores.UnifyAllBuckets` | psl-core/src/main/java/org/linqs/psl/reasoner/term/SimpleTermStore.java:78-85 | After the loop the bucket of every joined set other than the term's is gone, and every other bucket is present exactly when it was before, with the same contents |
| `TermStores.UnifyTermJoinsExactly` | psl-core/src/main/java/org/linqs/psl/reasoner/term/SimpleTermStore.java:54-86 | add's loop joins exactly the sets of the term's atoms under the first atom's root and removes exactly their other buckets; unrelated sets keep their roots and unrelated buckets survive |
| `TermStores.UnifyTermKeepsStore` | psl-core/src/main/java/org/linqs/psl/reasoner/term/SimpleTermStore.java:48-89 | After the loop every bucket, including the term's, holds only terms whose atoms all have the bucket's key as root, and sets have only merged |
| `TermStores.SimpleTermStore.Add` | psl-core/src/main/java/org/linqs/psl/reasoner/term/SimpleTermStore.java:48-89 | Returns 1, appends the term to the list and keeps the store invariant. The new buckets and roots are exactly the term filed under its first atom's old root, followed by the loop (UnifyAll) over its further atoms. Exactly the sets of the term's atoms now share that root, and every other atom keeps its root. The only buckets removed are those of the joined sets. The root's bucket extends the old bucket plus the term, other remaining buckets are unchanged, and sets only merge |
| `TermStores.SimpleTermStore.Clear` | psl-core/src/main/java/org/linqs/psl/reasoner/term/SimpleTermStore.java:94-98 | Empties the term list and the component map, keeping the invariant |
| `TermStores.SimpleTermStore.Get` | psl-core/src/main/java/org/linqs/psl/reasoner/term/SimpleTermStore.java:112-117 | The lookup at the index narrowed to 32 bits, as written |
| `TermStores.SimpleTermStore.GetChecked` | psl-core/src/main/java/org/linqs/psl/reasoner/term/SimpleTermStore.java:112-117 | Succeeds iff 0 <= index < size(), returning the term at that index |
| `TermStores.SimpleTermStore.Size` | psl-core/src/main/java/org/linqs/psl/reasoner/term/SimpleTermStore.java:136-139 | The number of stored terms |
| `TermStores.SimpleTermStore.Iterator` | psl-core/src/main/java/org/linqs/psl/reasoner/term/SimpleTermStore.java:131-134 | Visits the stored terms in insertion order |
| `TermStores.SimpleTermStore.GetConnectedComponentKeys` | psl-core/src/main/java/org/linqs/psl/reasoner/term/SimpleTermStore.java:127-129 | Lists every component id exactly once and nothing else |
| `TermStores.Int32Cast` | psl-core/src/main/java/org/linqs/psl/reasoner/term/SimpleTermStore.java:116 | The (int) narrowing: a value in the int range that agrees with the long modulo 2^32 |
| `TermStores.CheckedLookup` | psl-core/src/main/java/org/linqs/psl/reasoner/term/SimpleTermStore.java:114-116 | Succeeds iff the index is in range, with the term at that index |
| `TermStores.TruncatedLookupWrapsAround` | psl-core/src/main/java/org/linqs/psl/reasoner/term/SimpleTermStore.java:113-117 | The narrowing lookup returns term 0 for indexes 2^32 and −2^32, where the checked lookup fails |
| `TermStores.LookupsAgreeOnIntRange` | psl-core/src/main/java/org/linqs/psl/reasoner/term/SimpleTermStore.java:113-117 | For indexes in the int range the narrowing and checked lookups agree |
| `TermStores.TermsPartitionedByComponent` | psl-core/src/main/java/org/linqs/psl/reasoner/term/SimpleTermStore.java:36-40 | Each stored term is in exactly one bucket, keyed by its atoms' common root, which holds it as often as the list does |
| `TermStores.BucketSizesSumToSize` | psl-core/src/main/java/org/linqs/psl/reasoner/term/SimpleTermStore.java:36-40 | The bucket sizes add up to the number of stored terms |
| `TermStores.InsertionOrder` | psl-core/src/main/java/org/linqs/psl/reasoner/term/SimpleTermStore.java:94-134 | After clear and two adds, iteration yields the two terms in order and get(0) the first |
| `StreamingPages.DecodeInt32` | psl-core/src/main/java/org/linqs/psl/reasoner/sgd/term/SGDStreamingCacheIterator.java:55-56 | A 4-byte big-endian two's-complement int: in the int range, negative iff the top bit is set |
| `StreamingPages.EncodeInt32` | psl-core/src/main/java/org/linqs/psl/reasoner/sgd/term/SGDStreamingCacheIterator.java:55-56 | The writer's 4-byte layout of an int |
| `StreamingPages.DecodeEncodeInt32` | psl-core/src/main/java/org/linqs/psl/reasoner/sgd/term/SGDStreamingCacheIterator.java:55-56 | Decoding an encoded int gives it back |
| `StreamingPages.EncodeDecodeInt32` | psl-core/src/main/java/org/linqs/psl/reasoner/sgd/term/SGDStreamingCacheIterator.java:55-56 | Encoding a decoded 4-byte group gives the bytes back |
| `StreamingPages.StreamRead` | psl-core/src/main/java/org/linqs/psl/reasoner/sgd/term/SGDStreamingCacheIterator.java:48-64 | A read returns −1 or a count up to the length asked; exactly the length iff nothing was asked or enough bytes remain; −1 iff something was asked at end of file |
| `StreamingPages.ReadInto` | psl-core/src/main/java/org/linqs/psl/reasoner/sgd/term/SGDStreamingCacheIterator.java:48-59 | A bad offset or length fails the range check and leaves the buffer; otherwise the bytes delivered are written at the offset and nothing else changes |
| `StreamingPages.HeaderLandsInFront` | psl-core/src/main/java/org/linqs/psl/reasoner/sgd/term/SGDStreamingCacheIterator.java:48-56 | After a full header read the two ints are decoded from the file's first eight bytes |
| `StreamingPages.EncodePage` | psl-core/src/main/java/org/linqs/psl/reasoner/sgd/term/SGDStreamingCacheIterator.java:44-59 | A page is the header plus the body |
| `StreamingPages.ReadPageSucceedsIff` | psl-core/src/main/java/org/linqs/psl/reasoner/sgd/term/SGDStreamingCacheIterator.java:41-79 | A page is accepted iff the file is readable, the buffer holds the header, the file holds a full header and the declared body, the body fits the buffer and the pool has a term for every declared term |
| `StreamingPages.AcceptedPageEffects` | psl-core/src/main/java/org/linqs/psl/reasoner/sgd/term/SGDStreamingCacheIterator.java:59-78 | After an accepted page the buffer starts with header and body, the rest is untouched, 8 + body bytes are logged, and pool slots 0..numTerms−1 are appended |
| `StreamingPages.RejectedPageEffects` | psl-core/src/main/java/org/linqs/psl/reasoner/sgd/term/SGDStreamingCacheIterator.java:46-78 | A rejected page logs and appends nothing, except when the pool runs out: then the bytes were logged and every pool slot was appended |
| `StreamingPages.ShortHeaderReported` | psl-core/src/main/java/org/linqs/psl/reasoner/sgd/term/SGDStreamingCacheIterator.java:48-53 | A file shorter than the header fails with the page, 8 and the bytes read (−1 for an empty file) |
| `StreamingPages.ShortBodyReported` | psl-core/src/main/java/org/linqs/psl/reasoner/sgd/term/SGDStreamingCacheIterator.java:59-64 | A body shorter than declared fails with the page, the declared size and the bytes read (−1 if none) |
| `StreamingPages.EncodedPageReadsBack` | psl-core/src/main/java/org/linqs/psl/reasoner/sgd/term/SGDStreamingCacheIterator.java:41-79 | A page laid out by a writer is accepted, lands whole in the buffer, logs its size and appends one pool slot per term |
| `StreamingPages.ExactPageAccepted` | psl-core/src/main/java/org/linqs/psl/reasoner/sgd/term/SGDStreamingCacheIterator.java:41-79 | A file exactly as long as its header declares, whose terms fit the pool, is accepted with those effects |
| `StreamingPages.TrailingBytesIgnored` | psl-core/src/main/java/org/linqs/psl/reasoner/sgd/term/SGDStreamingCacheIterator.java:59-64 | Bytes after the declared body change nothing |
| `StreamingPages.ReadPageIdempotent` | psl-core/src/main/java/org/linqs/psl/reasoner/sgd/term/SGDStreamingCacheIterator.java:41-79 | Reading the same page again into the buffer the first read left has the same effects |
| `StreamingPages.SGDStreamingCacheIterator.constructor` | psl-core/src/main/java/org/linqs/psl/reasoner/sgd/term/SGDStreamingCacheIterator.java:30-38 | Keeps the buffer and the pool; the cache and the read counter start empty |
| `StreamingPages.SGDStreamingCacheIterator.ReadPage` | psl-core/src/main/java/org/linqs/psl/reasoner/sgd/term/SGDStreamingCacheIterator.java:41-79 | The outcome, the buffer, the logged bytes and the appended cache entries are exactly those of ReadPageSpec |

## Left out

- The hash function itself is not part of this model. `HashCode.build` becomes two function
  parameters (seed from the rule, combine with an atom); only the fold order is modelled.
- The internals of `GeneralFunction` are not part of this model. It is a record of flags,
  capacity, coefficients, atoms and constant. `add(coefficient, atom)` is assumed to always
  take a new slot, even for an atom already present; "one slot per literal" rests on that. Constants are always merged, because the
  constructor's `getFunction(true)` is the only call. Its `float` coefficients and constant
  are modelled as exact integers, so float rounding (for clauses with more than 2^24
  positive literals) is not captured.
- `Formula.toString` text is not part of this model. `BaseToString` returns the formula tree
  that would be printed.
- GroundLogicalRules.Equals: the identity shortcut (`other == this`) is modelled as value
  equality. `None` stands for both `null` and an object that is not a ground logical rule.
  `getPositiveAtoms`/`getNegativeAtoms` are the record's fields.
- The atom store's union-find is not part of this model's source. It is modelled as a fully
  compressed forest where `union(a, b)` keeps `a`'s root; path compression and union by rank
  are not modelled. `clear` leaves the union-find as it is, as the source does.
- AtomStores.AtomStore.Union: the store invariant of `SimpleTermStore` (every bucket key is
  a current root, and every atom of a bucket's terms has that key as root) is proved only
  under this first-root-survives assumption. `add` files the term under `termRootIndex`
  (SimpleTermStore.java:54-62), then calls `union(rootAtom, nextRootAtom)` (line 76) and
  keeps using `termRootIndex` as the key, and its loop test at line 71 compares against it.
  With a union that can make the second root survive (union by rank or size), the bucket
  would stay keyed by an index that is no longer a root. The model does not cover that case.
- A reasoner term is reduced to the indexes of the atoms it references. Object identity,
  coefficients and other term data are not modelled, so two terms over the same atoms are
  equal values.
- TermStores.SimpleTermStore.Add requires a term with at least one atom, and only atoms the
  atom store knows. For other terms the source throws after appending to the list, which
  leaves the store inconsistent; that path is not modelled. The `synchronized` lock and
  concurrent callers are not modelled.
- `close`, `ensureCapacity`, `getAllTerms` and `getConnectedComponents` are not modelled.
  They null out or expose the fields, or only reserve capacity.
- TermStores.SimpleTermStore.Get models the code with Java assertions disabled. With `-ea`,
  an index above `Integer.MAX_VALUE` raises an assertion error instead.
- The term buffer is assumed to use `ByteBuffer`'s default big-endian byte order.
- StreamingPages.SGDStreamingCacheIterator.constructor: the source constructor takes the
  caller's `termCache` list and passes it to the parent iterator. The model starts with an
  empty cache of its own. `ReadPage` is stated relative to the cache it finds, so nothing
  depends on the initial contents.
- The term buffer's read position is not modelled. The header ints are decoded at offsets 0
  and 4, which assumes the caller has rewound the buffer before the page. `term.read`
  deserialisation of each pool term is not modelled, so the cache holds pool slot indexes.
- Opening and reading the page file is a parameter: its bytes, or `None` for an
  `IOException`. Partial reads are modelled as a regular file delivers them (as many as
  remain, up to the length asked). Errors from closing the stream are not modelled.
- `RuntimeStats.logDiskRead` is an integer field of the iterator.
- The page writer (`SGDStreamingGroundingIterator`), the command-line launcher, the EM
  learner and the example test are context only and are not modelled.

## Findings

| source | as written | input that shows it | evidently intended | confidence | as-written member | corrected member |
|---|---|---|---|---|---|---|
| psl-core/src/main/java/org/linqs/psl/reasoner/term/SimpleTermStore.java:113-116 | `get(long index)` asserts only `index <= Integer.MAX_VALUE`, then narrows with `(int)index` | with one stored term, `get(-4294967296)` passes the assertion and returns term 0; so does `get(4294967296)` with assertions off | an index outside 0..size()−1 is rejected | not executed; high | `TermStores.TruncatedLookupWrapsAround` | `TermStores.SimpleTermStore.GetChecked` |
