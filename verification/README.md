# Partial-match query scan over a multi-attribute linear-hashed file

This project models `query.c` of a multi-attribute hashed (MAH) file in Dafny.
The file is linear-hashed. A tuple's bucket comes from a *choice vector*: hash bit
`i` of a tuple is bit `chvec[i].bit` of the hash of attribute `chvec[i].att`.
A partial-match query such as `"1234,?,abc,?"` gives some attributes and leaves the
others as the wildcard `?`. The scan visits only the buckets whose address agrees
with the hash bits the query fixes.

- `startQuery` is modelled by the constructor of the class `Query.QueryRep`.
  - The `for` loop over the choice vector is `Query.DeriveBits`. It yields the *known* bits and the *unknown* mask.
  - The constructor then places the cursor on the first candidate bucket: `known` cut to `depth` bits, primary page, offset 0.
- `getNextTuple` is `Query.QueryRep.GetNextTuple`, a loop over three steps:
  - read on in the current page (`ScanPage`, built on the loop method `Query.NextMatch`);
  - follow the overflow link (`FollowOverflow`);
  - probe later buckets with the bucket test of lines 101-105 (`AdvanceBucket`, built on the loop method `Query.NextBucket`).
- `closeQuery` is `Query.QueryRep.Close`, a method with no effect.

What the scan still has to return is the ghost function `QueryRep.Pending()`. It is defined in two steps:

- the tuples still to read: the rest of the current page, then the rest of its overflow chain, then every later bucket that passes the bucket test (`Query.ScanFrom`, `Buckets.QualifyingFrom`);
- of these, the ones `tupleMatch` accepts (`Buckets.Matching`).

The cursor invariant `QueryRep.Valid()` also keeps the page being read on the current bucket. In overflow mode, the page lies on the overflow chain of `curdatapage`, as many links in as the ghost fuel `chainLeft` has spent (`OnBucketChain`, `Page.OnChain`).

After the constructor, `Pending()` holds the matching tuples of every qualifying bucket from bucket 0 on. Each call of `GetNextTuple` returns the head of `Pending()` and leaves the rest, or returns `None` when `Pending()` is empty. The lemmas of `Buckets` connect the qualifying buckets to the relation:

- the first bucket passes the test and no earlier bucket does;
- every tuple stored by the linear-hashing rule under a hash that agrees with the query is met (no false negatives);
- making an attribute `?` only adds buckets;
- an all-`?` query meets every bucket, in order.

Modules, one per file:

- `Bits` (`bits.dfy`): 32-bit words as naturals, with `getLower`, `setBit`, `&` and `~`.
- `Page` (`page.dfy`): page data areas holding null-terminated tuples, and overflow chains.
- `Reln` (`reln.dfy`): the relation as the scan reads it.
- `ChoiceVector` (`choicevector.dfy`): known bits and unknown mask.
- `Buckets` (`buckets.dfy`): the bucket test and the tuples of the qualifying buckets.
- `Query` (`query.dfy`): `QueryRep` and its loops.

## Model

| member | source | states |
|---|---|---|
| Bits.BitIsSet | query.c:44 | Bit i of v: the bit read off after halving v i times. |
| Bits.BitIsSetMasks | query.c:44 | Bit i of v is set iff v & (1 << i) is non-zero, the test bitIsSet makes. |
| Bits.GetLower | query.c:101-104 | The result keeps exactly bits 0..n-1 of v. It is below 2^n and at most v. |
| Bits.SetBit | query.c:43-45 | The result has bit i set and keeps every other bit of v. |
| Bits.And | query.c:105 | A bit is set in the result iff it is set in both operands. The result is at most either operand. |
| Bits.Complement | query.c:48 | Within a 32-bit word, bit i is set in the result iff it is clear in v. No bit above the word is set. |
| Page.TupleAt | query.c:78-83 | The tuple at offset o fits in the area. It is followed by a null byte or the end of the area. It is non-empty when the byte at o is not null. |
| Page.TupleBytes | query.c:78-83 | The tuple at o is the slice of the area from o up to its terminator, and contains no null byte. |
| Page.NextOffset | query.c:79-83 | The offset just past the tuple at o and its terminator. |
| Page.PageTuples | query.c:78 | A page yields no more tuples exactly when the byte at the cursor is null. |
| Page.PageTuplesAreText | query.c:78-79 | Every tuple read from a page is non-empty and null-free. |
| Reln.ChoiceHash | query.c:44 | Bit i of a tuple's multi-attribute hash is the chosen bit of the hash of the chosen attribute, for every i below n. |
| Reln.LinearAddress | query.c:101-104 | The bucket linear hashing stores a hash in lies below npages and is the hash cut to either depth or depth+1 bits. The contract leaves which cut open. The body takes depth+1 bits when the depth-bit bucket lies below the split point. |
| ChoiceVector.MarkSpecified | query.c:41-47 | The mask the loop accumulates has bit i set iff it was set at the start, or i < n and attribute chvec[i].att is given. |
| ChoiceVector.UnknownAsWritten | query.c:41-48 | The unknown word startQuery leaves from a start value: bit i is set iff i < 32, bit i of the start is clear and position i is a wildcard. |
| ChoiceVector.ClearedStartGivesMask | query.c:40-48 | From a cleared start, complementing the accumulated mask sets bit i exactly for the wildcard positions. |
| ChoiceVector.StrayStartLosesWildcard | query.c:41-48 | As written: a start with a stray bit 0 clears bit 0 of the complemented mask even though position 0 is a wildcard, so the result is not the unknown mask. |
| ChoiceVector.KnownUnknownDisjoint | query.c:40-48 | The known bits and the unknown mask share no bit. |
| ChoiceVector.DerivedBitsUnique | query.c:40-48 | A query has one known-bit pattern and one unknown mask. |
| ChoiceVector.KnownIsMaskedHash | query.c:40-48 | The known bits are the query's own multi-attribute hash with the wildcard positions cleared. |
| ChoiceVector.AgreeingTupleHash | query.c:40-48 | A tuple that equals the query at every given attribute has a hash whose bits outside the unknown mask are the known bits. |
| ChoiceVector.WildcardFreesBits | query.c:42-48 | Making attribute a a wildcard only adds bits to the unknown mask. The new known bits are the old ones outside the new mask. |
| ChoiceVector.AllWildcardBits | query.c:42-48 | With every attribute `?`, no bit is known and every one of the 32 bits is free. |
| Buckets.Qualifies | query.c:101-105 | Bucket b passes iff b & ~unknown equals known cut to depth bits when b < 2^depth, and to depth+1 bits otherwise. |
| Buckets.Matching | query.c:80 | Filtering by tupleMatch never lengthens the sequence. |
| Buckets.MatchingMembers | query.c:80-82 | A tuple is in the filtered sequence iff it is in the input and tupleMatch accepts it. |
| Buckets.MatchingAppend | query.c:78-84 | Filtering a concatenation is the concatenation of the filtered parts, order kept. |
| Buckets.FirstBucketQualifies | query.c:49 | The first bucket, known cut to depth bits, is below 2^depth and passes the bucket test. |
| Buckets.NoBucketBeforeFirst | query.c:49 | No bucket below the first one passes the bucket test. |
| Buckets.SkipToFirst | query.c:49 | The qualifying tuples from any bucket at or below the first one are those from the first one. |
| Buckets.ScanFromFirstBucket | query.c:49 | Starting at the first bucket meets the same tuples as testing every bucket from 0. |
| Buckets.AddressQualifies | query.c:101-105 | The bucket linear hashing stores a hash in passes the test whenever the hash agrees with the known bits, split or not. |
| Buckets.EveryBucketQualifies | query.c:101-105 | With no known bit, every bucket passes the test. |
| Buckets.QualifiesWidens | query.c:101-105 | A bucket that passes the test still passes it when bits are freed from the known bits. |
| Buckets.InQualifyingFrom | query.c:94-105 | Every tuple of a qualifying bucket b is met by a scan from any bucket at or before b. |
| Buckets.NoFalseNegatives | query.c:66-110 | Let tv be attribute values that agree with every given attribute of the query. A tuple stored in tv's linear-hashing bucket that tupleMatch accepts is among the matching tuples of the scan from bucket 0. |
| Buckets.WildcardVisitsMore | query.c:101-105 | Making an attribute `?` keeps every bucket the scan visited. |
| Buckets.AllWildcardScan | query.c:94-108 | With every attribute `?`, the scan meets the tuples of every bucket in increasing bucket order, each bucket once. |
| Buckets.StrayStartSkipsBucket | query.c:101-105 | As written: with a stray bit 0 in the unknown field, an all-`?` query rejects bucket 1. With a cleared field, bucket 1 passes. |
| Query.DeriveBits | query.c:40-48 | The loop yields known bits and an unknown mask meeting their bit-by-bit definitions. They are disjoint and known fits in 32 bits. |
| Query.EnterBucket | query.c:106-109 | Entering a qualifying bucket reads its primary page from offset 0, then its overflow chain, then the later qualifying buckets. |
| Query.FirstBucketScan | query.c:49-52 | The first bucket lies in the file, has a primary page and passes the bucket test. Reading from its primary page at offset 0 is the scan of all qualifying buckets from bucket 0. |
| Query.ScanStep | query.c:78-83 | Stepping over one tuple moves the cursor past its terminator. The tuple comes first in the pending sequence iff tupleMatch accepts it. |
| Query.NextMatch | query.c:73-84 | The page loop returns a tuple tupleMatch accepts, ending just before the new offset, and pending loses exactly that tuple. Otherwise it stops on the closing empty tuple with pending unchanged. |
| Query.PastPageEnd | query.c:86-99 | At the end of a page with no overflow link, all that is left is the later qualifying buckets. |
| Query.OverflowStep | query.c:86-93 | At the end of a page with an overflow link, the link is an overflow page. The scan reads on from its offset 0 with the same tuples. |
| Query.NextBucket | query.c:94-105 | The probe returns a larger bucket id and skips only buckets that fail the test. Found: the id is a qualifying bucket in the file. Not found: it is npages, or the old id + 1 past the end. The scan's tuples are unchanged. |
| Query.QueryRep.constructor | query.c:29-62 | known and unknown meet their definitions. The cursor is on the first bucket's primary page at offset 0, not in overflow. Pending is the matching tuples of all qualifying buckets. |
| Query.QueryRep.ScanPage | query.c:73-84 | A returned tuple passes tupleMatch, the offset has moved past it, and pending loses exactly it. Otherwise the cursor is at the page end with pending unchanged. |
| Query.QueryRep.FollowOverflow | query.c:86-93 | It moves iff the page has an overflow link. It moves to that page, in overflow mode, at offset 0, with curdatapage unchanged. The tuples still to read are unchanged. |
| Query.QueryRep.CurPage | query.c:73-88 | The overflow-map page when in overflow mode, else the data-map page. |
| Query.QueryRep.EnterPrimary | query.c:106-109 | The cursor is on bucket b's primary page, not in overflow, at offset 0. The tuples still to read are the scan from b. |
| Query.QueryRep.RunPastEnd | query.c:97-100 | Past the last bucket the cursor is exhausted and nothing is left to read. |
| Query.QueryRep.AdvanceBucket | query.c:94-109 | curdatapage grows and no skipped bucket qualifies. Found: the bucket qualifies and the cursor is on its primary page at offset 0. Not found: the scan is exhausted and the page cursor is untouched. What is left to read is the later qualifying buckets. |
| Query.QueryRep.LeavingBucket | query.c:86-96 | At the end of a bucket's last page, what is left to read is the later qualifying buckets. |
| Query.QueryRep.GetNextTuple | query.c:66-111 | It returns the head of pending, a tuple that passes tupleMatch, with the offset moved past it. Or it returns None when nothing is pending and the scan is exhausted, and every later call returns None too. curdatapage never decreases. |
| Page.OnChainExtend | query.c:86-92 | Following the link of a page on a bucket's overflow chain reaches the next page of that chain, one link further. |
| Query.QueryRep.ExhaustedHasNothingPending | query.c:97-100 | An exhausted cursor has nothing pending. |
| Query.QueryRep.Close | query.c:130-134 | No effect: the query object is left as it was. |

## Left out

- Memory management is not modelled: `malloc`, `free` and `assert` (query.c:31-35, 53, 132). `Close` stands for `closeQuery` as a method with no effect.
- Page I/O is not modelled: `getPage`, `dataFile`, `ovflowFile`, `pageData` and `pageOvflow`. The relation's data and overflow pages are two read-only maps from page id to page.
- `hash_any`, the query-string parsing of `tupleVals`/`freeVals` and `tupleMatch` are foreign code. They are parameters: a hash function, the attribute values as a sequence of `nattrs` strings, and a filter predicate.
- bits.c, tuple.c, hash.c, reln.c, page.c and defs.h are not part of this model. `getLower`, `setBit` and `bitIsSet` are defined here from their use in query.c. `Reln.ChoiceHash` and `Reln.LinearAddress` state the insertion-side addressing rule, and serve only to state no-false-negatives.
- startQuery does not check the query's arity. It allocates `nattrs` slots and lets `tupleVals` fill them (query.c:34-36). A query with another number of attributes is undefined behaviour in C, so the constructor requires exactly `nattrs` values.
- Integer widths are unbounded. `curdatapage` does not wrap at 2^32 after repeated calls past the end of the scan. `1<<depth` is 2^depth for every depth.
- The relation does not change during a scan. There are no concurrent inserts or splits.
- Overflow chains are assumed to end. The ghost field `chainLeft` is the fuel that bounds the pages still to come, at most the number of overflow pages.
- `Query.NextMatch` and `Query.NextBucket` loop over values and the result is written back to the fields. The returned tuple is a value, not a pointer into the page buffer, and aliasing of that buffer is not modelled.
- The outer loop of getNextTuple (query.c:70) tests `curpage != NO_PAGE`, which a valid cursor never fails. It is modelled as a loop that ends only by returning. The unreachable `return NULL` at line 111 is not modelled.
- The commented-out alternative bound at query.c:98 is not modelled, nor are the TODO notes or the storing of the caller's query pointer (query.c:39).
- Buckets.WildcardVisitsMore: wildcard monotonicity is proved for the buckets visited, not for the tuples returned, because `tupleMatch` is a parameter.

## Findings

| source | as written | input that shows it | evidently intended | confidence | as-written member | corrected member |
|---|---|---|---|---|---|---|
| query.c:31-48 | `unknown` of the freshly allocated QueryRep is never cleared before `setBit` marks the given positions (line 43) and the word is complemented (line 48). A stray bit from the allocation reads as a given attribute. | Any relation with at least two pages, an all-`?` query, and a field that happens to start with bit 0 set: bucket 1 fails the bucket test and its tuples are never returned. | `unknown` starts at 0, like `known` at line 40, so that bit i is set exactly for wildcard positions. | not executed; the start value depends on the allocator | ChoiceVector.StrayStartLosesWildcard | Query.DeriveBits |
