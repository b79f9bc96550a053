/** The bucket address enumerator: which buckets of a linear-hashed file can
  * hold tuples agreeing with a query's known bits, and the tuples a scan of
  * those buckets meets, in scan order. */
module Buckets {
  import opened Bits
  import opened Page
  import opened Reln
  import opened ChoiceVector

  /** The bucket test of the probe: the bits of b at known positions equal the
    * known bits, truncated to depth bits for a bucket below 2^depth and to
    * depth+1 bits for a bucket created by a split. */
  predicate Qualifies(b: PageId, known: Bits, unknown: Bits, depth: nat) {
    And(b, Complement(unknown, MAXCHVEC)) == GetLower(known, if b < Pow2(depth) then depth else depth + 1)
  }

  /** The tuples of bucket b: its primary page, then its overflow chain. */
  function BucketTuples(r: Reln, b: PageId): seq<Tuple>
    requires ValidReln(r) && b < r.npages
  {
    PageTuples(r.dataPages[b].data, 0) +
    ChainTuples(r.ovflowPages, r.dataPages[b].ovflow, |r.ovflowPages|)
  }

  /** The tuples of every qualifying bucket among b, b+1, ..., npages-1, in
    * increasing bucket order. */
  function QualifyingFrom(r: Reln, known: Bits, unknown: Bits, b: PageId): seq<Tuple>
    requires ValidReln(r)
    decreases r.npages - b
  {
    if b >= r.npages then []
    else (if Qualifies(b, known, unknown, r.depth) then BucketTuples(r, b) else []) +
         QualifyingFrom(r, known, unknown, b + 1)
  }

  /** The tuples of ts that tupleMatch accepts, in order. */
  function Matching(tupleMatch: (Reln, Tuple, Tuple) -> bool, r: Reln, query: Tuple, ts: seq<Tuple>): (ms: seq<Tuple>)
    ensures |ms| <= |ts|
  {
    if ts == [] then []
    else (if tupleMatch(r, query, ts[0]) then [ts[0]] else []) + Matching(tupleMatch, r, query, ts[1..])
  }

  /** The matching tuples are exactly the tuples of ts that tupleMatch accepts. */
  lemma {:induction false} MatchingMembers(tupleMatch: (Reln, Tuple, Tuple) -> bool, r: Reln, query: Tuple, ts: seq<Tuple>, t: Tuple)
    ensures t in Matching(tupleMatch, r, query, ts) <==> t in ts && tupleMatch(r, query, t)
  {
    if ts != [] {
      MatchingMembers(tupleMatch, r, query, ts[1..], t);
      assert ts == [ts[0]] + ts[1..];
    }
  }

  lemma {:induction false} MatchingAppend(tupleMatch: (Reln, Tuple, Tuple) -> bool, r: Reln, query: Tuple, a: seq<Tuple>, b: seq<Tuple>)
    ensures Matching(tupleMatch, r, query, a + b) ==
            Matching(tupleMatch, r, query, a) + Matching(tupleMatch, r, query, b)
  {
    if a != [] {
      assert (a + b)[0] == a[0];
      assert (a + b)[1..] == a[1..] + b;
      MatchingAppend(tupleMatch, r, query, a[1..], b);
    } else {
      assert a + b == b;
    }
  }

  /** The bucket the scan starts in, the known bits cut to depth bits, lies
    * below 2^depth and passes the bucket test. */
  lemma FirstBucketQualifies(known: Bits, unknown: Bits, depth: nat)
    requires And(known, unknown) == 0 && known < WORD
    ensures GetLower(known, depth) < Pow2(depth)
    ensures Qualifies(GetLower(known, depth), known, unknown, depth)
  {
    var first := GetLower(known, depth);
    WordIsPow2();
    forall i: nat
      ensures BitIsSet(And(first, Complement(unknown, MAXCHVEC)), i) <==> BitIsSet(first, i)
    {
      ZeroHasNoBitAt(i);
      assert !BitIsSet(And(known, unknown), i);
      if BitIsSet(known, i) {
        if i >= MAXCHVEC {
          NoBitsAbove(known, MAXCHVEC, i);
        }
      }
    }
    BitsEqual(And(first, Complement(unknown, MAXCHVEC)), first);
  }

  /** No bucket below the first one passes the bucket test. */
  lemma NoBucketBeforeFirst(b: PageId, known: Bits, unknown: Bits, depth: nat)
    requires b < GetLower(known, depth)
    ensures !Qualifies(b, known, unknown, depth)
  {
  }

  lemma {:induction false} SkipToFirst(r: Reln, known: Bits, unknown: Bits, b: PageId)
    requires ValidReln(r) && b <= GetLower(known, r.depth)
    ensures QualifyingFrom(r, known, unknown, b) == QualifyingFrom(r, known, unknown, GetLower(known, r.depth))
    decreases GetLower(known, r.depth) - b
  {
    if b < GetLower(known, r.depth) {
      NoBucketBeforeFirst(b, known, unknown, r.depth);
      SkipToFirst(r, known, unknown, b + 1);
    }
  }

  /** Scanning from the first bucket meets the same tuples as testing every
    * bucket from 0. */
  lemma ScanFromFirstBucket(r: Reln, known: Bits, unknown: Bits)
    requires ValidReln(r)
    ensures QualifyingFrom(r, known, unknown, 0) == QualifyingFrom(r, known, unknown, GetLower(known, r.depth))
  {
    SkipToFirst(r, known, unknown, 0);
  }

  lemma LowerOfAnd(h: Bits, c: Bits, n: nat)
    ensures And(GetLower(h, n), c) == GetLower(And(h, c), n)
  {
    BitsEqual(And(GetLower(h, n), c), GetLower(And(h, c), n));
  }

  /** No false negatives across growth: a tuple whose hash h agrees with the
    * known bits at every known position is stored, by the linear-hashing
    * rule, in a bucket that passes the bucket test, whether or not that
    * bucket has been split. */
  lemma AddressQualifies(r: Reln, h: Bits, known: Bits, unknown: Bits)
    requires ValidReln(r)
    requires And(h, Complement(unknown, MAXCHVEC)) == known
    ensures Qualifies(LinearAddress(r, h), known, unknown, r.depth)
  {
    var c := Complement(unknown, MAXCHVEC);
    var d := r.depth;
    var p := GetLower(h, d);
    GetLowerStep(h, d);
    if p < SplitPoint(r) && BitIsSet(h, d) {
      assert LinearAddress(r, h) == GetLower(h, d + 1) >= Pow2(d);
      LowerOfAnd(h, c, d + 1);
    } else {
      assert LinearAddress(r, h) == p < Pow2(d);
      LowerOfAnd(h, c, d);
    }
  }

  /** A query with every attribute "?" lets every bucket through. */
  lemma EveryBucketQualifies(b: PageId, unknown: Bits, depth: nat)
    requires Complement(unknown, MAXCHVEC) == 0
    ensures Qualifies(b, 0, unknown, depth)
  {
    ZeroHasNoBits();
    BitsEqual(And(b, 0), 0);
    BitsEqual(GetLower(0, if b < Pow2(depth) then depth else depth + 1), 0);
  }

  /** Freeing bits never drops a bucket: a bucket that passes the test for a
    * query passes it for the query with more attributes made "?". */
  lemma QualifiesWidens(b: PageId, k1: Bits, u1: Bits, k2: Bits, u2: Bits, depth: nat)
    requires And(u1, Complement(u2, MAXCHVEC)) == 0
    requires k2 == And(k1, Complement(u2, MAXCHVEC))
    requires Qualifies(b, k1, u1, depth)
    ensures Qualifies(b, k2, u2, depth)
  {
    var n := if b < Pow2(depth) then depth else depth + 1;
    var c1 := Complement(u1, MAXCHVEC);
    var c2 := Complement(u2, MAXCHVEC);
    forall i: nat
      ensures BitIsSet(And(b, c2), i) <==> BitIsSet(GetLower(k2, n), i)
    {
      ZeroHasNoBitAt(i);
      assert !BitIsSet(And(u1, c2), i);
      assert BitIsSet(And(b, c1), i) <==> BitIsSet(GetLower(k1, n), i);
    }
    BitsEqual(And(b, c2), GetLower(k2, n));
  }

  /** Every tuple of a qualifying bucket b is met by a scan from any bucket
    * at or before b. */
  lemma {:induction false} InQualifyingFrom(r: Reln, known: Bits, unknown: Bits, from: PageId, b: PageId, t: Tuple)
    requires ValidReln(r) && from <= b < r.npages && Qualifies(b, known, unknown, r.depth)
    requires t in BucketTuples(r, b)
    ensures t in QualifyingFrom(r, known, unknown, from)
    decreases b - from
  {
    var later := QualifyingFrom(r, known, unknown, from + 1);
    if from < b {
      InQualifyingFrom(r, known, unknown, from + 1, b, t);
      assert t in later;
    } else {
      assert QualifyingFrom(r, known, unknown, from) == BucketTuples(r, b) + later;
    }
  }

  /** Every tuple stored (by the linear-hashing rule) in the bucket of a tuple
    * whose attribute values agree with the query's given attributes, and that
    * tupleMatch accepts, is among the matching tuples of a scan from bucket 0. */
  lemma NoFalseNegatives(r: Reln, hash: Tuple -> Bits, vals: seq<Tuple>, known: Bits, unknown: Bits,
                         tv: seq<Tuple>, t: Tuple, tupleMatch: (Reln, Tuple, Tuple) -> bool, query: Tuple)
    requires ValidReln(r) && |vals| == r.nattrs && |tv| == r.nattrs
    requires IsKnownBits(r, hash, vals, known) && IsUnknownMask(r, vals, unknown)
    requires forall a :: 0 <= a < r.nattrs && vals[a] != WILDCARD ==> tv[a] == vals[a]
    requires t in BucketTuples(r, LinearAddress(r, ChoiceHash(r, hash, tv, MAXCHVEC))) && tupleMatch(r, query, t)
    ensures t in Matching(tupleMatch, r, query, QualifyingFrom(r, known, unknown, 0))
  {
    var h := ChoiceHash(r, hash, tv, MAXCHVEC);
    AgreeingTupleHash(r, hash, vals, tv, known, unknown);
    AddressQualifies(r, h, known, unknown);
    InQualifyingFrom(r, known, unknown, 0, LinearAddress(r, h), t);
    MatchingMembers(tupleMatch, r, query, QualifyingFrom(r, known, unknown, 0), t);
  }

  /** Wildcard monotonicity: every bucket the scan of a query visits is also
    * visited by the scan of the same query with attribute a made "?". */
  lemma WildcardVisitsMore(r: Reln, hash: Tuple -> Bits, vals: seq<Tuple>, a: nat,
                           k1: Bits, u1: Bits, k2: Bits, u2: Bits, b: PageId)
    requires ValidReln(r) && |vals| == r.nattrs && a < r.nattrs
    requires IsKnownBits(r, hash, vals, k1) && IsUnknownMask(r, vals, u1)
    requires IsKnownBits(r, hash, vals[a := WILDCARD], k2) && IsUnknownMask(r, vals[a := WILDCARD], u2)
    requires Qualifies(b, k1, u1, r.depth)
    ensures Qualifies(b, k2, u2, r.depth)
  {
    WildcardFreesBits(r, hash, vals, a, k1, u1, k2, u2);
    QualifiesWidens(b, k1, u1, k2, u2, r.depth);
  }

  /** Full-scan equivalence: with every attribute "?" every bucket's tuples
    * are met, in bucket order. */
  lemma {:induction false} AllWildcardScan(r: Reln, hash: Tuple -> Bits, vals: seq<Tuple>, known: Bits, unknown: Bits, b: PageId)
    requires ValidReln(r) && |vals| == r.nattrs
    requires forall a :: 0 <= a < |vals| ==> vals[a] == WILDCARD
    requires IsKnownBits(r, hash, vals, known) && IsUnknownMask(r, vals, unknown)
    ensures QualifyingFrom(r, known, unknown, b) == AllFrom(r, b)
    decreases r.npages - b
  {
    if b < r.npages {
      AllWildcardBits(r, hash, vals, known, unknown);
      EveryBucketQualifies(b, unknown, r.depth);
      AllWildcardScan(r, hash, vals, known, unknown, b + 1);
    }
  }

  /** The tuples of every bucket b, b+1, ..., npages-1. */
  function AllFrom(r: Reln, b: PageId): seq<Tuple>
    requires ValidReln(r)
    decreases r.npages - b
  {
    if b >= r.npages then [] else BucketTuples(r, b) + AllFrom(r, b + 1)
  }

  /** Calls into startQuery's bucket test with the as-written unknown field:
    * with a stray bit 0, an all-"?" query rejects bucket 1, which the
    * cleared field lets through. */
  lemma StrayStartSkipsBucket(r: Reln, vals: seq<Tuple>)
    requires ValidReln(r) && |vals| == r.nattrs && 1 < r.npages
    requires forall a :: 0 <= a < |vals| ==> vals[a] == WILDCARD
    ensures !Qualifies(1, 0, UnknownAsWritten(r, vals, 1), r.depth)
    ensures Qualifies(1, 0, UnknownAsWritten(r, vals, 0), r.depth)
  {
    ZeroHasNoBits();
    var bad := Complement(UnknownAsWritten(r, vals, 1), MAXCHVEC);
    assert BitIsSet(And(1, bad), 0);
    ClearedStartGivesMask(r, vals);
    var good := UnknownAsWritten(r, vals, 0);
    forall i: nat ensures !BitIsSet(Complement(good, MAXCHVEC), i) {
      if i < MAXCHVEC {
        assert !Specified(r, vals, i);
      }
    }
    BitsEqual(Complement(good, MAXCHVEC), 0);
    EveryBucketQualifies(1, good, r.depth);
  }
}
