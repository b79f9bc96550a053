/** A partial-match query scan over a multi-attribute linear-hashed file:
  * the QueryRep object that startQuery builds and getNextTuple advances. */
module Query {
  import opened Bits
  import opened Page
  import opened Reln
  import opened ChoiceVector
  import opened Buckets

  datatype Option<T> = None | Some(value: T)

  /** Tuple t, with its terminator, ends just before offset off of data. */
  predicate EndsAt(data: seq<byte>, off: nat, t: Tuple) {
    |t| + 1 <= off <= |data| && TupleAt(data, off - |t| - 1) == t
  }

  /** What a scan reads from boundary off of page on, when at most chainLeft
    * overflow pages follow page in bucket cdp: the rest of page, the rest of
    * the overflow chain, then every later qualifying bucket. */
  ghost function ScanFrom(r: Reln, known: Bits, unknown: Bits, page: Page, off: nat, chainLeft: nat, cdp: PageId): seq<Tuple>
    requires ValidReln(r) && TuplesFrom(page.data, off) && ChainEnds(r.ovflowPages, page.ovflow, chainLeft)
  {
    PageTuples(page.data, off) +
    (ChainTuples(r.ovflowPages, page.ovflow, chainLeft) + QualifyingFrom(r, known, unknown, cdp + 1))
  }

  /** Standing on the closing empty tuple of a page without an overflow
    * page, the scan has nothing left but the buckets after cdp. */
  lemma PastPageEnd(r: Reln, known: Bits, unknown: Bits, page: Page, off: nat, chainLeft: nat, cdp: PageId)
    requires ValidReln(r) && TuplesFrom(page.data, off) && page.data[off] == 0 && page.ovflow == NO_PAGE
    ensures ScanFrom(r, known, unknown, page, off, chainLeft, cdp) == QualifyingFrom(r, known, unknown, cdp + 1)
  {
  }

  /** Standing on the closing empty tuple of a page with an overflow page,
    * the scan reads on from the start of that overflow page. */
  lemma OverflowStep(r: Reln, known: Bits, unknown: Bits, page: Page, off: nat, chainLeft: nat, cdp: PageId)
    requires ValidReln(r) && TuplesFrom(page.data, off) && page.data[off] == 0 && page.ovflow != NO_PAGE
    requires ChainEnds(r.ovflowPages, page.ovflow, chainLeft)
    ensures chainLeft > 0 && page.ovflow in r.ovflowPages
    ensures TuplesFrom(r.ovflowPages[page.ovflow].data, 0)
    ensures ChainEnds(r.ovflowPages, r.ovflowPages[page.ovflow].ovflow, chainLeft - 1)
    ensures ScanFrom(r, known, unknown, page, off, chainLeft, cdp) ==
            ScanFrom(r, known, unknown, r.ovflowPages[page.ovflow], 0, chainLeft - 1, cdp)
  {
  }

  /** Entering a qualifying bucket b: the scan from b reads b's primary page,
    * then b's overflow chain, then the later qualifying buckets. */
  lemma EnterBucket(r: Reln, known: Bits, unknown: Bits, b: PageId)
    requires ValidReln(r) && b < r.npages && Qualifies(b, known, unknown, r.depth)
    ensures b in r.dataPages && TuplesFrom(r.dataPages[b].data, 0)
    ensures ChainEnds(r.ovflowPages, r.dataPages[b].ovflow, |r.ovflowPages|)
    ensures QualifyingFrom(r, known, unknown, b) == ScanFrom(r, known, unknown, r.dataPages[b], 0, |r.ovflowPages|, b)
  {
  }

  /** The loop of startQuery: for every choice-vector position i whose
    * attribute is given, set bit i of the unknown word and, when the chosen
    * bit of that attribute's hash is set, bit i of the known bits; then
    * complement the unknown word. The unknown word starts cleared. */
  method DeriveBits(r: Reln, vals: seq<Tuple>, hash: Tuple -> Bits) returns (known: Bits, unknown: Bits)
    requires ValidReln(r) && |vals| == r.nattrs
    ensures IsKnownBits(r, hash, vals, known) && IsUnknownMask(r, vals, unknown)
    ensures And(known, unknown) == 0 && known < WORD
  {
    known := 0;
    unknown := 0;
    ZeroHasNoBits();
    for i := 0 to MAXCHVEC
      invariant forall j: nat :: BitIsSet(unknown, j) <==> j < i && Specified(r, vals, j)
      invariant forall j: nat :: BitIsSet(known, j) <==>
        j < i && Specified(r, vals, j) && HashBit(r, hash, vals, j)
    {
      if vals[r.chvec[i].att] != WILDCARD {
        unknown := SetBit(unknown, i);
        if BitIsSet(hash(vals[r.chvec[i].att]), r.chvec[i].bit) {
          known := SetBit(known, i);
        }
      }
    }
    unknown := Complement(unknown, MAXCHVEC);
    assert IsKnownBits(r, hash, vals, known) && IsUnknownMask(r, vals, unknown);
    KnownUnknownDisjoint(r, hash, vals, known, unknown);
    BitsBelow(known, MAXCHVEC);
    WordIsPow2();
  }

  /** The scan starts on the primary page of the first bucket, which lies in
    * the file and passes the bucket test; reading that bucket and then every
    * later qualifying bucket reads the same tuples as testing every bucket
    * from 0. */
  lemma FirstBucketScan(r: Reln, known: Bits, unknown: Bits)
    requires ValidReln(r) && And(known, unknown) == 0 && known < WORD
    ensures GetLower(known, r.depth) < r.npages && GetLower(known, r.depth) in r.dataPages
    ensures Qualifies(GetLower(known, r.depth), known, unknown, r.depth)
    ensures TuplesFrom(r.dataPages[GetLower(known, r.depth)].data, 0)
    ensures ChainEnds(r.ovflowPages, r.dataPages[GetLower(known, r.depth)].ovflow, |r.ovflowPages|)
    ensures QualifyingFrom(r, known, unknown, 0) ==
            ScanFrom(r, known, unknown, r.dataPages[GetLower(known, r.depth)], 0, |r.ovflowPages|, GetLower(known, r.depth))
  {
    FirstBucketQualifies(known, unknown, r.depth);
    ScanFromFirstBucket(r, known, unknown);
    EnterBucket(r, known, unknown, GetLower(known, r.depth));
  }

  /** Stepping over the tuple at boundary o of page: the next boundary
    * follows its terminator, and the matching tuples the scan reads from o
    * are that tuple (when tupleMatch accepts it) followed by the matching
    * tuples it reads from the next boundary. */
  lemma ScanStep(tupleMatch: (Reln, Tuple, Tuple) -> bool, r: Reln, query: Tuple, known: Bits, unknown: Bits,
                 page: Page, o: nat, chainLeft: nat, cdp: PageId)
    requires ValidReln(r) && TuplesFrom(page.data, o) && page.data[o] != 0
    requires ChainEnds(r.ovflowPages, page.ovflow, chainLeft)
    ensures TuplesFrom(page.data, NextOffset(page.data, o))
    ensures Matching(tupleMatch, r, query, ScanFrom(r, known, unknown, page, o, chainLeft, cdp)) ==
            (if tupleMatch(r, query, TupleAt(page.data, o)) then [TupleAt(page.data, o)] else []) +
            Matching(tupleMatch, r, query, ScanFrom(r, known, unknown, page, NextOffset(page.data, o), chainLeft, cdp))
  {
    var t := TupleAt(page.data, o);
    var later := ScanFrom(r, known, unknown, page, NextOffset(page.data, o), chainLeft, cdp);
    assert ScanFrom(r, known, unknown, page, o, chainLeft, cdp) == [t] + later;
    MatchingAppend(tupleMatch, r, query, [t], later);
    var none: seq<Tuple> := [];
    assert [t][1..] == none;
  }

  /** The inner loop of getNextTuple: from boundary start of page, step over
    * tuples until one passes tupleMatch (returned, with the offset just past
    * it) or the closing empty tuple is reached. What the scan has still to
    * return shrinks by exactly the tuple returned. */
  method NextMatch(tupleMatch: (Reln, Tuple, Tuple) -> bool, r: Reln, query: Tuple,
                   ghost known: Bits, ghost unknown: Bits, page: Page, start: nat,
                   ghost chainLeft: nat, ghost cdp: PageId) returns (t: Option<Tuple>, off: nat)
    requires ValidReln(r) && TuplesFrom(page.data, start)
    requires ChainEnds(r.ovflowPages, page.ovflow, chainLeft)
    ensures start <= off && TuplesFrom(page.data, off)
    ensures t.Some? ==> tupleMatch(r, query, t.value) && EndsAt(page.data, off, t.value)
    ensures t.Some? ==> Matching(tupleMatch, r, query, ScanFrom(r, known, unknown, page, start, chainLeft, cdp)) ==
                        [t.value] + Matching(tupleMatch, r, query, ScanFrom(r, known, unknown, page, off, chainLeft, cdp))
    ensures t.None? ==> page.data[off] == 0
    ensures t.None? ==> Matching(tupleMatch, r, query, ScanFrom(r, known, unknown, page, start, chainLeft, cdp)) ==
                        Matching(tupleMatch, r, query, ScanFrom(r, known, unknown, page, off, chainLeft, cdp))
  {
    off := start;
    t := None;
    while page.data[off] != 0
      invariant start <= off && TuplesFrom(page.data, off)
      invariant Matching(tupleMatch, r, query, ScanFrom(r, known, unknown, page, start, chainLeft, cdp)) ==
                Matching(tupleMatch, r, query, ScanFrom(r, known, unknown, page, off, chainLeft, cdp))
      decreases |page.data| - off
    {
      var tuple := TupleAt(page.data, off);
      ScanStep(tupleMatch, r, query, known, unknown, page, off, chainLeft, cdp);
      off := NextOffset(page.data, off);
      if tupleMatch(r, query, tuple) {
        t := Some(tuple);
        break;
      }
    }
  }

  /** No bucket of the file strictly between lo and hi passes the bucket test. */
  predicate NoneQualifyBetween(r: Reln, known: Bits, unknown: Bits, lo: PageId, hi: PageId) {
    forall c :: lo < c < hi && c < r.npages ==> !Qualifies(c, known, unknown, r.depth)
  }

  /** The do-while probe of getNextTuple: starting after bucket from, step to
    * the next bucket that passes the bucket test, or past the last bucket. */
  method NextBucket(r: Reln, known: Bits, unknown: Bits, from: PageId) returns (b: PageId, found: bool)
    requires ValidReln(r)
    ensures from < b
    ensures NoneQualifyBetween(r, known, unknown, from, b)
    ensures found ==> b < r.npages && Qualifies(b, known, unknown, r.depth)
    ensures !found ==> b == if from < r.npages then r.npages else from + 1
    ensures found ==> QualifyingFrom(r, known, unknown, from + 1) == QualifyingFrom(r, known, unknown, b)
    ensures !found ==> QualifyingFrom(r, known, unknown, from + 1) == []
  {
    b := from;
    found := false;
    while true
      invariant from <= b && (b == from || b < r.npages)
      invariant forall c :: from < c <= b && c < r.npages ==> !Qualifies(c, known, unknown, r.depth)
      invariant QualifyingFrom(r, known, unknown, from + 1) == QualifyingFrom(r, known, unknown, b + 1)
      decreases r.npages - b
    {
      b := b + 1;
      if b >= r.npages {
        break;
      }
      if Qualifies(b, known, unknown, r.depth) {
        found := true;
        break;
      }
    }
  }

  class QueryRep {
    const rel: Reln
    /** The query string, kept for the final tupleMatch filter. */
    const query: Tuple
    /** The tuple filter of the tuple layer (tupleMatch). */
    const tupleMatch: (Reln, Tuple, Tuple) -> bool
    const known: Bits
    /** The hash bits the query leaves free (the complement of the given positions). */
    const unknown: Bits
    /** The page being read, a primary page or an overflow page. */
    var curpage: PageId
    /** The bucket (primary page id) being scanned. */
    var curdatapage: PageId
    var isOvflow: bool
    /** Offset of the next tuple within curpage's data area. */
    var nexttupOffset: nat
    /** A bound on the overflow pages still to come in the current bucket. */
    ghost var chainLeft: nat

    predicate PageExists()
      reads this`curpage, this`isOvflow
    {
      if isOvflow then curpage in rel.ovflowPages else curpage in rel.dataPages
    }

    /** getPage on the overflow file or on the data file, as isOvflow says. */
    function CurPage(): Page
      reads this`curpage, this`isOvflow
      requires PageExists()
    {
      if isOvflow then rel.ovflowPages[curpage] else rel.dataPages[curpage]
    }

    /** The cursor stands on the empty tuple that closes its page. */
    ghost predicate AtPageEnd()
      reads this
    {
      PageExists() && nexttupOffset < |CurPage().data| && CurPage().data[nexttupOffset] == 0
    }

    /** The scan has run off the last bucket: every further call returns NULL. */
    ghost predicate Exhausted()
      reads this
    {
      AtPageEnd() && CurPage().ovflow == NO_PAGE && rel.npages <= curdatapage
    }

    ghost predicate Valid()
      reads this
    {
      ValidReln(rel) &&
      PageExists() && TuplesFrom(CurPage().data, nexttupOffset) &&
      ChainEnds(rel.ovflowPages, CurPage().ovflow, chainLeft) &&
      ((curdatapage < rel.npages && (!isOvflow ==> curpage == curdatapage)) || Exhausted()) &&
      OnBucketChain()
    }

    /** Inside the file, an overflow page being read lies on the overflow
      * chain of bucket curdatapage, as many links in as the chain fuel spent
      * says; a primary page has the whole fuel still to spend. */
    ghost predicate OnBucketChain()
      reads this`curpage, this`curdatapage, this`isOvflow, this`chainLeft
      requires ValidReln(rel)
    {
      curdatapage < rel.npages ==>
        if isOvflow then
          chainLeft < |rel.ovflowPages| &&
          OnChain(rel.ovflowPages, rel.dataPages[curdatapage].ovflow, curpage, |rel.ovflowPages| - 1 - chainLeft)
        else chainLeft == |rel.ovflowPages|
    }

    /** The tuples the scan has still to read: the rest of the current page,
      * the rest of its overflow chain, then every later qualifying bucket. */
    ghost function Remaining(): seq<Tuple>
      reads this
      requires Valid()
    {
      ScanFrom(rel, known, unknown, CurPage(), nexttupOffset, chainLeft, curdatapage)
    }

    /** The tuples the scan has still to return, in order. */
    ghost function Pending(): seq<Tuple>
      reads this
      requires Valid()
    {
      Matching(tupleMatch, rel, query, Remaining())
    }

    /** startQuery: derive the known bits and the unknown mask from the
      * choice vector, and place the cursor on the first candidate bucket.
      * vals are the attribute values of q as the tuple layer splits them,
      * hash is hash_any. */
    constructor (r: Reln, q: Tuple, vals: seq<Tuple>, hash: Tuple -> Bits,
                 tupleMatch: (Reln, Tuple, Tuple) -> bool)
      requires ValidReln(r) && |vals| == r.nattrs
      ensures Valid()
      ensures rel == r && query == q && this.tupleMatch == tupleMatch
      ensures IsKnownBits(r, hash, vals, known) && IsUnknownMask(r, vals, unknown)
      ensures curdatapage == GetLower(known, r.depth) && curpage == curdatapage
      ensures nexttupOffset == 0 && !isOvflow
      ensures Pending() == Matching(tupleMatch, r, q, QualifyingFrom(r, known, unknown, 0))
    {
      var k, u := DeriveBits(r, vals, hash);
      FirstBucketScan(r, k, u);
      rel := r;
      query := q;
      this.tupleMatch := tupleMatch;
      known := k;
      unknown := u;
      curdatapage := GetLower(k, r.depth);
      curpage := curdatapage;
      nexttupOffset := 0;
      isOvflow := false;
      chainLeft := |r.ovflowPages|;
    }

    /** Read on in the current page (getNextTuple, the inner loop): step over
      * tuples until one passes tupleMatch, or the page's closing empty tuple. */
    method ScanPage() returns (t: Option<Tuple>)
      requires Valid()
      modifies this`nexttupOffset
      ensures Valid()
      ensures t.Some? ==> tupleMatch(rel, query, t.value) && EndsAt(CurPage().data, nexttupOffset, t.value)
      ensures t.Some? ==> old(Pending()) == [t.value] + Pending()
      ensures t.None? ==> AtPageEnd() && old(Pending()) == Pending()
    {
      var off;
      t, off := NextMatch(tupleMatch, rel, query, known, unknown, CurPage(), nexttupOffset, chainLeft, curdatapage);
      nexttupOffset := off;
    }

    /** Move to the overflow page of an exhausted page, if it has one. */
    method FollowOverflow() returns (moved: bool)
      requires Valid() && AtPageEnd()
      modifies this`curpage, this`isOvflow, this`nexttupOffset, this`chainLeft
      ensures Valid()
      ensures moved <==> old(CurPage().ovflow) != NO_PAGE
      ensures moved ==> isOvflow && curpage == old(CurPage().ovflow) && nexttupOffset == 0
      ensures moved ==> chainLeft < old(chainLeft)
      ensures !moved ==> unchanged(this)
      ensures old(Remaining()) == Remaining()
    {
      var link := CurPage().ovflow;
      if link != NO_PAGE {
        OverflowStep(rel, known, unknown, CurPage(), nexttupOffset, chainLeft, curdatapage);
        if isOvflow {
          OnChainExtend(rel.ovflowPages, rel.dataPages[curdatapage].ovflow, curpage, |rel.ovflowPages| - 1 - chainLeft);
        }
        isOvflow := true;
        curpage := link;
        nexttupOffset := 0;
        chainLeft := chainLeft - 1;
        moved := true;
      } else {
        moved := false;
      }
    }

    /** Place the cursor at the start of the primary page of bucket b. */
    method EnterPrimary(b: PageId)
      requires ValidReln(rel) && b < rel.npages && Qualifies(b, known, unknown, rel.depth)
      modifies this`curpage, this`curdatapage, this`isOvflow, this`nexttupOffset, this`chainLeft
      ensures curdatapage == b && curpage == b && !isOvflow && nexttupOffset == 0
      ensures Valid()
      ensures Remaining() == QualifyingFrom(rel, known, unknown, b)
    {
      curdatapage := b;
      curpage := b;
      isOvflow := false;
      nexttupOffset := 0;
      chainLeft := |rel.ovflowPages|;
      EnterBucket(rel, known, unknown, b);
    }

    /** The probe ran past the last bucket: only curdatapage moves, to b. */
    method RunPastEnd(b: PageId)
      requires Valid() && AtPageEnd() && CurPage().ovflow == NO_PAGE && rel.npages <= b
      modifies this`curdatapage
      ensures curdatapage == b && Valid() && Exhausted() && Remaining() == []
    {
      curdatapage := b;
      PastPageEnd(rel, known, unknown, CurPage(), nexttupOffset, chainLeft, b);
    }

    /** Move to the next bucket that passes the bucket test (the do-while
      * probe of getNextTuple), or report that there is none left. */
    method AdvanceBucket() returns (found: bool)
      requires Valid() && AtPageEnd() && CurPage().ovflow == NO_PAGE
      modifies this`curpage, this`curdatapage, this`isOvflow, this`nexttupOffset, this`chainLeft
      ensures Valid()
      ensures old(curdatapage) < curdatapage
      ensures NoneQualifyBetween(rel, known, unknown, old(curdatapage), curdatapage)
      ensures found ==> curdatapage < rel.npages && Qualifies(curdatapage, known, unknown, rel.depth)
      ensures found ==> curpage == curdatapage && !isOvflow && nexttupOffset == 0
      ensures !found ==> Exhausted() &&
                         curdatapage == if old(curdatapage) < rel.npages then rel.npages else old(curdatapage) + 1
      ensures !found ==> curpage == old(curpage) && isOvflow == old(isOvflow) &&
                         nexttupOffset == old(nexttupOffset)
      ensures Remaining() == QualifyingFrom(rel, known, unknown, old(curdatapage) + 1)
    {
      var b;
      b, found := NextBucket(rel, known, unknown, curdatapage);
      if found {
        EnterPrimary(b);
      } else {
        RunPastEnd(b);
      }
    }

    /** getNextTuple: the next tuple of the scan that passes tupleMatch, or
      * None once the qualifying buckets are used up. */
    method GetNextTuple() returns (t: Option<Tuple>)
      requires Valid()
      modifies this`curpage, this`curdatapage, this`isOvflow, this`nexttupOffset, this`chainLeft
      ensures Valid()
      ensures old(curdatapage) <= curdatapage
      ensures t.Some? ==> tupleMatch(rel, query, t.value) && EndsAt(CurPage().data, nexttupOffset, t.value)
      ensures t.Some? ==> old(Pending()) == [t.value] + Pending()
      ensures t.None? ==> old(Pending()) == [] && Exhausted()
      ensures old(Exhausted()) ==> t.None?
    {
      ExhaustedHasNothingPending();
      while true
        invariant Valid() && old(curdatapage) <= curdatapage
        invariant old(Pending()) == Pending()
        decreases rel.npages - curdatapage, chainLeft
      {
        t := ScanPage();
        if t.Some? {
          return;
        }
        var moved := FollowOverflow();
        if !moved {
          LeavingBucket();
          var found := AdvanceBucket();
          if !found {
            ExhaustedHasNothingPending();
            return;
          }
        }
      }
    }

    /** At the end of a bucket's last page the scan has nothing left but the
      * later qualifying buckets. */
    lemma LeavingBucket()
      requires Valid() && AtPageEnd() && CurPage().ovflow == NO_PAGE
      ensures Remaining() == QualifyingFrom(rel, known, unknown, curdatapage + 1)
    {
      PastPageEnd(rel, known, unknown, CurPage(), nexttupOffset, chainLeft, curdatapage);
    }

    lemma ExhaustedHasNothingPending()
      requires Valid()
      ensures Exhausted() ==> Pending() == []
    {
    }

    /** closeQuery: releasing the object is the only effect. */
    method Close()
      requires Valid()
      ensures unchanged(this)
    {
    }
  }
}
