/** The relation as the query scan reads it: a read-only snapshot of the
  * file's metadata (depth, page count, arity, choice vector) and of its data
  * and overflow pages. */
module Reln {
  import opened Bits
  import opened Page

  /** One choice-vector entry: hash bit i of a tuple is bit `bit` of the hash
    * of attribute `att`. */
  datatype ChVecItem = ChVecItem(att: nat, bit: nat)

  /** dataPages holds the primary page of every bucket 0 .. npages-1;
    * ovflowPages holds the overflow pages, keyed by their own page ids. */
  datatype Reln = Reln(
    depth: nat,
    npages: nat,
    nattrs: nat,
    chvec: seq<ChVecItem>,
    dataPages: map<PageId, Page>,
    ovflowPages: map<PageId, Page>)

  /** What the relation layer maintains: a linear-hashed file with
    * npages = 2^depth + sp (split pointer sp < 2^depth), a choice vector of
    * MAXCHVEC valid entries, a primary page for every bucket, well-formed
    * page areas, and overflow chains that end (no cycles). */
  ghost predicate ValidReln(r: Reln) {
    Pow2(r.depth) <= r.npages < Pow2(r.depth + 1) &&
    |r.chvec| == MAXCHVEC &&
    (forall i :: 0 <= i < |r.chvec| ==> r.chvec[i].att < r.nattrs && r.chvec[i].bit < MAXCHVEC) &&
    (forall p: PageId :: p < r.npages ==> p in r.dataPages) &&
    PagesWellFormed(r.dataPages) && PagesWellFormed(r.ovflowPages) &&
    (forall p :: p in r.dataPages ==> ChainEnds(r.ovflowPages, r.dataPages[p].ovflow, |r.ovflowPages|))
  }

  /** Split pointer: the buckets below it have been split and use depth+1 bits. */
  function SplitPoint(r: Reln): nat
    requires ValidReln(r)
  {
    r.npages - Pow2(r.depth)
  }

  /** Bits 0 .. n-1 of the multi-attribute hash of a tuple whose attribute values
    * are vals: bit i is bit chvec[i].bit of the hash of attribute chvec[i].att. */
  function ChoiceHash(r: Reln, hash: Tuple -> Bits, vals: seq<Tuple>, n: nat): (h: Bits)
    requires ValidReln(r) && |vals| == r.nattrs && n <= MAXCHVEC
    ensures forall i: nat :: BitIsSet(h, i) <==>
      i < n && BitIsSet(hash(vals[r.chvec[i].att]), r.chvec[i].bit)
    ensures h < Pow2(n)
  {
    if n == 0 then ZeroHasNoBits(); 0
    else
      var h := ChoiceHash(r, hash, vals, n - 1);
      var item := r.chvec[n - 1];
      var h' := if BitIsSet(hash(vals[item.att]), item.bit) then SetBit(h, n - 1) else h;
      BitsBelow(h', n);
      h'
  }

  /** The bucket linear hashing stores a tuple with hash h in: its low depth
    * bits, or its low depth+1 bits when the depth-bit bucket has been split. */
  function LinearAddress(r: Reln, h: Bits): (p: PageId)
    requires ValidReln(r)
    ensures p < r.npages
    ensures p == GetLower(h, r.depth) || p == GetLower(h, r.depth + 1)
  {
    var p := GetLower(h, r.depth);
    GetLowerStep(h, r.depth);
    if p < SplitPoint(r) then GetLower(h, r.depth + 1) else p
  }
}
