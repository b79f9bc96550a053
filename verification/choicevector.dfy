/** The choice-vector interpreter: which hash bits a partially specified query
  * fixes ("known") and which it leaves free ("unknown"). */
module ChoiceVector {
  import opened Bits
  import opened Page
  import opened Reln

  /** The attribute value "?" that leaves an attribute unspecified. */
  const WILDCARD: Tuple := [63]

  /** The attribute that hash bit i is drawn from is given in the query. */
  predicate Specified(r: Reln, vals: seq<Tuple>, i: nat)
    requires ValidReln(r) && |vals| == r.nattrs && i < MAXCHVEC
  {
    vals[r.chvec[i].att] != WILDCARD
  }

  /** The chosen bit of the hash of the attribute that hash bit i is drawn from. */
  predicate HashBit(r: Reln, hash: Tuple -> Bits, vals: seq<Tuple>, i: nat)
    requires ValidReln(r) && |vals| == r.nattrs && i < MAXCHVEC
  {
    BitIsSet(hash(vals[r.chvec[i].att]), r.chvec[i].bit)
  }

  /** u is the unknown mask of the query vals: bit i is set exactly when the
    * attribute hash bit i is drawn from is "?". */
  ghost predicate IsUnknownMask(r: Reln, vals: seq<Tuple>, u: Bits)
    requires ValidReln(r) && |vals| == r.nattrs
  {
    forall i: nat :: BitIsSet(u, i) <==> i < MAXCHVEC && !Specified(r, vals, i)
  }

  /** k is the known-bit pattern of the query vals: bit i is set exactly when
    * its attribute is given and the chosen bit of that attribute's hash is set. */
  ghost predicate IsKnownBits(r: Reln, hash: Tuple -> Bits, vals: seq<Tuple>, k: Bits)
    requires ValidReln(r) && |vals| == r.nattrs
  {
    forall i: nat :: BitIsSet(k, i) <==> i < MAXCHVEC && Specified(r, vals, i) && HashBit(r, hash, vals, i)
  }

  /** Known bits only sit where the mask says the attribute is given. */
  lemma KnownUnknownDisjoint(r: Reln, hash: Tuple -> Bits, vals: seq<Tuple>, k: Bits, u: Bits)
    requires ValidReln(r) && |vals| == r.nattrs
    requires IsKnownBits(r, hash, vals, k) && IsUnknownMask(r, vals, u)
    ensures And(k, u) == 0
  {
    ZeroHasNoBits();
    BitsEqual(And(k, u), 0);
  }

  /** The derived patterns depend on the query only: a query has one known
    * pattern and one unknown mask. */
  lemma DerivedBitsUnique(r: Reln, hash: Tuple -> Bits, vals: seq<Tuple>, k1: Bits, u1: Bits, k2: Bits, u2: Bits)
    requires ValidReln(r) && |vals| == r.nattrs
    requires IsKnownBits(r, hash, vals, k1) && IsUnknownMask(r, vals, u1)
    requires IsKnownBits(r, hash, vals, k2) && IsUnknownMask(r, vals, u2)
    ensures k1 == k2 && u1 == u2
  {
    BitsEqual(k1, k2);
    BitsEqual(u1, u2);
  }

  /** The known bits are the query's own multi-attribute hash restricted to
    * the positions whose attribute is given. */
  lemma KnownIsMaskedHash(r: Reln, hash: Tuple -> Bits, vals: seq<Tuple>, k: Bits, u: Bits)
    requires ValidReln(r) && |vals| == r.nattrs
    requires IsKnownBits(r, hash, vals, k) && IsUnknownMask(r, vals, u)
    ensures k == And(ChoiceHash(r, hash, vals, MAXCHVEC), Complement(u, MAXCHVEC))
  {
    BitsEqual(k, And(ChoiceHash(r, hash, vals, MAXCHVEC), Complement(u, MAXCHVEC)));
  }

  /** A tuple whose attribute values tv equal the query's at every given
    * attribute has a hash that agrees with the known bits on every known position. */
  lemma AgreeingTupleHash(r: Reln, hash: Tuple -> Bits, vals: seq<Tuple>, tv: seq<Tuple>, k: Bits, u: Bits)
    requires ValidReln(r) && |vals| == r.nattrs && |tv| == r.nattrs
    requires IsKnownBits(r, hash, vals, k) && IsUnknownMask(r, vals, u)
    requires forall a :: 0 <= a < r.nattrs && vals[a] != WILDCARD ==> tv[a] == vals[a]
    ensures And(ChoiceHash(r, hash, tv, MAXCHVEC), Complement(u, MAXCHVEC)) == k
  {
    var h := ChoiceHash(r, hash, tv, MAXCHVEC);
    forall i: nat
      ensures BitIsSet(And(h, Complement(u, MAXCHVEC)), i) <==> BitIsSet(k, i)
    {
      if i < MAXCHVEC && Specified(r, vals, i) {
        assert tv[r.chvec[i].att] == vals[r.chvec[i].att];
      }
    }
    BitsEqual(And(h, Complement(u, MAXCHVEC)), k);
  }

  /** Replacing one attribute of the query by "?" only frees bits: the new
    * unknown mask contains the old one and the new known bits are the old
    * ones outside the new mask. */
  lemma WildcardFreesBits(r: Reln, hash: Tuple -> Bits, vals: seq<Tuple>, a: nat,
                          k1: Bits, u1: Bits, k2: Bits, u2: Bits)
    requires ValidReln(r) && |vals| == r.nattrs && a < r.nattrs
    requires IsKnownBits(r, hash, vals, k1) && IsUnknownMask(r, vals, u1)
    requires IsKnownBits(r, hash, vals[a := WILDCARD], k2) && IsUnknownMask(r, vals[a := WILDCARD], u2)
    ensures And(u1, Complement(u2, MAXCHVEC)) == 0
    ensures k2 == And(k1, Complement(u2, MAXCHVEC))
  {
    var vals2 := vals[a := WILDCARD];
    forall i: nat | i < MAXCHVEC
      ensures Specified(r, vals2, i) <==> Specified(r, vals, i) && r.chvec[i].att != a
      ensures Specified(r, vals2, i) ==> HashBit(r, hash, vals2, i) == HashBit(r, hash, vals, i)
    {
    }
    ZeroHasNoBits();
    BitsEqual(And(u1, Complement(u2, MAXCHVEC)), 0);
    BitsEqual(k2, And(k1, Complement(u2, MAXCHVEC)));
  }

  /** With every attribute "?", no hash bit is known and every bit is free. */
  lemma AllWildcardBits(r: Reln, hash: Tuple -> Bits, vals: seq<Tuple>, k: Bits, u: Bits)
    requires ValidReln(r) && |vals| == r.nattrs
    requires forall a :: 0 <= a < |vals| ==> vals[a] == WILDCARD
    requires IsKnownBits(r, hash, vals, k) && IsUnknownMask(r, vals, u)
    ensures k == 0 && Complement(u, MAXCHVEC) == 0
  {
    ZeroHasNoBits();
    BitsEqual(k, 0);
    BitsEqual(Complement(u, MAXCHVEC), 0);
  }

  /** The pattern startQuery accumulates before complementing it: `start`
    * with bit i set for every position i < n whose attribute is given. */
  function MarkSpecified(r: Reln, vals: seq<Tuple>, start: Bits, n: nat): (m: Bits)
    requires ValidReln(r) && |vals| == r.nattrs && n <= MAXCHVEC
    ensures forall i: nat :: BitIsSet(m, i) <==> BitIsSet(start, i) || (i < n && Specified(r, vals, i))
  {
    if n == 0 then start
    else
      var m := MarkSpecified(r, vals, start, n - 1);
      if Specified(r, vals, n - 1) then SetBit(m, n - 1) else m
  }

  /** The unknown field as startQuery leaves it when the field held `start`
    * before the loop: the C never clears it, so `start` is whatever the
    * freshly allocated QueryRep happened to contain. */
  function UnknownAsWritten(r: Reln, vals: seq<Tuple>, start: Bits): (u: Bits)
    requires ValidReln(r) && |vals| == r.nattrs
    ensures forall i: nat :: BitIsSet(u, i) <==>
      i < MAXCHVEC && !BitIsSet(start, i) && !Specified(r, vals, i)
  {
    Complement(MarkSpecified(r, vals, start, MAXCHVEC), MAXCHVEC)
  }

  /** From a cleared field the computation yields the unknown mask. */
  lemma ClearedStartGivesMask(r: Reln, vals: seq<Tuple>)
    requires ValidReln(r) && |vals| == r.nattrs
    ensures IsUnknownMask(r, vals, UnknownAsWritten(r, vals, 0))
  {
    ZeroHasNoBits();
  }

  /** From a field with a stray bit 0 a wildcarded position is reported as
    * known: the mask loses a free bit. */
  lemma StrayStartLosesWildcard(r: Reln, vals: seq<Tuple>)
    requires ValidReln(r) && |vals| == r.nattrs
    requires !Specified(r, vals, 0)
    ensures !BitIsSet(UnknownAsWritten(r, vals, 1), 0)
    ensures !IsUnknownMask(r, vals, UnknownAsWritten(r, vals, 1))
  {
  }
}
