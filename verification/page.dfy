/** Pages of a relation as the query scan sees them: a byte area holding
  * tuples back to back, each terminated by a null byte, the area ending with
  * an empty tuple; and the id of the page's overflow page, or NO_PAGE. */
module Page {

  type byte = x: int | 0 <= x < 256

  /** A tuple as stored in a page: its attribute values as text, comma separated. */
  type Tuple = seq<byte>

  type PageId = nat

  /** The page id that marks the end of an overflow chain. */
  const NO_PAGE: PageId := 0xFFFF_FFFF

  datatype Page = Page(data: seq<byte>, ovflow: PageId)

  /** The tuple stored at offset o: the bytes from o up to the next null
    * byte (or to the end of the area). Its length is tupLength. */
  function TupleAt(data: seq<byte>, o: nat): (t: Tuple)
    requires o <= |data|
    ensures o + |t| <= |data|
    ensures o + |t| < |data| ==> data[o + |t|] == 0
    ensures o < |data| && data[o] != 0 ==> t != []
    decreases |data| - o
  {
    if o == |data| || data[o] == 0 then [] else [data[o]] + TupleAt(data, o + 1)
  }

  /** The tuple at o is the slice of the area up to its terminator, and
    * holds no null byte. */
  lemma {:induction false} TupleBytes(data: seq<byte>, o: nat)
    requires o <= |data|
    ensures TupleAt(data, o) == data[o .. o + |TupleAt(data, o)|]
    ensures 0 !in TupleAt(data, o)
    decreases |data| - o
  {
    if o < |data| && data[o] != 0 {
      TupleBytes(data, o + 1);
    }
  }

  /** The offset of the tuple after the one at o: past its terminator. */
  function NextOffset(data: seq<byte>, o: nat): nat
    requires o <= |data|
  {
    o + |TupleAt(data, o)| + 1
  }

  /** From offset o on, data holds null-terminated tuples back to back,
    * closed by an empty tuple. Offsets that satisfy this are tuple boundaries. */
  predicate TuplesFrom(data: seq<byte>, o: nat)
    decreases |data| - o
  {
    o < |data| &&
    (data[o] == 0 || (NextOffset(data, o) <= |data| && TuplesFrom(data, NextOffset(data, o))))
  }

  /** The tuples stored from boundary o to the end of the area. */
  function PageTuples(data: seq<byte>, o: nat): (ts: seq<Tuple>)
    requires TuplesFrom(data, o)
    ensures data[o] == 0 <==> ts == []
    decreases |data| - o
  {
    if data[o] == 0 then []
    else [TupleAt(data, o)] + PageTuples(data, NextOffset(data, o))
  }

  /** Every tuple read from a page is non-empty and holds no null byte. */
  lemma {:induction false} PageTuplesAreText(data: seq<byte>, o: nat, t: Tuple)
    requires TuplesFrom(data, o) && t in PageTuples(data, o)
    ensures t != [] && 0 !in t
    decreases |data| - o
  {
    if t == TupleAt(data, o) {
      TupleBytes(data, o);
    } else {
      PageTuplesAreText(data, NextOffset(data, o), t);
    }
  }

  /** Following overflow links from p reaches NO_PAGE within fuel steps,
    * passing only through pages of ovflow. */
  predicate ChainEnds(ovflow: map<PageId, Page>, p: PageId, fuel: nat)
    decreases fuel
  {
    p == NO_PAGE || (fuel > 0 && p in ovflow && ChainEnds(ovflow, ovflow[p].ovflow, fuel - 1))
  }

  /** Page p is reached from page `from` by following exactly `steps`
    * overflow links, every page on the way being a page of ovflow. */
  ghost predicate OnChain(ovflow: map<PageId, Page>, from: PageId, p: PageId, steps: nat)
    decreases steps
  {
    from in ovflow && (if steps == 0 then from == p else OnChain(ovflow, ovflow[from].ovflow, p, steps - 1))
  }

  /** Following the link of a page on the chain reaches the next page of it. */
  lemma {:induction false} OnChainExtend(ovflow: map<PageId, Page>, from: PageId, p: PageId, steps: nat)
    requires OnChain(ovflow, from, p, steps) && p in ovflow && ovflow[p].ovflow in ovflow
    ensures OnChain(ovflow, from, ovflow[p].ovflow, steps + 1)
    decreases steps
  {
    if steps > 0 {
      OnChainExtend(ovflow, ovflow[from].ovflow, p, steps - 1);
    }
  }

  predicate PagesWellFormed(pages: map<PageId, Page>) {
    forall p :: p in pages ==> TuplesFrom(pages[p].data, 0)
  }

  /** The tuples of the overflow chain starting at p, page after page. */
  function ChainTuples(ovflow: map<PageId, Page>, p: PageId, fuel: nat): (ts: seq<Tuple>)
    requires PagesWellFormed(ovflow) && ChainEnds(ovflow, p, fuel)
    decreases fuel
  {
    if p == NO_PAGE then []
    else PageTuples(ovflow[p].data, 0) + ChainTuples(ovflow, ovflow[p].ovflow, fuel - 1)
  }
}
