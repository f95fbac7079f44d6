/** Resolution of virtual object identifiers, with its memo table (internal/services/btree_object_resolver.go). */
module ObjectResolver {
  import opened Outcomes
  import opened ObjectMapTree

  // ---------------------------------------------------------------------------------------------------------------
  // The memo key: "oid-xid" in decimal
  // ---------------------------------------------------------------------------------------------------------------

  const DIGITS := "0123456789"

  function Decimal(n: nat): (s: string)
    ensures |s| > 0 && '-' !in s
  {
    if n < 10 then [DIGITS[n]] else Decimal(n / 10) + [DIGITS[n % 10]]
  }

  function MakeCacheKey(oid: nat, xid: nat): string {
    Decimal(oid) + "-" + Decimal(xid)
  }

  lemma {:induction false} DecimalInjective(a: nat, b: nat)
    requires Decimal(a) == Decimal(b)
    ensures a == b
  {
    var s, t := Decimal(a), Decimal(b);
    assert s[|s| - 1] == DIGITS[a % 10] && t[|t| - 1] == DIGITS[b % 10];
    if a >= 10 && b >= 10 {
      assert Decimal(a / 10) == s[..|s| - 1] && Decimal(b / 10) == t[..|t| - 1];
      DecimalInjective(a / 10, b / 10);
    }
  }

  /** Distinct questions have distinct memo keys. */
  lemma CacheKeyInjective(oid1: nat, xid1: nat, oid2: nat, xid2: nat)
    requires MakeCacheKey(oid1, xid1) == MakeCacheKey(oid2, xid2)
    ensures oid1 == oid2 && xid1 == xid2
  {
    var k := MakeCacheKey(oid1, xid1);
    var d1, d2 := Decimal(oid1), Decimal(oid2);
    assert k[|d1|] == '-' && k[|d2|] == '-';
    assert forall i :: 0 <= i < |d1| ==> k[i] == d1[i] != '-';
    assert forall i :: 0 <= i < |d2| ==> k[i] == d2[i] != '-';
    assert |d1| == |d2|;
    assert d1 == k[..|d1|] == d2;
    assert Decimal(xid1) == k[|d1| + 1..] == Decimal(xid2);
    DecimalInjective(oid1, oid2);
    DecimalInjective(xid1, xid2);
  }

  // ---------------------------------------------------------------------------------------------------------------
  // Resolution without the memo
  // ---------------------------------------------------------------------------------------------------------------

  /** An object map: its tree (0 for none), its most recent snapshot (0 for none), and the records after its header. */
  datatype Omap = Omap(treeOid: nat, mostRecentSnap: nat, records: seq<Entry>)

  /**
    What the resolver reads of a container. `superblock` is the object map's block number, None without a superblock;
    `omap` is None if that block cannot be read or parsed; `nodes` are the blocks that hold B-tree nodes.
   */
  datatype Container = Container(superblock: Option<nat>, omap: Option<Omap>, nodes: map<nat, Node>)

  const END_OF_RECORDS := OmapKey(0, 0)

  /** The first record, before an all-zero key, that is a version of the object not newer than asked. */
  function ManualResult(records: seq<Entry>, asked: OmapKey): Outcome<nat> {
    if records == [] || records[0].key == END_OF_RECORDS then Err
    else if Candidate(records[0].key, asked) then Ok(records[0].addr)
    else ManualResult(records[1..], asked)
  }

  /** The version searched for in the tree: capped by the most recent snapshot, if there is one that old. */
  function SearchXid(omap: Omap, xid: nat): nat {
    if omap.mostRecentSnap > 0 && omap.mostRecentSnap <= xid then omap.mostRecentSnap else xid
  }

  /** The answer with no memo; `t` is the tree stored at the object map's tree block. */
  function Uncached(c: Container, t: Tree, oid: nat, xid: nat): Outcome<nat> {
    if c.superblock.None? || c.superblock.value == 0 || c.omap.None? then Err
    else
      var omap := c.omap.value;
      var manual := ManualResult(omap.records, OmapKey(oid, xid));
      if omap.treeOid == 0 || manual.Ok? then manual
      else Lookup(t, OmapKey(oid, SearchXid(omap, xid)))
  }

  class BTreeObjectResolver {
    const container: Container
    ghost const tree: Tree
    var oIDCache: map<string, nat>

    /** The tree is finite, and every memo entry is the uncached answer to the question its key spells. */
    ghost predicate Valid()
      reads this
    {
      && (container.omap.Some? ==> Stored(container.nodes, container.omap.value.treeOid, tree))
      && forall oid, xid :: MakeCacheKey(oid, xid) in oIDCache ==>
           Uncached(container, tree, oid, xid) == Ok(oIDCache[MakeCacheKey(oid, xid)])
    }

    constructor (container: Container, ghost tree: Tree)
      requires container.omap.Some? ==> Stored(container.nodes, container.omap.value.treeOid, tree)
      ensures Valid() && oIDCache == map[] && this.container == container && this.tree == tree
    {
      this.container, this.tree, oIDCache := container, tree, map[];
    }

    /** The memo is transparent: whatever was asked before, the answer is the uncached one. */
    method ResolveVirtualObject(oid: nat, xid: nat) returns (r: Outcome<nat>)
      requires Valid()
      modifies this
      ensures Valid()
      ensures r == Uncached(container, tree, oid, xid)
      ensures oIDCache == if r.Ok? then old(oIDCache)[MakeCacheKey(oid, xid) := r.value] else old(oIDCache)
    {
      var cacheKey := MakeCacheKey(oid, xid);
      if cacheKey in oIDCache {
        assert old(oIDCache)[cacheKey := oIDCache[cacheKey]] == oIDCache;
        return Ok(oIDCache[cacheKey]);
      }
      if container.superblock.None? || container.superblock.value == 0 || container.omap.None? {
        return Err;
      }
      var omap := container.omap.value;
      r := SearchManually(omap.records, OmapKey(oid, xid));
      if omap.treeOid != 0 && !r.Ok? {
        r := SearchChildNode(container.nodes, omap.treeOid, OmapKey(oid, SearchXid(omap, xid)), tree);
      }
      if r.Ok? {
        Remember(oid, xid, r.value);
      }
    }

    method Remember(oid: nat, xid: nat, addr: nat)
      requires Valid() && Uncached(container, tree, oid, xid) == Ok(addr)
      modifies this
      ensures Valid() && oIDCache == old(oIDCache)[MakeCacheKey(oid, xid) := addr]
    {
      forall o, x | MakeCacheKey(o, x) == MakeCacheKey(oid, xid)
        ensures o == oid && x == xid
      {
        CacheKeyInjective(o, x, oid, xid);
      }
      oIDCache := oIDCache[MakeCacheKey(oid, xid) := addr];
    }

    method ClearCache()
      requires Valid()
      modifies this
      ensures Valid() && oIDCache == map[]
    {
      oIDCache := map[];
    }
  }

  /** Linear search of the records after the object map's header. */
  method SearchManually(records: seq<Entry>, asked: OmapKey) returns (r: Outcome<nat>)
    ensures r == ManualResult(records, asked)
  {
    var i := 0;
    while i < |records|
      invariant i <= |records|
      invariant ManualResult(records[i..], asked) == ManualResult(records, asked)
    {
      var key := records[i].key;
      if key.oid == 0 && key.xid == 0 {
        break;
      }
      if key.oid == asked.oid && key.xid <= asked.xid {
        return Ok(records[i].addr);
      }
      assert records[i..][1..] == records[i + 1..];
      i := i + 1;
    }
    r := Err;
  }
}
