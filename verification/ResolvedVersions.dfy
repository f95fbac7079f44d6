/**
  Which version of an object the resolver answers with (internal/services/btree_object_resolver.go): the records after
  the object map's header come first, then the tree, searched no further than the most recent snapshot.
 */
module ResolvedVersions {
  import opened Outcomes
  import opened ObjectMapTree
  import opened ObjectMapLookup
  import opened ObjectResolver

  // ---------------------------------------------------------------------------------------------------------------
  // The records after the header
  // ---------------------------------------------------------------------------------------------------------------

  /** The records before the all-zero key. */
  function Live(records: seq<Entry>): seq<Entry> {
    if records == [] || records[0].key == END_OF_RECORDS then [] else [records[0]] + Live(records[1..])
  }

  /** Records behind the first all-zero key are not live; without one, all are. */
  lemma {:induction false} LiveEndsAtZero(a: seq<Entry>, addr: nat, rest: seq<Entry>)
    requires forall e :: e in a ==> e.key != OmapKey(0, 0)
    ensures Live(a) == a && Live(a + [Entry(OmapKey(0, 0), addr)] + rest) == a
  {
    var all := a + [Entry(OmapKey(0, 0), addr)] + rest;
    if a != [] {
      LiveEndsAtZero(a[1..], addr, rest);
      assert all[1..] == a[1..] + [Entry(OmapKey(0, 0), addr)] + rest;
      assert all[0] == a[0] && a[0] in a;
    } else {
      assert all[0].key == OmapKey(0, 0);
    }
  }

  /** The first candidate, or the number of records. */
  function FirstMatch(es: seq<Entry>, asked: OmapKey): (i: nat)
    ensures i <= |es|
    ensures i < |es| ==> Candidate(es[i].key, asked)
    ensures forall j :: 0 <= j < i ==> !Candidate(es[j].key, asked)
  {
    if es == [] then 0 else if Candidate(es[0].key, asked) then 0 else 1 + FirstMatch(es[1..], asked)
  }

  lemma {:induction false} ManualIsFirst(records: seq<Entry>, asked: OmapKey)
    ensures var es := Live(records);
            var i := FirstMatch(es, asked);
            ManualResult(records, asked) == if i < |es| then Ok(es[i].addr) else Err
  {
    if records != [] && records[0].key != END_OF_RECORDS && !Candidate(records[0].key, asked) {
      ManualIsFirst(records[1..], asked);
      assert Live(records)[1..] == Live(records[1..]);
    }
  }

  /** A newer version is listed before every older one that precedes it. */
  ghost predicate NewestListedFirst(es: seq<Entry>) {
    forall i, j :: 0 <= i < j < |es| && es[i].key.oid == es[j].key.oid && es[i].key.xid < es[j].key.xid ==>
      exists h :: 0 <= h < i && es[h].key == es[j].key
  }

  /** The first match is the newest candidate. */
  ghost predicate FirstIsNewest(es: seq<Entry>, asked: OmapKey) {
    var i := FirstMatch(es, asked);
    i < |es| ==> IsNewest(es, asked, es[i])
  }

  lemma ListedFirstSuffices(es: seq<Entry>, asked: OmapKey)
    requires NewestListedFirst(es)
    ensures FirstIsNewest(es, asked)
  {
    var i := FirstMatch(es, asked);
    forall f | i < |es| && f in es && Candidate(f.key, asked)
      ensures f.key.xid <= es[i].key.xid
    {
      var j :| 0 <= j < |es| && es[j] == f;
      assert es[i].key.oid == es[j].key.oid && i <= j;
    }
  }

  /** Asking for the newer version exactly shows that it must be listed before the older one. */
  lemma ListedFirstNeeded(es: seq<Entry>, i: nat, j: nat)
    requires i < j < |es| && es[i].key.oid == es[j].key.oid && es[i].key.xid < es[j].key.xid
    requires FirstIsNewest(es, es[j].key)
    ensures exists h :: 0 <= h < i && es[h].key == es[j].key
  {
    var h := FirstMatch(es, es[j].key);
    assert Candidate(es[i].key, es[j].key) && Candidate(es[j].key, es[j].key);
    assert h <= i && es[j] in es;
    assert es[h].key == es[j].key;
  }

  /** The first match is the newest version for every question if and only if newer versions are listed first. */
  lemma FirstIsNewestIff(es: seq<Entry>)
    ensures (forall asked :: FirstIsNewest(es, asked)) <==> NewestListedFirst(es)
  {
    if NewestListedFirst(es) {
      forall asked
        ensures FirstIsNewest(es, asked)
      {
        ListedFirstSuffices(es, asked);
      }
    }
    if forall asked :: FirstIsNewest(es, asked) {
      forall i, j | 0 <= i < j < |es| && es[i].key.oid == es[j].key.oid && es[i].key.xid < es[j].key.xid
        ensures exists h :: 0 <= h < i && es[h].key == es[j].key
      {
        ListedFirstNeeded(es, i, j);
      }
    }
  }

  /** Version 5 is listed before version 9, and no tree follows: version 5 is the answer at transaction 10. */
  lemma FirstRecordWins(t: Tree)
    ensures var records := [Entry(OmapKey(1, 5), 100), Entry(OmapKey(1, 9), 200)];
            && IsNewest(Live(records), OmapKey(1, 10), records[1])
            && Uncached(Container(Some(1), Some(Omap(0, 0, records)), map[]), t, 1, 10) == Ok(100)
  {
    var records := [Entry(OmapKey(1, 5), 100), Entry(OmapKey(1, 9), 200)];
    assert records[1..] == [records[1]] && records[1..][1..] == [];
    assert Live(records) == records;
    assert Candidate(records[0].key, OmapKey(1, 10));
  }

  // ---------------------------------------------------------------------------------------------------------------
  // The tree
  // ---------------------------------------------------------------------------------------------------------------

  /** The resolver gets as far as the tree. */
  predicate AsksTree(c: Container, asked: OmapKey) {
    && c.superblock.Some? && c.superblock.value != 0 && c.omap.Some? && c.omap.value.treeOid != 0
    && !ManualResult(c.omap.value.records, asked).Ok?
  }

  /** The question put to the tree: at the most recent snapshot, if there is one that is not newer than asked. */
  function Capped(c: Container, asked: OmapKey): OmapKey
    requires c.omap.Some?
  {
    var snapshot := c.omap.value.mostRecentSnap;
    OmapKey(asked.oid, if 0 < snapshot <= asked.xid then snapshot else asked.xid)
  }

  ghost predicate Sorted(t: Tree) {
    WellFormed(t) && StrictlySorted(Entries(t))
  }

  /** The descent reaches a version: it is the one asked for, or not the last key of a child with a right sibling. */
  ghost predicate Reachable(t: Tree, asked: OmapKey, k: OmapKey) {
    k == asked || !EndsInnerChild(t, k)
  }

  lemma ResolvedIsLookup(c: Container, t: Tree, asked: OmapKey)
    requires AsksTree(c, asked)
    ensures Uncached(c, t, asked.oid, asked.xid) == Lookup(t, Capped(c, asked))
  {
    ManualIsFirst(c.omap.value.records, asked);
  }

  /**
    The exact answer from the tree. If the newest version is not cut off by the most recent snapshot, it is returned if
    it is reachable, and otherwise reported missing. If it is cut off, any answer is a strictly older version.
   */
  lemma ResolvedNewest(c: Container, t: Tree, asked: OmapKey, e: Entry)
    requires AsksTree(c, asked) && Sorted(t) && IsNewest(Entries(t), asked, e)
    ensures var r, snapshot := Uncached(c, t, asked.oid, asked.xid), c.omap.value.mostRecentSnap;
            var limit := if 0 < snapshot <= asked.xid then snapshot else asked.xid;
            if e.key.xid <= limit then
              r == if e.key.xid == limit || !EndsInnerChild(t, e.key) then Ok(e.addr) else Err
            else
              r.Ok? ==>
                exists f :: f in Entries(t) && Candidate(f.key, asked) && f.key.xid < e.key.xid && f.addr == r.value
  {
    var capped := Capped(c, asked);
    ResolvedIsLookup(c, t, asked);
    if e.key.xid <= capped.xid {
      LookupNewest(t, capped, e);
    } else {
      LookupSound(t, capped);
    }
  }

  /** A version stored at the most recent snapshot's own transaction is the answer from then on. */
  lemma SnapshotVersionIsFound(c: Container, t: Tree, oid: nat, xid: nat, e: Entry)
    requires AsksTree(c, OmapKey(oid, xid)) && Sorted(t) && e in Entries(t)
    requires 0 < c.omap.value.mostRecentSnap <= xid && e.key == OmapKey(oid, c.omap.value.mostRecentSnap)
    ensures Uncached(c, t, oid, xid) == Ok(e.addr)
  {
    ResolvedIsLookup(c, t, OmapKey(oid, xid));
    LookupExactKey(t, e);
  }

  /** Without a snapshot, or before it, a version stored at the transaction asked for is the answer. */
  lemma ExactVersionIsFound(c: Container, t: Tree, oid: nat, xid: nat, e: Entry)
    requires AsksTree(c, OmapKey(oid, xid)) && Sorted(t) && e in Entries(t)
    requires c.omap.value.mostRecentSnap == 0 || xid < c.omap.value.mostRecentSnap
    requires e.key == OmapKey(oid, xid)
    ensures Uncached(c, t, oid, xid) == Ok(e.addr)
  {
    ResolvedIsLookup(c, t, OmapKey(oid, xid));
    LookupExactKey(t, e);
  }

  /** The most recent snapshot is 6: version 9 is newest at transaction 10, and version 5 is the answer. */
  lemma SnapshotHidesNewest() returns (t: Tree)
    ensures Sorted(t) && IsNewest(Entries(t), OmapKey(1, 10), Entry(OmapKey(1, 9), 200))
    ensures Uncached(Container(Some(1), Some(Omap(2, 6, [])), map[]), t, 1, 10) == Ok(100)
  {
    var s1, s2 := Slot(Some(OmapKey(1, 5)), Some(100)), Slot(Some(OmapKey(1, 9)), Some(200));
    t := Leaf(Node(true, 2, Some([s1, s2])));
    assert SlotEntries([s2]) == [SlotEntry(s2)] + SlotEntries([]);
    assert [s1, s2][1..] == [s2];
    assert Entries(t) == [SlotEntry(s1), SlotEntry(s2)];
    var c := Container(Some(1), Some(Omap(2, 6, [])), map[]);
    ResolvedIsLookup(c, t, OmapKey(1, 10));
    LookupNewest(t, OmapKey(1, 6), SlotEntry(s1));
  }

  /**
    An object resolved at transaction x gets the same answer at y if and only if the newest versions not above the two
    are at one address and the one for y is reachable.
   */
  lemma SameAnswerIff(c: Container, t: Tree, oid: nat, x: nat, y: nat, e: Entry, f: Entry)
    requires AsksTree(c, OmapKey(oid, x)) && AsksTree(c, OmapKey(oid, y)) && Sorted(t)
    requires IsNewest(Entries(t), Capped(c, OmapKey(oid, x)), e) && IsNewest(Entries(t), Capped(c, OmapKey(oid, y)), f)
    requires Uncached(c, t, oid, x).Ok?
    ensures Uncached(c, t, oid, x) == Ok(e.addr)
    ensures Uncached(c, t, oid, y) == if Reachable(t, Capped(c, OmapKey(oid, y)), f.key) then Ok(f.addr) else Err
    ensures Uncached(c, t, oid, y) == Uncached(c, t, oid, x) <==>
              f.addr == e.addr && Reachable(t, Capped(c, OmapKey(oid, y)), f.key)
  {
    ResolvedIsLookup(c, t, OmapKey(oid, x));
    ResolvedIsLookup(c, t, OmapKey(oid, y));
    LookupNewest(t, Capped(c, OmapKey(oid, x)), e);
    LookupNewest(t, Capped(c, OmapKey(oid, y)), f);
  }

  /** Without any version to answer with, the object is reported missing. */
  lemma ResolvedAbsent(c: Container, t: Tree, asked: OmapKey)
    requires AsksTree(c, asked) && Sorted(t)
    requires forall e :: e in Entries(t) ==> !Candidate(e.key, Capped(c, asked))
    ensures Uncached(c, t, asked.oid, asked.xid) == Err
  {
    ResolvedIsLookup(c, t, asked);
    LookupAbsent(t, Capped(c, asked));
  }

  // ---------------------------------------------------------------------------------------------------------------
  // Records and tree together
  // ---------------------------------------------------------------------------------------------------------------

  /**
    A matching record is the answer whatever the tree holds. It is the newest version of all if and only if it is the
    newest among the records and the tree holds none newer.
   */
  lemma RecordAnswersNewestIff(c: Container, t: Tree, asked: OmapKey)
    requires c.superblock.Some? && c.superblock.value != 0 && c.omap.Some?
    requires FirstMatch(Live(c.omap.value.records), asked) < |Live(c.omap.value.records)|
    ensures var es := Live(c.omap.value.records);
            var answer := es[FirstMatch(es, asked)];
            && Uncached(c, t, asked.oid, asked.xid) == Ok(answer.addr)
            && (IsNewest(es + Entries(t), asked, answer) <==>
                  && FirstIsNewest(es, asked)
                  && forall e :: e in Entries(t) && Candidate(e.key, asked) ==> e.key.xid <= answer.key.xid)
  {
    var es := Live(c.omap.value.records);
    ManualIsFirst(c.omap.value.records, asked);
    var answer := es[FirstMatch(es, asked)];
    assert forall e :: e in es + Entries(t) <==> e in es || e in Entries(t);
    assert OmapKey(asked.oid, asked.xid) == asked;
  }

  /** Version 5 is a record and version 9 is in the tree: version 5 is the answer at transaction 10. */
  lemma RecordHidesTree() returns (t: Tree)
    ensures Sorted(t) && IsNewest(Entries(t), OmapKey(1, 10), Entry(OmapKey(1, 9), 200))
    ensures Uncached(Container(Some(1), Some(Omap(2, 0, [Entry(OmapKey(1, 5), 100)])), map[]), t, 1, 10) == Ok(100)
  {
    t := SnapshotHidesNewest();
    var c := Container(Some(1), Some(Omap(2, 0, [Entry(OmapKey(1, 5), 100)])), map[]);
    assert Live(c.omap.value.records) == [Entry(OmapKey(1, 5), 100)];
    RecordAnswersNewestIff(c, t, OmapKey(1, 10));
  }

  /** An answer needs a superblock with an object map, that can be read, and a matching record or a tree. */
  lemma ResolvedNeeds(c: Container, t: Tree, oid: nat, xid: nat)
    requires Uncached(c, t, oid, xid).Ok?
    ensures c.superblock.Some? && c.superblock.value != 0 && c.omap.Some?
    ensures c.omap.value.treeOid != 0 || ManualResult(c.omap.value.records, OmapKey(oid, xid)).Ok?
  {}
}
