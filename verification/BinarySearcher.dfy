/**
  Binary search inside one B-tree node (internal/parsers/btrees/btree_binary_searcher.go).

  The variable-size searches are modelled: their keys keep the 16 bytes a composite key needs. A search stops with an
  error when an entry it probes does not exist or its key is too short for it.
 */
module BinarySearcher {
  import opened Outcomes
  import opened ObjectMapTree
  import opened ObjectMapLookup

  /** The key of an entry: below 8 bytes or outside the node, below 16 bytes, or whole. */
  datatype SearchKey = NoKey | OidOnly(oid: nat) | WholeKey(key: OmapKey)

  /** `keys` is None when the table offset lies outside the node; it may hold fewer keys than `keyCount`. */
  datatype SearchNode = SearchNode(keyCount: nat, keys: Option<seq<SearchKey>>)
  {
    ghost predicate Decoded() {
      keys.Some? ==> |keys.value| <= keyCount
    }

    /** Every entry counted is there. */
    ghost predicate Whole() {
      keys.Some? && |keys.value| == keyCount
    }
  }

  /** The first 8 bytes of a key. */
  function OidOf(k: SearchKey): Option<nat> {
    match k
    case NoKey => None
    case OidOnly(oid) => Some(oid)
    case WholeKey(key) => Some(key.oid)
  }

  predicate IsCandidate(k: SearchKey, asked: OmapKey) {
    k.WholeKey? && Candidate(k.key, asked)
  }

  ghost predicate KeysIncrease(n: SearchNode) {
    && n.Whole() && (forall i :: 0 <= i < n.keyCount ==> n.keys.value[i].WholeKey?)
    && forall i, j :: 0 <= i < j < n.keyCount ==> Before(n.keys.value[i].key, n.keys.value[j].key)
  }

  ghost predicate OidsSorted(n: SearchNode) {
    && n.Whole() && (forall i :: 0 <= i < n.keyCount ==> OidOf(n.keys.value[i]).Some?)
    && forall i, j :: 0 <= i < j < n.keyCount ==> OidOf(n.keys.value[i]).value <= OidOf(n.keys.value[j]).value
  }

  /** `r` is the index of the last candidate, or an error when there is none. */
  ghost predicate IsLastCandidate(n: SearchNode, asked: OmapKey, r: Outcome<nat>)
    requires n.Whole()
  {
    && !r.Panic?
    && (r.Ok? ==> r.value < n.keyCount && IsCandidate(n.keys.value[r.value], asked))
    && forall i :: 0 <= i < n.keyCount && (r.Ok? ==> r.value < i) ==> !IsCandidate(n.keys.value[i], asked)
  }

  /** Composite search: the last key that is a version of `asked.oid` not above `asked.xid`. */
  method SearchComposite(n: SearchNode, asked: OmapKey) returns (r: Outcome<nat>)
    requires n.Decoded()
    ensures !r.Panic?
    ensures r.Ok? ==> n.keys.Some? && r.value < |n.keys.value| && IsCandidate(n.keys.value[r.value], asked)
    ensures KeysIncrease(n) ==> IsLastCandidate(n, asked, r)
  {
    if n.keyCount == 0 || n.keys.None? {
      return Err;
    }
    var keys := n.keys.value;
    var low, high := 0, n.keyCount - 1;
    var bestMatch: Outcome<nat> := Err;
    while low <= high
      invariant 0 <= low <= high + 1 <= n.keyCount
      invariant !bestMatch.Panic?
      invariant bestMatch.Ok? ==> bestMatch.value < low && bestMatch.value < |keys|
                                  && IsCandidate(keys[bestMatch.value], asked)
      invariant KeysIncrease(n) ==>
                  && (forall i :: 0 <= i < low && (bestMatch.Ok? ==> bestMatch.value < i) ==>
                        !IsCandidate(keys[i], asked))
                  && (forall i :: high < i < n.keyCount ==> Before(asked, keys[i].key))
      decreases high - low
    {
      var mid := (low + high) / 2;
      if mid >= |keys| || !keys[mid].WholeKey? {
        return Err;
      }
      var key := keys[mid].key;
      if key.oid < asked.oid {
        low := mid + 1;
      } else if key.oid > asked.oid {
        high := mid - 1;
      } else if key.xid <= asked.xid {
        bestMatch := Ok(mid);
        low := mid + 1;
      } else {
        high := mid - 1;
      }
    }
    r := bestMatch;
  }

  /** The two searches see the same keys; they decode values separately. */
  ghost predicate SameKeys(n: SearchNode, node: Node) {
    && n.Whole() && FullToc(node) && n.keyCount == node.keyCount
    && forall i :: 0 <= i < n.keyCount ==> n.keys.value[i] == WholeKey(node.toc.value[i].key.value)
  }

  /**
    On a strictly sorted leaf the composite binary search and the linear scan agree on the entry: the scan answers with
    the address of the entry found, or both find none.
   */
  lemma CompositeAgreesWithScan(n: SearchNode, node: Node, asked: OmapKey, found: Outcome<nat>)
    requires SameKeys(n, node) && KeysIncrease(n) && IsLastCandidate(n, asked, found)
    ensures LeafResult(node, asked) == if found.Ok? then Ok(node.toc.value[found.value].value.value) else Err
  {
    var slots := node.toc.value;
    var best := BestMatch(slots, asked);
    BestMatchIsNewest(slots, asked);
    assert forall i :: 0 <= i < |slots| ==> (Matches(slots[i], asked) <==> IsCandidate(n.keys.value[i], asked));
    if found.Ok? {
      assert slots[found.value] in slots && Matches(slots[found.value], asked);
      var s :| s in slots && Matches(s, asked) && SlotEntry(s) == best.value;
      var i :| 0 <= i < |slots| && slots[i] == s;
      assert n.keys.value[i].key.xid >= n.keys.value[found.value].key.xid;
      assert i == found.value;
    }
  }

  /** Single-key search: an entry of that OID if there is one, else the last entry with a smaller OID. */
  method SearchOid(n: SearchNode, oid: nat) returns (r: Outcome<nat>)
    requires n.Decoded()
    ensures !r.Panic?
    ensures r.Ok? ==> n.keys.Some? && r.value < |n.keys.value|
    ensures OidsSorted(n) ==>
              && (r.Err? <==> forall i :: 0 <= i < n.keyCount ==> OidOf(n.keys.value[i]).value > oid)
              && (r.Ok? ==> OidOf(n.keys.value[r.value]).value <= oid)
              && (r.Ok? && OidOf(n.keys.value[r.value]).value < oid ==>
                    forall i :: r.value < i < n.keyCount ==> OidOf(n.keys.value[i]).value > oid)
  {
    if n.keyCount == 0 || n.keys.None? {
      return Err;
    }
    var keys := n.keys.value;
    var low, high := 0, n.keyCount - 1;
    while low <= high
      invariant 0 <= low <= high + 1 <= n.keyCount
      invariant OidsSorted(n) ==>
                  && (forall i :: 0 <= i < low ==> OidOf(keys[i]).value < oid)
                  && (forall i :: high < i < n.keyCount ==> OidOf(keys[i]).value > oid)
      decreases high - low
    {
      var mid := (low + high) / 2;
      if mid >= |keys| || OidOf(keys[mid]).None? {
        return Err;
      }
      var keyOid := OidOf(keys[mid]).value;
      if keyOid < oid {
        low := mid + 1;
      } else if keyOid > oid {
        high := mid - 1;
      } else {
        return Ok(mid);
      }
    }
    if high >= 0 && high < |keys| {
      assert OidsSorted(n) ==> OidOf(keys[high]).value < oid;
      return Ok(high);
    }
    r := Err;
  }
}
