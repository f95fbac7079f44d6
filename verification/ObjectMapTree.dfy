/**
  Versioned lookup in an object-map B-tree (internal/services/btree_object_resolver.go).

  A node is its decoded table of contents. Byte offsets inside a node stay behind this abstraction; every way in
  which decoding can fail is a value here, because the search loops branch on it.
 */
module ObjectMapTree {
  import opened Outcomes

  datatype OmapKey = OmapKey(oid: nat, xid: nat)

  /**
    One table-of-contents entry. `Malformed`: the key or value extends beyond the node. A `None` key is shorter than
    16 bytes; a `None` value is too short to hold the address (leaf) or the child's block number (internal node).
   */
  datatype Slot = Malformed | Slot(key: Option<OmapKey>, value: Option<nat>)
  {
    predicate Usable() {
      Slot? && key.Some? && value.Some?
    }
  }

  /** `toc` is None when the table offset lies outside the node; it may hold fewer than `keyCount` entries. */
  datatype Node = Node(isLeaf: bool, keyCount: nat, toc: Option<seq<Slot>>)
  {
    ghost predicate Decoded() {
      toc.Some? ==> |toc.value| <= keyCount
    }
  }

  datatype Entry = Entry(key: OmapKey, addr: nat)

  predicate Before(a: OmapKey, b: OmapKey) {
    a.oid < b.oid || (a.oid == b.oid && a.xid < b.xid)
  }

  /** Three-way comparison, OID first. */
  function CompareKeys(a: OmapKey, b: OmapKey): (r: int)
    ensures r < 0 <==> Before(a, b)
    ensures r == 0 <==> a == b
    ensures r > 0 <==> Before(b, a)
  {
    if a.oid < b.oid then -1
    else if a.oid > b.oid then 1
    else if a.xid < b.xid then -1
    else if a.xid > b.xid then 1
    else 0
  }

  /** The same object, in a version not newer than the one asked for. */
  predicate Candidate(k: OmapKey, asked: OmapKey) {
    k.oid == asked.oid && k.xid <= asked.xid
  }

  // ---------------------------------------------------------------------------------------------------------------
  // The leaf scan
  // ---------------------------------------------------------------------------------------------------------------

  predicate Matches(s: Slot, asked: OmapKey) {
    s.Usable() && Candidate(s.key.value, asked)
  }

  function SlotEntry(s: Slot): Entry
    requires s.Usable()
  {
    Entry(s.key.value, s.value.value)
  }

  /** What a left-to-right scan that only replaces its best match by a strictly newer one ends with. */
  function BestMatch(slots: seq<Slot>, asked: OmapKey): Option<Entry> {
    if slots == [] then None
    else
      var best := BestMatch(slots[..|slots| - 1], asked);
      var s := slots[|slots| - 1];
      if Matches(s, asked) && (best.None? || s.key.value.xid > best.value.key.xid) then Some(SlotEntry(s)) else best
  }

  /** It is a matching entry of the greatest version, and there is none exactly when nothing matches. */
  lemma {:induction false} BestMatchIsNewest(slots: seq<Slot>, asked: OmapKey)
    ensures var r := BestMatch(slots, asked);
            && (r.None? <==> forall s :: s in slots ==> !Matches(s, asked))
            && (r.Some? ==> exists s :: s in slots && Matches(s, asked) && SlotEntry(s) == r.value)
            && (r.Some? ==> forall s :: s in slots && Matches(s, asked) ==> s.key.value.xid <= r.value.key.xid)
  {
    if slots != [] {
      var init, last := slots[..|slots| - 1], slots[|slots| - 1];
      BestMatchIsNewest(init, asked);
      assert forall s :: s in slots <==> s in init || s == last;
    }
  }

  /** Of several matching entries of the greatest version it is the first. */
  lemma {:induction false} BestMatchIsFirst(slots: seq<Slot>, asked: OmapKey) returns (i: nat)
    requires BestMatch(slots, asked).Some?
    ensures i < |slots| && Matches(slots[i], asked) && BestMatch(slots, asked) == Some(SlotEntry(slots[i]))
    ensures forall j :: 0 <= j < i && Matches(slots[j], asked) ==> slots[j].key.value.xid < slots[i].key.value.xid
  {
    var n := |slots| - 1;
    var init := slots[..n];
    if BestMatch(init, asked) == BestMatch(slots, asked) {
      i := BestMatchIsFirst(init, asked);
      assert init[i] == slots[i];
    } else {
      i := n;
      BestMatchIsNewest(init, asked);
      assert forall j :: 0 <= j < n ==> slots[j] == init[j] && init[j] in init;
    }
  }

  function LeafResult(node: Node, asked: OmapKey): Outcome<nat> {
    if node.toc.None? then Err
    else
      var best := BestMatch(node.toc.value, asked);
      if best.Some? then Ok(best.value.addr) else Err
  }

  /** Linear scan of a leaf for the greatest version not above the one asked for. */
  method SearchLeafNode(node: Node, asked: OmapKey) returns (r: Outcome<nat>)
    requires node.Decoded()
    ensures r == LeafResult(node, asked)
  {
    if node.toc.None? {
      return Err;
    }
    var entries := node.toc.value;
    var bestMatch: Option<Entry> := None;
    var i := 0;
    while i < node.keyCount && i < |entries|
      invariant i <= |entries|
      invariant bestMatch == BestMatch(entries[..i], asked)
    {
      assert entries[..i + 1][..i] == entries[..i];
      if entries[i].Usable() {
        var key := entries[i].key.value;
        if key.oid == asked.oid && key.xid <= asked.xid {
          if bestMatch.None? || key.xid > bestMatch.value.key.xid {
            bestMatch := Some(Entry(key, entries[i].value.value));
          }
        }
      }
      i := i + 1;
    }
    assert entries[..i] == entries;
    r := if bestMatch.Some? then Ok(bestMatch.value.addr) else Err;
  }

  // ---------------------------------------------------------------------------------------------------------------
  // Routing in an internal node
  // ---------------------------------------------------------------------------------------------------------------

  predicate Covers(s: Slot, asked: OmapKey) {
    s.Usable() && !Before(s.key.value, asked)
  }

  /** The first slot whose separator is at least the key asked for, or the number of slots. */
  function FirstCovering(slots: seq<Slot>, asked: OmapKey): (i: nat)
    ensures i <= |slots|
    ensures i < |slots| ==> Covers(slots[i], asked)
    ensures forall j :: 0 <= j < i ==> !Covers(slots[j], asked)
  {
    if slots == [] then 0
    else if Covers(slots[0], asked) then 0
    else 1 + FirstCovering(slots[1..], asked)
  }

  /** The index of the child to follow. */
  function RouteIndex(node: Node, asked: OmapKey): (r: Outcome<nat>)
    ensures r.Ok? ==> node.toc.Some? && r.value < |node.toc.value|
                      && node.toc.value[r.value].Slot? && node.toc.value[r.value].value.Some?
  {
    if node.toc.None? then Err
    else
      var slots := node.toc.value;
      var i := FirstCovering(slots, asked);
      if i < |slots| then Ok(i)
      else if node.keyCount == 0 || |slots| == 0 then Err
      else if node.keyCount > |slots| then Panic  // entries[keyCount-1] is out of range
      else if slots[|slots| - 1].Slot? && slots[|slots| - 1].value.Some? then Ok(|slots| - 1)
      else Err
  }

  /** A node whose table of contents holds some, but not all of the entries its key count promises. */
  predicate Overcounted(node: Node) {
    node.toc.Some? && 0 < |node.toc.value| < node.keyCount
  }

  /** Routing panics exactly in an overcounted node none of whose separators is at or above the key. */
  lemma RoutePanicsIff(node: Node, asked: OmapKey)
    ensures RouteIndex(node, asked).Panic? <==>
              Overcounted(node) && forall i :: 0 <= i < |node.toc.value| ==> !Covers(node.toc.value[i], asked)
  {}

  /** Two keys are counted, one separator (1, 1) is there, and (9, 9) is asked for. */
  lemma RouteCanPanic()
    ensures RouteIndex(Node(false, 2, Some([Slot(Some(OmapKey(1, 1)), Some(5))])), OmapKey(9, 9)) == Panic
  {
    var node := Node(false, 2, Some([Slot(Some(OmapKey(1, 1)), Some(5))]));
    assert !Covers(node.toc.value[0], OmapKey(9, 9));
    RoutePanicsIff(node, OmapKey(9, 9));
  }

  /** Chooses the child block: the first separator >= the key, else the rightmost child. */
  method FindChildNode(node: Node, asked: OmapKey) returns (r: Outcome<nat>)
    requires node.Decoded()
    ensures r.Ok? <==> RouteIndex(node, asked).Ok?
    ensures r.Panic? <==>
              Overcounted(node) && forall i :: 0 <= i < |node.toc.value| ==> !Covers(node.toc.value[i], asked)
    ensures r.Ok? ==> r.value == node.toc.value[RouteIndex(node, asked).value].value.value
  {
    if node.toc.None? {
      return Err;
    }
    var entries := node.toc.value;
    ghost var first := FirstCovering(entries, asked);
    var i := 0;
    while i < node.keyCount && i < |entries|
      invariant i <= |entries|
      invariant forall j :: 0 <= j < i ==> !Covers(entries[j], asked)
    {
      if entries[i].Slot? && entries[i].key.Some? && CompareKeys(asked, entries[i].key.value) <= 0 {
        if entries[i].value.Some? {
          return Ok(entries[i].value.value);
        }
      }
      i := i + 1;
    }
    if node.keyCount > 0 && |entries| > 0 {
      if node.keyCount > |entries| {
        return Panic;
      }
      var lastEntry := entries[node.keyCount - 1];
      if lastEntry.Slot? && lastEntry.value.Some? {
        return Ok(lastEntry.value.value);
      }
    }
    return Err;
  }

  // ---------------------------------------------------------------------------------------------------------------
  // Finite trees and their storage
  // ---------------------------------------------------------------------------------------------------------------

  /** A finite tree of nodes. `Missing` is a block that cannot be read or parsed. */
  datatype Tree = Missing | Leaf(node: Node) | Branch(node: Node, kids: seq<Tree>)

  /** Block `block` of the container roots tree `t`: every child number in a table of contents leads to that child. */
  ghost predicate Stored(store: map<nat, Node>, block: nat, t: Tree)
    decreases t
  {
    match t
    case Missing => block !in store
    case Leaf(node) => block in store && store[block] == node && node.isLeaf && node.Decoded()
    case Branch(node, kids) =>
      && block in store && store[block] == node && !node.isLeaf && node.Decoded()
      && (node.toc.Some? ==>
            && |kids| == |node.toc.value|
            && forall i :: 0 <= i < |kids| && node.toc.value[i].Slot? && node.toc.value[i].value.Some? ==>
                 Stored(store, node.toc.value[i].value.value, kids[i]))
  }

  /** The recursive descent, on the tree. */
  function Lookup(t: Tree, asked: OmapKey): Outcome<nat> {
    match t
    case Missing => Err
    case Leaf(node) => LeafResult(node, asked)
    case Branch(node, kids) =>
      var route := RouteIndex(node, asked);
      if route.Ok? then
        if route.value < |kids| then Lookup(kids[route.value], asked) else Err
      else if route.Err? then Err
      else Panic
  }

  /** No internal node is overcounted. */
  ghost predicate NoneOvercounted(t: Tree)
    decreases t
  {
    t.Branch? ==> !Overcounted(t.node) && forall i :: 0 <= i < |t.kids| ==> NoneOvercounted(t.kids[i])
  }

  /** The descent never panics on a tree without overcounted internal nodes, sorted or not. */
  lemma {:induction false} LookupNeverPanics(t: Tree, asked: OmapKey)
    requires NoneOvercounted(t)
    ensures !Lookup(t, asked).Panic?
  {
    if t.Branch? {
      RoutePanicsIff(t.node, asked);
      var route := RouteIndex(t.node, asked);
      if route.Ok? && route.value < |t.kids| {
        LookupNeverPanics(t.kids[route.value], asked);
      }
    }
  }

  /** The recursive descent, on the container. It terminates over every finite tree. */
  method SearchBTreeNode(store: map<nat, Node>, node: Node, asked: OmapKey, ghost block: nat, ghost t: Tree)
    returns (r: Outcome<nat>)
    requires Stored(store, block, t) && !t.Missing? && t.node == node
    ensures r == Lookup(t, asked)
    decreases t, 0
  {
    if node.isLeaf {
      r := SearchLeafNode(node, asked);
    } else {
      var child := FindChildNode(node, asked);
      if !child.Ok? {
        return child;
      }
      r := SearchChildNode(store, child.value, asked, t.kids[RouteIndex(node, asked).value]);
    }
  }

  method SearchChildNode(store: map<nat, Node>, block: nat, asked: OmapKey, ghost t: Tree) returns (r: Outcome<nat>)
    requires Stored(store, block, t)
    ensures r == Lookup(t, asked)
    decreases t, 1
  {
    if block !in store {
      return Err;
    }
    r := SearchBTreeNode(store, store[block], asked, block, t);
  }
}
