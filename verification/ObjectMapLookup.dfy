/**
  What the recursive descent of ObjectMapTree finds, for every finite tree.

  The tree convention is the one `findChildNode` relies on: separator i is the largest key under child i.
 */
module ObjectMapLookup {
  import opened Outcomes
  import opened ObjectMapTree

  // ---------------------------------------------------------------------------------------------------------------
  // The contents of a tree
  // ---------------------------------------------------------------------------------------------------------------

  /** The entries of the usable slots, in order. */
  function SlotEntries(slots: seq<Slot>): seq<Entry> {
    if slots == [] then []
    else (if slots[0].Usable() then [SlotEntry(slots[0])] else []) + SlotEntries(slots[1..])
  }

  function Entries(t: Tree): seq<Entry>
    decreases t, 0
  {
    match t
    case Missing => []
    case Leaf(node) => if node.toc.Some? then SlotEntries(node.toc.value) else []
    case Branch(_, kids) => EntriesAll(kids)
  }

  function EntriesAll(kids: seq<Tree>): seq<Entry>
    decreases kids, 1
  {
    if kids == [] then [] else Entries(kids[0]) + EntriesAll(kids[1..])
  }

  ghost predicate StrictlySorted(es: seq<Entry>) {
    forall i, j :: 0 <= i < j < |es| ==> Before(es[i].key, es[j].key)
  }

  ghost predicate FullToc(node: Node) {
    node.toc.Some? && |node.toc.value| == node.keyCount
    && forall i :: 0 <= i < |node.toc.value| ==> node.toc.value[i].Usable()
  }

  /** Fully readable; no empty child; separator i is the last key under child i. */
  ghost predicate WellFormed(t: Tree)
    decreases t
  {
    match t
    case Missing => false
    case Leaf(node) => FullToc(node)
    case Branch(node, kids) =>
      && FullToc(node) && |kids| == node.keyCount && |kids| > 0
      && forall i :: 0 <= i < |kids| ==>
           WellFormed(kids[i]) && Entries(kids[i]) != [] && node.toc.value[i].key.value == LastKey(kids[i])
  }

  function LastKey(t: Tree): OmapKey
    requires Entries(t) != []
  {
    var es := Entries(t);
    es[|es| - 1].key
  }

  lemma InSlotEntries(slots: seq<Slot>, e: Entry)
    ensures e in SlotEntries(slots) <==> exists s :: s in slots && s.Usable() && SlotEntry(s) == e
  {
    if slots != [] {
      InSlotEntries(slots[1..], e);
      assert slots == [slots[0]] + slots[1..];
    }
  }

  lemma InEntriesAll(kids: seq<Tree>, e: Entry)
    ensures e in EntriesAll(kids) <==> exists c :: 0 <= c < |kids| && e in Entries(kids[c])
  {
    if kids != [] {
      InEntriesAll(kids[1..], e);
      if c :| 0 <= c < |kids| && e in Entries(kids[c]) {
        assert c == 0 || kids[c] == kids[1..][c - 1];
      }
    }
  }

  // ---------------------------------------------------------------------------------------------------------------
  // Soundness, with no assumption on order, separators or readability
  // ---------------------------------------------------------------------------------------------------------------

  /** An address comes from a stored entry of the object asked for, in a version not newer than asked. */
  lemma {:induction false} LookupSound(t: Tree, asked: OmapKey)
    ensures Lookup(t, asked).Ok? ==>
              exists e :: e in Entries(t) && Candidate(e.key, asked) && e.addr == Lookup(t, asked).value
  {
    if Lookup(t, asked).Ok? {
      match t
      case Leaf(node) =>
        BestMatchIsNewest(node.toc.value, asked);
        var e := BestMatch(node.toc.value, asked).value;
        InSlotEntries(node.toc.value, e);
      case Branch(node, kids) =>
        var c := RouteIndex(node, asked).value;
        LookupSound(kids[c], asked);
        var e :| e in Entries(kids[c]) && Candidate(e.key, asked) && e.addr == Lookup(t, asked).value;
        InEntriesAll(kids, e);
    }
  }

  // ---------------------------------------------------------------------------------------------------------------
  // Completeness: exactly which versions the descent finds
  // ---------------------------------------------------------------------------------------------------------------

  /** `e` is the version to return: no candidate in the whole tree is newer. */
  ghost predicate IsNewest(es: seq<Entry>, asked: OmapKey, e: Entry) {
    e in es && Candidate(e.key, asked)
    && forall f :: f in es && Candidate(f.key, asked) ==> f.key.xid <= e.key.xid
  }

  ghost predicate EndsKid(kids: seq<Tree>, c: nat, k: OmapKey) {
    c < |kids| - 1 && Entries(kids[c]) != [] && LastKey(kids[c]) == k
  }

  /** `k` is the last key of a child that has a right sibling, somewhere in the tree. */
  ghost predicate EndsInnerChild(t: Tree, k: OmapKey)
    decreases t
  {
    t.Branch? && exists c :: 0 <= c < |t.kids| && (EndsKid(t.kids, c, k) || EndsInnerChild(t.kids[c], k))
  }

  lemma {:induction false} EndsInnerChildIsStored(t: Tree, k: OmapKey)
    requires EndsInnerChild(t, k)
    ensures exists e :: e in Entries(t) && e.key == k
  {
    var c :| 0 <= c < |t.kids| && (EndsKid(t.kids, c, k) || EndsInnerChild(t.kids[c], k));
    var e := EndedKidStores(t.kids, c, k);
    InEntriesAll(t.kids, e);
  }

  lemma EndedKidStores(kids: seq<Tree>, c: nat, k: OmapKey) returns (e: Entry)
    requires c < |kids| && (EndsKid(kids, c, k) || EndsInnerChild(kids[c], k))
    ensures e in Entries(kids[c]) && e.key == k
    decreases kids
  {
    if EndsKid(kids, c, k) {
      e := Entries(kids[c])[|Entries(kids[c])| - 1];
    } else {
      EndsInnerChildIsStored(kids[c], k);
      e :| e in Entries(kids[c]) && e.key == k;
    }
  }

  /** A sorted list splits into two sorted lists, the first wholly before the second. */
  lemma SortedSplit(a: seq<Entry>, b: seq<Entry>)
    requires StrictlySorted(a + b)
    ensures StrictlySorted(a) && StrictlySorted(b)
    ensures forall e, f :: e in a && f in b ==> Before(e.key, f.key)
  {
    var all := a + b;
    assert forall i :: 0 <= i < |a| ==> all[i] == a[i];
    assert forall i :: 0 <= i < |b| ==> all[|a| + i] == b[i];
    forall e, f | e in a && f in b
      ensures Before(e.key, f.key)
    {
      var i :| 0 <= i < |a| && a[i] == e;
      var j :| 0 <= j < |b| && b[j] == f;
      assert all[i] == e && all[|a| + j] == f;
    }
  }

  /** In a sorted tree every child is sorted, and children are ordered from left to right. */
  lemma {:induction false} KidsOrdered(kids: seq<Tree>)
    requires StrictlySorted(EntriesAll(kids))
    ensures forall c :: 0 <= c < |kids| ==> StrictlySorted(Entries(kids[c]))
    ensures forall c, d, e, f :: 0 <= c < d < |kids| && e in Entries(kids[c]) && f in Entries(kids[d]) ==>
              Before(e.key, f.key)
  {
    if kids != [] {
      SortedSplit(Entries(kids[0]), EntriesAll(kids[1..]));
      KidsOrdered(kids[1..]);
      assert forall c :: 0 < c < |kids| ==> kids[c] == kids[1..][c - 1];
      forall c, d, e, f | 0 <= c < d < |kids| && e in Entries(kids[c]) && f in Entries(kids[d])
        ensures Before(e.key, f.key)
      {
        if c == 0 {
          InEntriesAll(kids[1..], f);
        }
      }
    }
  }

  /** The last key of a sorted child bounds the child. */
  lemma LastKeyBounds(t: Tree, e: Entry)
    requires StrictlySorted(Entries(t)) && e in Entries(t)
    ensures e.key == LastKey(t) || Before(e.key, LastKey(t))
  {}

  lemma LastKeyBefore(kids: seq<Tree>, c: nat, d: nat, e: Entry)
    requires StrictlySorted(EntriesAll(kids))
    requires c < d < |kids| && Entries(kids[c]) != [] && e in Entries(kids[d])
    ensures Before(LastKey(kids[c]), e.key)
  {
    KidsOrdered(kids);
    assert Entries(kids[c])[|Entries(kids[c])| - 1] in Entries(kids[c]);
  }

  /** The child followed: children to its left end below the key; it ends at or above it unless it is the last. */
  lemma RoutedChild(node: Node, kids: seq<Tree>, asked: OmapKey) returns (c: nat)
    requires WellFormed(Branch(node, kids))
    ensures RouteIndex(node, asked) == Ok(c) && c < |kids|
    ensures forall d :: 0 <= d < c ==> Before(LastKey(kids[d]), asked)
    ensures c < |kids| - 1 ==> !Before(LastKey(kids[c]), asked)
  {
    var slots := node.toc.value;
    assert forall i :: 0 <= i < |slots| ==> slots[i] in slots && slots[i].Usable();
    c := RouteIndex(node, asked).value;
    assert forall d :: 0 <= d < c ==> !Covers(slots[d], asked);
  }

  /** With no candidate in the tree the descent reports not found. */
  lemma {:induction false} LookupAbsent(t: Tree, asked: OmapKey)
    requires WellFormed(t)
    requires forall e :: e in Entries(t) ==> !Candidate(e.key, asked)
    ensures Lookup(t, asked) == Err
  {
    match t
    case Leaf(node) =>
      BestMatchIsNewest(node.toc.value, asked);
      forall s | s in node.toc.value
        ensures !Matches(s, asked)
      {
        InSlotEntries(node.toc.value, SlotEntry(s));
      }
    case Branch(node, kids) =>
      var c := RoutedChild(node, kids, asked);
      forall e | e in Entries(kids[c])
        ensures !Candidate(e.key, asked)
      {
        InEntriesAll(kids, e);
      }
      LookupAbsent(kids[c], asked);
  }

  lemma SameKeySameEntry(es: seq<Entry>, e: Entry, f: Entry)
    requires StrictlySorted(es) && e in es && f in es && e.key == f.key
    ensures e == f
  {}

  /** The newest version is returned from a leaf that holds it. */
  lemma LeafFindsNewest(node: Node, asked: OmapKey, e: Entry)
    requires FullToc(node) && StrictlySorted(SlotEntries(node.toc.value))
    requires IsNewest(SlotEntries(node.toc.value), asked, e)
    ensures LeafResult(node, asked) == Ok(e.addr)
  {
    var slots := node.toc.value;
    InSlotEntries(slots, e);
    var s :| s in slots && s.Usable() && SlotEntry(s) == e;
    assert Matches(s, asked);
    BestMatchIsNewest(slots, asked);
    var best := BestMatch(slots, asked).value;
    InSlotEntries(slots, best);
    SameKeySameEntry(SlotEntries(slots), e, best);
  }

  /** The newest version lies in the child followed, or is the last entry of the child just left of it. */
  lemma NewestIsNearRoute(node: Node, kids: seq<Tree>, asked: OmapKey, e: Entry, c: nat, d: nat)
    requires WellFormed(Branch(node, kids)) && StrictlySorted(EntriesAll(kids))
    requires IsNewest(EntriesAll(kids), asked, e)
    requires c < |kids| && RouteIndex(node, asked) == Ok(c)
    requires d < |kids| && e in Entries(kids[d])
    ensures d == c || (d < c && e.key == LastKey(kids[d]) && e.key != asked)
  {
    var c' := RoutedChild(node, kids, asked);
    KidsOrdered(kids);
    LastKeyBounds(kids[d], e);
    var last := Entries(kids[d])[|Entries(kids[d])| - 1];
    InEntriesAll(kids, last);
    if c < d {
      LastKeyBefore(kids, c, d, e);
    }
  }

  /**
    The exact answer. In a well-formed sorted tree the descent returns the newest stored version not above the one
    asked for, unless that version is older than asked and is the last key of a child that has a right sibling: then,
    and only then, it is reported as not found.
   */
  lemma {:induction false} LookupNewest(t: Tree, asked: OmapKey, e: Entry)
    requires WellFormed(t) && StrictlySorted(Entries(t))
    requires IsNewest(Entries(t), asked, e)
    ensures Lookup(t, asked) == if e.key == asked || !EndsInnerChild(t, e.key) then Ok(e.addr) else Err
  {
    match t
    case Leaf(node) => LeafFindsNewest(node, asked, e);
    case Branch(node, kids) =>
      KidsOrdered(kids);
      var c := RoutedChild(node, kids, asked);
      InEntriesAll(kids, e);
      var d :| 0 <= d < |kids| && e in Entries(kids[d]);
      NewestIsNearRoute(node, kids, asked, e, c, d);
      forall f | f in Entries(kids[c])
        ensures f in EntriesAll(kids)
      {
        InEntriesAll(kids, f);
      }
      if d == c {
        LookupNewest(kids[c], asked, e);
        if e.key != asked {
          EndsHereOrBelow(node, kids, asked, e, c);
        }
      } else {
        assert EndsInnerChild(t, e.key);
        forall f | f in Entries(kids[c])
          ensures !Candidate(f.key, asked)
        {
          assert Before(e.key, f.key);
        }
        LookupAbsent(kids[c], asked);
      }
  }

  /** In a sorted tree a key is stored under one child only. */
  lemma SameKeySameKid(kids: seq<Tree>, c: nat, d: nat, e: Entry, f: Entry)
    requires StrictlySorted(EntriesAll(kids)) && c < |kids| && d < |kids|
    requires e in Entries(kids[c]) && f in Entries(kids[d]) && e.key == f.key
    ensures c == d
  {
    KidsOrdered(kids);
  }

  /** An older version under the child followed ends an inner child of the tree only if it does so below that child. */
  lemma EndsHereOrBelow(node: Node, kids: seq<Tree>, asked: OmapKey, e: Entry, c: nat)
    requires WellFormed(Branch(node, kids)) && StrictlySorted(EntriesAll(kids))
    requires c < |kids| && RouteIndex(node, asked) == Ok(c)
    requires e in Entries(kids[c]) && Before(e.key, asked)
    ensures EndsInnerChild(Branch(node, kids), e.key) <==> EndsInnerChild(kids[c], e.key)
  {
    var t := Branch(node, kids);
    var c' := RoutedChild(node, kids, asked);
    if EndsInnerChild(t, e.key) {
      var d :| 0 <= d < |kids| && (EndsKid(kids, d, e.key) || EndsInnerChild(kids[d], e.key));
      var f := EndedKidStores(kids, d, e.key);
      SameKeySameKid(kids, c, d, e, f);
    }
  }

  /** Every stored key that is asked for exactly is found. */
  lemma LookupExactKey(t: Tree, e: Entry)
    requires WellFormed(t) && StrictlySorted(Entries(t)) && e in Entries(t)
    ensures Lookup(t, e.key) == Ok(e.addr)
  {
    LookupNewest(t, e.key, e);
  }

  /**
    A two-leaf tree in which object 1 has version 5 and nothing newer, and version 7 is asked for: version 5 ends the
    left child, the search goes right, and the object is reported missing.
   */
  lemma LookupCanMissNewest() returns (t: Tree)
    ensures WellFormed(t) && StrictlySorted(Entries(t))
    ensures IsNewest(Entries(t), OmapKey(1, 7), Entry(OmapKey(1, 5), 100))
    ensures Lookup(t, OmapKey(1, 7)) == Err
    ensures Entries(t) == [Entry(OmapKey(1, 5), 100), Entry(OmapKey(2, 3), 200)]
  {
    var s1, s2 := Slot(Some(OmapKey(1, 5)), Some(100)), Slot(Some(OmapKey(2, 3)), Some(200));
    var left, right := Leaf(Node(true, 1, Some([s1]))), Leaf(Node(true, 1, Some([s2])));
    var seps := [Slot(Some(OmapKey(1, 5)), Some(11)), Slot(Some(OmapKey(2, 3)), Some(12))];
    t := Branch(Node(false, 2, Some(seps)), [left, right]);
    assert SlotEntries([s1]) == [SlotEntry(s1)] + SlotEntries([]);
    assert SlotEntries([s2]) == [SlotEntry(s2)] + SlotEntries([]);
    assert Entries(left) == [SlotEntry(s1)] && Entries(right) == [SlotEntry(s2)];
    assert WellFormed(t.kids[0]) && WellFormed(t.kids[1]);
    assert EndsKid(t.kids, 0, OmapKey(1, 5));
    calc {
      Entries(t);
      Entries(left) + EntriesAll([left, right][1..]);
      { assert [left, right][1..] == [right]; }
      Entries(left) + (Entries(right) + EntriesAll([]));
      [SlotEntry(s1), SlotEntry(s2)];
    }
    LookupNewest(t, OmapKey(1, 7), SlotEntry(s1));
  }
}
