/** Least-recently-used order: a list of keys, most recent first, and what whole runs of accesses do to it. */
module RecencyList {
  import opened Outcomes

  type Keys = seq<nat>

  ghost predicate Distinct(s: Keys) {
    forall i, j :: 0 <= i < j < |s| ==> s[i] != s[j]
  }

  function Take(s: Keys, n: nat): Keys {
    s[..Min(n, |s|)]
  }

  function Without(s: Keys, k: nat): (r: Keys)
    ensures |r| <= |s|
    ensures forall x :: x in r <==> x in s && x != k
  {
    if s == [] then []
    else if s[0] == k then Without(s[1..], k)
    else [s[0]] + Without(s[1..], k)
  }

  /** MoveToFront. */
  function Touch(s: Keys, k: nat): Keys {
    [k] + Without(s, k)
  }

  /** A get, followed by a put if it missed, in a cache of `max` entries. */
  function Access(s: Keys, max: nat, k: nat): Keys {
    if k in s then Touch(s, k) else Take([k] + s, max)
  }

  lemma {:induction false} WithoutAbsent(s: Keys, k: nat)
    requires k !in s
    ensures Without(s, k) == s
  {
    if s != [] {
      WithoutAbsent(s[1..], k);
    }
  }

  lemma {:induction false} WithoutAt(s: Keys, i: nat)
    requires Distinct(s) && i < |s|
    ensures Without(s, s[i]) == s[..i] + s[i + 1..]
  {
    var rest := s[1..];
    if i == 0 {
      WithoutAbsent(rest, s[0]);
      assert s[..0] + s[1..] == rest;
    } else {
      WithoutAt(rest, i - 1);
      assert s[..i] == [s[0]] + rest[..i - 1] && s[i + 1..] == rest[i..];
    }
  }

  lemma {:induction false} WithoutDistinct(s: Keys, k: nat)
    requires Distinct(s)
    ensures Distinct(Without(s, k))
    ensures |Without(s, k)| == if k in s then |s| - 1 else |s|
  {
    if k in s {
      var i :| 0 <= i < |s| && s[i] == k;
      WithoutAt(s, i);
    } else {
      WithoutAbsent(s, k);
    }
  }

  // ---------------------------------------------------------------------------------------------------------------
  // Inclusion: a larger cache never misses where a smaller one hits
  // ---------------------------------------------------------------------------------------------------------------

  datatype Event = Lookup(key: nat) | Invalidate(key: nat) | Clear

  function Step(s: Keys, max: nat, e: Event): Keys {
    match e
    case Lookup(k) => Access(s, max, k)
    case Invalidate(k) => Without(s, k)
    case Clear => []
  }

  /** The keys cached after a run that starts empty. */
  function Run(max: nat, es: seq<Event>): Keys {
    if es == [] then [] else Step(Run(max, es[..|es| - 1]), max, es[|es| - 1])
  }

  lemma {:induction false} WithoutPrefix(s: Keys, l: Keys, k: nat)
    requires s <= l
    ensures Without(s, k) <= Without(l, k)
  {
    if s != [] {
      assert l[0] == s[0] && s[1..] <= l[1..];
      WithoutPrefix(s[1..], l[1..], k);
    }
  }

  lemma StepKeepsPrefix(s: Keys, l: Keys, m: nat, m': nat, e: Event)
    requires s <= l && m <= m'
    ensures Step(s, m, e) <= Step(l, m', e)
  {
    match e
    case Lookup(k) =>
      WithoutPrefix(s, l, k);
      if k !in s {
        WithoutAbsent(s, k);
      }
    case Invalidate(k) => WithoutPrefix(s, l, k);
    case Clear =>
  }

  /** Replay one run through two caches: the smaller one's recency list is always a prefix of the larger one's. */
  lemma {:induction false} Inclusion(m: nat, m': nat, es: seq<Event>)
    requires m <= m'
    ensures Run(m, es) <= Run(m', es)
  {
    if es != [] {
      var init := es[..|es| - 1];
      Inclusion(m, m', init);
      StepKeepsPrefix(Run(m, init), Run(m', init), m, m', es[|es| - 1]);
    }
  }

  /** No Belady anomaly: at every point of every run, a hit in the smaller cache is a hit in the larger one. */
  lemma HitsIncluded(m: nat, m': nat, es: seq<Event>, k: nat)
    requires m <= m' && k in Run(m, es)
    ensures k in Run(m', es)
  {
    Inclusion(m, m', es);
  }

  /** The events that have an effect when the keys outside `good` cannot be loaded. */
  ghost function Effective(es: seq<Event>, good: nat -> bool): seq<Event> {
    if es == [] then []
    else
      var last := es[|es| - 1];
      Effective(es[..|es| - 1], good) + (if last.Lookup? && !good(last.key) then [] else [last])
  }

  lemma {:induction false} EffectiveAgrees(es: seq<Event>, good: nat -> bool, good': nat -> bool)
    requires forall k :: good(k) == good'(k)
    ensures Effective(es, good) == Effective(es, good')
  {
    if es != [] {
      EffectiveAgrees(es[..|es| - 1], good, good');
    }
  }

  /** A run, one event further. */
  lemma RunOneMore(max: nat, es: seq<Event>, i: nat, good: nat -> bool)
    requires i < |es|
    ensures var before := Run(max, Effective(es[..i], good));
            Run(max, Effective(es[..i + 1], good)) ==
              if es[i].Lookup? && !good(es[i].key) then before else Step(before, max, es[i])
  {
    var before := Effective(es[..i], good);
    assert es[..i + 1][..i] == es[..i];
    if es[i].Lookup? && !good(es[i].key) {
      assert Effective(es[..i + 1], good) == before + [] == before;
    } else {
      assert Effective(es[..i + 1], good) == before + [es[i]];
      assert (before + [es[i]])[..|before|] == before;
    }
  }

  // ---------------------------------------------------------------------------------------------------------------
  // What an access-only run holds: the most recent distinct keys
  // ---------------------------------------------------------------------------------------------------------------

  /** The keys of a trace, each once, most recently used first. */
  function ByRecency(trace: Keys): Keys {
    if trace == [] then [] else Touch(ByRecency(trace[..|trace| - 1]), trace[|trace| - 1])
  }

  function Lookups(trace: Keys): seq<Event> {
    seq(|trace|, i requires 0 <= i < |trace| => Lookup(trace[i]))
  }

  lemma {:induction false} ByRecencyDistinct(trace: Keys)
    ensures Distinct(ByRecency(trace))
  {
    if trace != [] {
      ByRecencyDistinct(trace[..|trace| - 1]);
      WithoutDistinct(ByRecency(trace[..|trace| - 1]), trace[|trace| - 1]);
    }
  }

  lemma TouchOfTake(r: Keys, max: nat, i: nat)
    requires Distinct(r) && i < |r| && i < max
    ensures Touch(Take(r, max), r[i]) == Take(Touch(r, r[i]), max)
  {
    var s := Take(r, max);
    WithoutAt(s, i);
    WithoutAt(r, i);
    assert s[..i] + s[i + 1..] == Take(r[..i] + r[i + 1..], max - 1);
  }

  lemma MissOfTake(r: Keys, max: nat, k: nat)
    requires Distinct(r) && max > 0 && k !in Take(r, max)
    ensures Take([k] + Take(r, max), max) == Take(Touch(r, k), max)
  {
    if k in r {
      var i :| 0 <= i < |r| && r[i] == k;
      assert forall j :: 0 <= j < |Take(r, max)| ==> r[j] == Take(r, max)[j] != k;
      WithoutAt(r, i);
    } else {
      WithoutAbsent(r, k);
    }
  }

  lemma AccessOfTake(r: Keys, max: nat, k: nat)
    requires Distinct(r) && max > 0
    ensures Access(Take(r, max), max, k) == Take(Touch(r, k), max)
  {
    if k in Take(r, max) {
      var i :| 0 <= i < |Take(r, max)| && Take(r, max)[i] == k;
      TouchOfTake(r, max, i);
    } else {
      MissOfTake(r, max, k);
    }
  }

  /** A run of lookups leaves exactly the `max` most recently used distinct keys, in order of recency. */
  lemma {:induction false} RunIsMostRecent(max: nat, trace: Keys)
    requires max > 0
    ensures Run(max, Lookups(trace)) == Take(ByRecency(trace), max)
  {
    var es := Lookups(trace);
    if trace != [] {
      var init := trace[..|trace| - 1];
      assert es[..|es| - 1] == Lookups(init);
      RunIsMostRecent(max, init);
      ByRecencyDistinct(init);
      AccessOfTake(ByRecency(init), max, trace[|trace| - 1]);
    }
  }

  function KeysOf(s: Keys): set<nat> {
    set x | x in s
  }

  lemma KeysOfSum(a: Keys, b: Keys)
    ensures KeysOf(a + b) == KeysOf(a) + KeysOf(b)
  {}

  /** Where `k` was used last. */
  function LastUse(trace: Keys, k: nat): (l: nat)
    requires k in trace
    ensures l < |trace| && trace[l] == k && k !in trace[l + 1..]
  {
    var n := |trace| - 1;
    if trace[n] == k then n
    else
      assert trace == trace[..n] + [trace[n]];
      var l := LastUse(trace[..n], k);
      assert trace[l + 1..] == trace[..n][l + 1..] + [trace[n]];
      l
  }

  /** The keys used since `k` was. */
  function UsedSince(trace: Keys, k: nat): set<nat>
    requires k in trace
  {
    KeysOf(trace[LastUse(trace, k) + 1..])
  }

  /** What one more use adds to the keys used since. */
  lemma UsedSinceNext(trace: Keys, k: nat, last: nat)
    requires k in trace
    ensures UsedSince(trace + [last], k) == if k == last then {} else UsedSince(trace, k) + {last}
  {
    var all := trace + [last];
    assert all[..|trace|] == trace;
    if k != last {
      var l := LastUse(trace, k);
      assert LastUse(all, k) == l;
      assert all[l + 1..] == trace[l + 1..] + [last];
      KeysOfSum(trace[l + 1..], [last]);
    }
  }

  /** The order of recency holds just the keys of the trace, and before each of them stand the keys used since. */
  ghost predicate OrderedByUse(order: Keys, trace: Keys) {
    && (forall k :: k in order <==> k in trace)
    && forall i :: 0 <= i < |order| ==> order[i] in trace && KeysOf(order[..i]) == UsedSince(trace, order[i])
  }

  /** Using a key that was used before moves it in front of the keys used since. */
  lemma TouchKeepsOrder(order: Keys, trace: Keys, k: nat)
    requires Distinct(order) && OrderedByUse(order, trace)
    ensures OrderedByUse(Touch(order, k), trace + [k])
  {
    var next, all := Touch(order, k), trace + [k];
    forall i | 0 <= i < |next|
      ensures KeysOf(next[..i]) == UsedSince(all, next[i])
    {
      if i == 0 {
        assert LastUse(all, k) == |trace|;
      } else {
        var at := TouchShifts(order, k, i);
        UsedSinceNext(trace, order[at], k);
      }
    }
  }

  /** Behind the front, moving `k` there leaves each key with what stood before it, and adds `k`. */
  lemma TouchShifts(order: Keys, k: nat, i: nat) returns (at: nat)
    requires Distinct(order) && 0 < i < |Touch(order, k)|
    ensures at < |order| && Touch(order, k)[i] == order[at] != k
    ensures KeysOf(Touch(order, k)[..i]) == KeysOf(order[..at]) + {k}
  {
    var next := Touch(order, k);
    if k in order {
      var j :| 0 <= j < |order| && order[j] == k;
      WithoutAt(order, j);
      if i <= j {
        at := i - 1;
        assert next[..i] == [k] + order[..at];
        KeysOfSum([k], order[..at]);
      } else {
        at := i;
        assert next[..i] == [k] + (order[..j] + order[j + 1..i]);
        KeysOfSum([k], order[..j] + order[j + 1..i]);
        KeysOfSum(order[..j], order[j + 1..i]);
        assert order[..i] == order[..j] + ([k] + order[j + 1..i]);
        KeysOfSum(order[..j], [k] + order[j + 1..i]);
        KeysOfSum([k], order[j + 1..i]);
      }
    } else {
      at := i - 1;
      WithoutAbsent(order, k);
      assert next[..i] == [k] + order[..at];
      KeysOfSum([k], order[..at]);
    }
  }

  /** The order of recency of a trace, without reference to how it came about. */
  lemma {:induction false} ByRecencyIsByLastUse(trace: Keys)
    ensures OrderedByUse(ByRecency(trace), trace)
  {
    if trace != [] {
      var n := |trace| - 1;
      ByRecencyIsByLastUse(trace[..n]);
      ByRecencyDistinct(trace[..n]);
      TouchKeepsOrder(ByRecency(trace[..n]), trace[..n], trace[n]);
      assert trace == trace[..n] + [trace[n]];
    }
  }

  lemma {:induction false} DistinctCount(s: Keys)
    requires Distinct(s)
    ensures |KeysOf(s)| == |s|
  {
    if s != [] {
      var n := |s| - 1;
      DistinctCount(s[..n]);
      assert KeysOf(s) == KeysOf(s[..n]) + {s[n]};
    }
  }

  /**
    The next lookup of `k` hits if and only if `k` was used before and fewer than `max` distinct other keys were used
    since.
   */
  lemma HitIffRecent(max: nat, trace: Keys, k: nat)
    requires max > 0
    ensures k in Run(max, Lookups(trace)) <==> k in trace && |UsedSince(trace, k)| < max
  {
    RunIsMostRecent(max, trace);
    ByRecencyIsByLastUse(trace);
    ByRecencyDistinct(trace);
    var order := ByRecency(trace);
    if k in trace {
      var i :| 0 <= i < |order| && order[i] == k;
      DistinctCount(order[..i]);
    }
  }

  // ---------------------------------------------------------------------------------------------------------------
  // Byte budgets
  // ---------------------------------------------------------------------------------------------------------------

  /** The bytes held under the keys of `s`. */
  function Total(s: Keys, size: map<nat, nat>): nat {
    if s == [] then 0
    else Total(s[..|s| - 1], size) + (if s[|s| - 1] in size then size[s[|s| - 1]] else 0)
  }

  /** Evict from the back until the budget is met. */
  function Fit(s: Keys, size: map<nat, nat>, budget: nat): Keys {
    if s == [] || Total(s, size) <= budget then s else Fit(s[..|s| - 1], size, budget)
  }

  /** What stays is the longest prefix, so the most recent keys, that fits the budget. */
  lemma {:induction false} FitIsLongest(s: Keys, size: map<nat, nat>, budget: nat)
    ensures var p := Fit(s, size, budget);
            && p <= s && Total(p, size) <= budget
            && forall n :: |p| < n <= |s| ==> Total(s[..n], size) > budget
  {
    if s != [] && Total(s, size) > budget {
      var init := s[..|s| - 1];
      FitIsLongest(init, size, budget);
      var p := Fit(s, size, budget);
      forall n | |p| < n <= |s|
        ensures Total(s[..n], size) > budget
      {
        if n == |s| {
          assert s[..n] == s;
        } else {
          assert s[..n] == init[..n];
        }
      }
    } else {
      assert s[..|s|] == s;
    }
  }

  /** A new block that fits the budget stays, in front. */
  lemma FittingStays(s: Keys, k: nat, size: map<nat, nat>, budget: nat)
    requires k in size && size[k] <= budget
    ensures var p := Fit([k] + s, size, budget); p != [] && p[0] == k
  {
    FitIsLongest([k] + s, size, budget);
    assert ([k] + s)[..1] == [k] && [k][..0] == [];
  }

  /** A new block larger than the whole budget empties the cache. */
  lemma OversizedEmpties(s: Keys, k: nat, size: map<nat, nat>, budget: nat)
    requires k in size && size[k] > budget
    ensures Fit([k] + s, size, budget) == []
  {
    FitIsLongest([k] + s, size, budget);
    var p := Fit([k] + s, size, budget);
    if p != [] {
      TotalAtLeastFirst(p, size);
    }
  }

  lemma {:induction false} TotalAtLeastFirst(s: Keys, size: map<nat, nat>)
    requires s != [] && s[0] in size
    ensures Total(s, size) >= size[s[0]]
  {
    if |s| > 1 {
      TotalAtLeastFirst(s[..|s| - 1], size);
    } else {
      assert s[..0] == [];
    }
  }

  // ---------------------------------------------------------------------------------------------------------------
  // Inclusion between byte budgets
  // ---------------------------------------------------------------------------------------------------------------

  /** An event at the byte-budgeted level; a lookup is a get, followed by a put if it missed. */
  function ByteStep(s: Keys, size: map<nat, nat>, budget: nat, e: Event): Keys {
    match e
    case Lookup(k) => if k in s then Touch(s, k) else Fit([k] + s, size, budget)
    case Invalidate(k) => Without(s, k)
    case Clear => []
  }

  function ByteRun(size: map<nat, nat>, budget: nat, es: seq<Event>): Keys {
    if es == [] then [] else ByteStep(ByteRun(size, budget, es[..|es| - 1]), size, budget, es[|es| - 1])
  }

  /** The prefix that fits a smaller budget of a shorter list is a prefix of what fits a larger one. */
  lemma FitKeepsPrefix(s: Keys, l: Keys, size: map<nat, nat>, b: nat, b': nat)
    requires s <= l && b <= b'
    ensures Fit(s, size, b) <= Fit(l, size, b')
  {
    FitIsLongest(s, size, b);
    FitIsLongest(l, size, b');
    var p, q := Fit(s, size, b), Fit(l, size, b');
    assert l[..|p|] == p;
    assert |p| <= |q|;
  }

  lemma ByteStepKeepsPrefix(s: Keys, l: Keys, size: map<nat, nat>, b: nat, b': nat, e: Event)
    requires s <= l && b <= b'
    ensures ByteStep(s, size, b, e) <= ByteStep(l, size, b', e)
  {
    match e
    case Lookup(k) =>
      WithoutPrefix(s, l, k);
      if k !in s {
        WithoutAbsent(s, k);
        if k in l {
          FitIsLongest([k] + s, size, b);
          assert [k] + s <= Touch(l, k);
        } else {
          FitKeepsPrefix([k] + s, [k] + l, size, b, b');
        }
      }
    case Invalidate(k) => WithoutPrefix(s, l, k);
    case Clear =>
  }

  /** Replay one run through two byte budgets: the smaller one's list is always a prefix of the larger one's. */
  lemma {:induction false} ByteInclusion(size: map<nat, nat>, b: nat, b': nat, es: seq<Event>)
    requires b <= b'
    ensures ByteRun(size, b, es) <= ByteRun(size, b', es)
  {
    if es != [] {
      var init := es[..|es| - 1];
      ByteInclusion(size, b, b', init);
      ByteStepKeepsPrefix(ByteRun(size, b, init), ByteRun(size, b', init), size, b, b', es[|es| - 1]);
    }
  }
}
