/**
 The LRU-K evictor: per-frame access histories and two ordered sets of evictable frames
 (lib/pager/bufferpool/evictor.h, lib/pager/bufferpool/lruk.cpp).

 What it is meant to choose is defined on the trace of everything that happened to it.
 */
module EvictorModel {
  import opened Pages

  type FrameId = nat

  // ---------- the trace and the victim it determines ----------

  /** An access, a call that marks a frame, or a frame that left the evictor. */
  datatype Event = Access(f: FrameId) | Mark(f: FrameId, evictable: bool) | Gone(f: FrameId)

  type Trace = seq<Event>

  ghost function Clock(tr: Trace): nat {
    if tr == [] then 0
    else Clock(tr[..|tr| - 1]) + if tr[|tr| - 1].Access? then 1 else 0
  }

  /** The times of the accesses to a frame since it was admitted, oldest first. */
  ghost function Accesses(tr: Trace, f: FrameId): seq<nat> {
    if tr == [] then []
    else
      var before := Accesses(tr[..|tr| - 1], f);
      match tr[|tr| - 1]
      case Access(g) => if g == f then before + [Clock(tr[..|tr| - 1])] else before
      case Gone(g) => if g == f then [] else before
      case Mark(_, _) => before
  }

  /** Marking a frame that was not admitted does nothing. */
  ghost predicate IsEvictable(tr: Trace, f: FrameId) {
    tr != [] &&
    var before := IsEvictable(tr[..|tr| - 1], f);
    match tr[|tr| - 1]
    case Access(_) => before
    case Gone(g) => g != f && before
    case Mark(g, e) => if g == f && Accesses(tr[..|tr| - 1], f) != [] then e else before
  }

  /** The time that ranks a frame: of its first access, or of its k-th most recent one. */
  ghost function RankTime(tr: Trace, k: nat, f: FrameId): nat
    requires k > 0 && Accesses(tr, f) != []
  {
    var a := Accesses(tr, f);
    if |a| < k then a[0] else a[|a| - k]
  }

  ghost predicate FewAccesses(tr: Trace, k: nat, f: FrameId) {
    |Accesses(tr, f)| < k
  }

  /** The LRU-K victim: the evictable frame with fewer than k accesses whose first access is
      earliest; without one, that whose k-th most recent access is earliest. */
  ghost predicate IsVictim(tr: Trace, k: nat, f: FrameId)
    requires k > 0
  {
    && IsEvictable(tr, f) && Accesses(tr, f) != []
    && forall g :: IsEvictable(tr, g) && Accesses(tr, g) != [] && g != f ==>
         if FewAccesses(tr, k, f) == FewAccesses(tr, k, g) then RankTime(tr, k, f) < RankTime(tr, k, g)
         else FewAccesses(tr, k, f)
  }

  ghost predicate NoneEvictable(tr: Trace) {
    forall f :: !IsEvictable(tr, f)
  }

  lemma VictimUnique(tr: Trace, k: nat, f: FrameId, g: FrameId)
    requires k > 0 && IsVictim(tr, k, f) && IsVictim(tr, k, g)
    ensures f == g
  {
  }

  // ---------- facts about traces ----------

  ghost function Snoc(tr: Trace, e: Event): (r: Trace)
    ensures |r| == |tr| + 1 && r[..|tr|] == tr && r[|tr|] == e
  {
    tr + [e]
  }

  /** Access times rise and lie in the past. */
  lemma {:induction false} TimesRise(tr: Trace, f: FrameId)
    ensures forall i, j :: 0 <= i < j < |Accesses(tr, f)| ==> Accesses(tr, f)[i] < Accesses(tr, f)[j]
    ensures forall i :: 0 <= i < |Accesses(tr, f)| ==> Accesses(tr, f)[i] < Clock(tr)
    ensures IsEvictable(tr, f) ==> Accesses(tr, f) != []
    decreases |tr|
  {
    if tr != [] {
      TimesRise(tr[..|tr| - 1], f);
    }
  }

  /** No two frames are accessed at one time. */
  lemma {:induction false} TimesApart(tr: Trace, f: FrameId, i: nat, g: FrameId, j: nat)
    requires f != g && i < |Accesses(tr, f)| && j < |Accesses(tr, g)|
    ensures Accesses(tr, f)[i] != Accesses(tr, g)[j]
    decreases |tr|
  {
    var before := tr[..|tr| - 1];
    TimesRise(before, f);
    TimesRise(before, g);
    if i < |Accesses(before, f)| && j < |Accesses(before, g)| {
      TimesApart(before, f, i, g, j);
    }
  }

  lemma RankTimesApart(tr: Trace, k: nat, f: FrameId, g: FrameId)
    requires k > 0 && f != g && Accesses(tr, f) != [] && Accesses(tr, g) != []
    ensures RankTime(tr, k, f) != RankTime(tr, k, g)
  {
    var a, b := Accesses(tr, f), Accesses(tr, g);
    TimesApart(tr, f, if |a| < k then 0 else |a| - k, g, if |b| < k then 0 else |b| - k);
  }

  ghost function LastOf(s: seq<nat>, k: nat): (r: seq<nat>)
    ensures |r| == if |s| <= k then |s| else k
  {
    if |s| <= k then s else s[|s| - k..]
  }

  // ---------- the evictor ----------

  datatype LRUKNode = LRUKNode(history: seq<nat>, isEvictable: bool)

  /** An entry of an ordered set: time first, then frame. */
  type Entry = (nat, FrameId)

  predicate Before(a: Entry, b: Entry) {
    a.0 < b.0 || (a.0 == b.0 && a.1 < b.1)
  }

  /** `begin()` of an ordered set. */
  method FirstEntry(s: set<Entry>) returns (x: Entry)
    requires s != {}
    ensures x in s && forall y :: y in s && y != x ==> Before(x, y)
  {
    x :| x in s;
    var rest := s - {x};
    while rest != {}
      invariant x in s && rest <= s - {x}
      invariant forall y :: y in s && y !in rest && y != x ==> Before(x, y)
      decreases |rest|
    {
      var y :| y in rest;
      rest := rest - {y};
      if Before(y, x) {
        x := y;
      }
    }
  }

  ghost predicate NodeOk(tr: Trace, k: nat, nodes: map<FrameId, LRUKNode>, f: FrameId) {
    && (f in nodes <==> Accesses(tr, f) != [])
    && (f in nodes ==> nodes[f] == LRUKNode(LastOf(Accesses(tr, f), k), IsEvictable(tr, f)))
  }

  /** The entry that an evictable frame is ranked by. */
  ghost predicate IsRank(tr: Trace, k: nat, e: Entry)
    requires k > 0
  {
    IsEvictable(tr, e.1) && Accesses(tr, e.1) != [] && e.0 == RankTime(tr, k, e.1)
  }

  ghost predicate EntryOk(tr: Trace, k: nat, less: set<Entry>, full: set<Entry>, e: Entry)
    requires k > 0
  {
    && (e in less <==> IsRank(tr, k, e) && FewAccesses(tr, k, e.1))
    && (e in full <==> IsRank(tr, k, e) && !FewAccesses(tr, k, e.1))
  }

  /** The nodes and the two ordered sets hold exactly what the trace says. */
  ghost predicate Reflects(tr: Trace, k: nat, nodes: map<FrameId, LRUKNode>, less: set<Entry>, full: set<Entry>) {
    && k > 0
    && (forall f {:trigger NodeOk(tr, k, nodes, f)} :: NodeOk(tr, k, nodes, f))
    && (forall e {:trigger EntryOk(tr, k, less, full, e)} :: EntryOk(tr, k, less, full, e))
  }

  /** An event about one frame changes nothing for the others. */
  lemma Unaffected(tr: Trace, e: Event, g: FrameId)
    requires e.f != g
    ensures Accesses(Snoc(tr, e), g) == Accesses(tr, g) && IsEvictable(Snoc(tr, e), g) == IsEvictable(tr, g)
  {
  }

  /** What an event does to its own frame. */
  lemma Affected(tr: Trace, e: Event)
    ensures var tr' := Snoc(tr, e);
            match e
            case Access(f) => Accesses(tr', f) == Accesses(tr, f) + [Clock(tr)]
              && IsEvictable(tr', f) == IsEvictable(tr, f)
            case Gone(f) => Accesses(tr', f) == [] && !IsEvictable(tr', f)
            case Mark(f, b) => Accesses(tr', f) == Accesses(tr, f)
                               && IsEvictable(tr', f) == if Accesses(tr, f) != [] then b else IsEvictable(tr, f)
  {
  }

  /** When node and entries of the event's frame are right and those of other frames unchanged,
      everything is. */
  lemma StillReflects(tr: Trace, e: Event, k: nat, nodes: map<FrameId, LRUKNode>, less: set<Entry>, full: set<Entry>,
                      nodes': map<FrameId, LRUKNode>, less': set<Entry>, full': set<Entry>)
    requires Reflects(tr, k, nodes, less, full)
    requires NodeOk(Snoc(tr, e), k, nodes', e.f)
    requires forall t: nat :: EntryOk(Snoc(tr, e), k, less', full', (t, e.f))
    requires forall g :: g != e.f ==> (g in nodes' <==> g in nodes) && (g in nodes ==> nodes'[g] == nodes[g])
    requires forall x: Entry :: x.1 != e.f ==> (x in less' <==> x in less) && (x in full' <==> x in full)
    ensures Reflects(Snoc(tr, e), k, nodes', less', full')
  {
    var tr' := Snoc(tr, e);
    forall g
      ensures NodeOk(tr', k, nodes', g)
    {
      if g != e.f {
        Unaffected(tr, e, g);
        assert NodeOk(tr, k, nodes, g);
      }
    }
    forall x: Entry
      ensures EntryOk(tr', k, less', full', x)
    {
      if x.1 != e.f {
        Unaffected(tr, e, x.1);
        assert EntryOk(tr, k, less, full, x);
      } else {
        assert x == (x.0, e.f);
      }
    }
  }

  /** The oldest time a node keeps is the time that ranks its frame, so that its one entry can be
      found from the node. */
  lemma RankOfNode(tr: Trace, k: nat, nodes: map<FrameId, LRUKNode>, less: set<Entry>, full: set<Entry>, f: FrameId)
    requires Reflects(tr, k, nodes, less, full) && f in nodes
    ensures Accesses(tr, f) != []
    ensures var n := nodes[f];
            && n.history != [] && n.history[0] == RankTime(tr, k, f)
            && (|n.history| < k <==> FewAccesses(tr, k, f))
            && (forall t: nat :: (t, f) in less <==> n.isEvictable && FewAccesses(tr, k, f) && t == n.history[0])
            && (forall t: nat :: (t, f) in full <==> n.isEvictable && !FewAccesses(tr, k, f) && t == n.history[0])
  {
    assert NodeOk(tr, k, nodes, f);
    forall t: nat
      ensures (t, f) in less <==> nodes[f].isEvictable && FewAccesses(tr, k, f) && t == nodes[f].history[0]
      ensures (t, f) in full <==> nodes[f].isEvictable && !FewAccesses(tr, k, f) && t == nodes[f].history[0]
    {
      assert EntryOk(tr, k, less, full, (t, f));
    }
  }

  lemma NoNode(tr: Trace, k: nat, nodes: map<FrameId, LRUKNode>, less: set<Entry>, full: set<Entry>, f: FrameId)
    requires Reflects(tr, k, nodes, less, full) && f !in nodes
    ensures Accesses(tr, f) == [] && !IsEvictable(tr, f)
    ensures forall t: nat :: (t, f) !in less && (t, f) !in full
  {
    assert NodeOk(tr, k, nodes, f);
    TimesRise(tr, f);
    forall t: nat
      ensures (t, f) !in less && (t, f) !in full
    {
      assert EntryOk(tr, k, less, full, (t, f));
    }
  }

  /** Appending a time and dropping the oldest of more than k keeps the last k. */
  lemma LastOfMore(a: seq<nat>, ts: nat, k: nat)
    requires k > 0
    ensures var h := LastOf(a, k) + [ts]; LastOf(a + [ts], k) == if |h| > k then h[1..] else h
  {
  }

  /** Once the old entry of a frame is out, the entry made from its node is the right one. */
  lemma EntryPlaced(tr: Trace, k: nat, nodes: map<FrameId, LRUKNode>, less: set<Entry>, full: set<Entry>, f: FrameId)
    requires k > 0 && NodeOk(tr, k, nodes, f) && f in nodes
    requires forall t: nat :: (t, f) !in less && (t, f) !in full
    ensures var n := nodes[f];
            && n.history != []
            && var x := (n.history[0], f);
               forall t: nat :: EntryOk(tr, k, if n.isEvictable && |n.history| < k then less + {x} else less,
                                               if n.isEvictable && |n.history| >= k then full + {x} else full, (t, f))
  {
  }

  /** The node of a frame as it was, or the one `record_access` makes. */
  ghost function NodeOr(nodes: map<FrameId, LRUKNode>, f: FrameId): LRUKNode {
    if f in nodes then nodes[f] else LRUKNode([], false)
  }

  ghost function NodeAccessed(n: LRUKNode, k: nat, ts: nat): LRUKNode
    requires k > 0
  {
    var h := n.history + [ts];
    n.(history := if |h| > k then h[1..] else h)
  }

  lemma NodeAfterAccess(tr: Trace, k: nat, nodes: map<FrameId, LRUKNode>, less: set<Entry>, full: set<Entry>,
                        f: FrameId)
    requires Reflects(tr, k, nodes, less, full)
    ensures NodeOk(Snoc(tr, Access(f)), k, nodes[f := NodeAccessed(NodeOr(nodes, f), k, Clock(tr))], f)
    ensures var n := NodeOr(nodes, f);
            && (n.isEvictable ==> n.history != [])
            && (n.isEvictable && |n.history| < k ==> (n.history[0], f) in less)
            && (n.isEvictable && |n.history| >= k ==> (n.history[0], f) in full)
            && (forall t: nat :: (t, f) in less + full ==> n.isEvictable && n.history != [] && t == n.history[0])
            && (forall t: nat :: (t, f) in less ==> |n.history| < k)
            && (forall t: nat :: (t, f) in full ==> |n.history| >= k)
  {
    Affected(tr, Access(f));
    LastOfMore(Accesses(tr, f), Clock(tr), k);
    assert NodeOk(tr, k, nodes, f);
    if f in nodes {
      RankOfNode(tr, k, nodes, less, full, f);
    } else {
      NoNode(tr, k, nodes, less, full, f);
    }
  }

  /** The three ways `record_access` leaves the entry of its frame. */
  lemma EntriesAfterAccess(tr: Trace, k: nat, nodes: map<FrameId, LRUKNode>, less: set<Entry>, full: set<Entry>,
                           f: FrameId, n': LRUKNode, less': set<Entry>, full': set<Entry>)
    requires Reflects(tr, k, nodes, less, full)
    requires n' == NodeAccessed(NodeOr(nodes, f), k, Clock(tr))
    requires var n := NodeOr(nodes, f);
             var out := if n.history == [] then (0, f) else (n.history[0], f);
             var put := (n'.history[0], f);
             && less' == (if n.isEvictable && |n.history| < k <= |n'.history| then less - {out} else less)
             && full' == if n.isEvictable && |n.history| < k <= |n'.history| then full + {put}
                         else if n.isEvictable && |n.history| >= k then full - {out} + {put} else full
    ensures Reflects(Snoc(tr, Access(f)), k, nodes[f := n'], less', full')
    ensures |less'| + |full'| == |less| + |full|
  {
    EntriesPlaced(tr, k, nodes, less, full, f, n', less', full');
    NodeAfterAccess(tr, k, nodes, less, full, f);
    EntryIsFree(tr, k, nodes, less, full, f);
    EntriesCount(less, full, NodeOr(nodes, f), n', k, f, less', full');
  }

  /** The entry that an access makes is a new one, unless it is the frame's own. */
  lemma EntryIsFree(tr: Trace, k: nat, nodes: map<FrameId, LRUKNode>, less: set<Entry>, full: set<Entry>, f: FrameId)
    requires Reflects(tr, k, nodes, less, full)
    ensures var n, n' := NodeOr(nodes, f), NodeAccessed(NodeOr(nodes, f), k, Clock(tr));
            && n'.history != [] && |n.history| <= |n'.history|
            && (|n.history| < k ==> (n'.history[0], f) !in full)
            && ((n'.history[0], f) in full ==> n.history != [] && n'.history[0] == n.history[0])
  {
    NodeAfterAccess(tr, k, nodes, less, full, f);
    assert NodeOk(tr, k, nodes, f);
  }

  lemma EntriesPlaced(tr: Trace, k: nat, nodes: map<FrameId, LRUKNode>, less: set<Entry>, full: set<Entry>,
                      f: FrameId, n': LRUKNode, less': set<Entry>, full': set<Entry>)
    requires Reflects(tr, k, nodes, less, full)
    requires n' == NodeAccessed(NodeOr(nodes, f), k, Clock(tr))
    requires var n := NodeOr(nodes, f);
             var out := if n.history == [] then (0, f) else (n.history[0], f);
             var put := (n'.history[0], f);
             && less' == (if n.isEvictable && |n.history| < k <= |n'.history| then less - {out} else less)
             && full' == if n.isEvictable && |n.history| < k <= |n'.history| then full + {put}
                         else if n.isEvictable && |n.history| >= k then full - {out} + {put} else full
    ensures Reflects(Snoc(tr, Access(f)), k, nodes[f := n'], less', full')
  {
    var tr', nodes' := Snoc(tr, Access(f)), nodes[f := n'];
    NodeAfterAccess(tr, k, nodes, less, full, f);
    var n := NodeOr(nodes, f);
    var less0, full0 := less - {(n'.history[0], f)}, full - {(n'.history[0], f)};
    if n.history != [] {
      less0, full0 := less - {(n.history[0], f)}, full - {(n.history[0], f)};
    }
    EntryPlaced(tr', k, nodes', less0, full0, f);
    StillReflects(tr, Access(f), k, nodes, less, full, nodes', less', full');
  }

  /** Moving an entry leaves the number of entries. */
  lemma EntriesCount(less: set<Entry>, full: set<Entry>, n: LRUKNode, n': LRUKNode, k: nat, f: FrameId,
                     less': set<Entry>, full': set<Entry>)
    requires n'.history != [] && |n.history| <= |n'.history|
    requires n.isEvictable && |n.history| < k <= |n'.history| ==>
               n.history != [] && (n.history[0], f) in less && (n'.history[0], f) !in full
               && less' == less - {(n.history[0], f)} && full' == full + {(n'.history[0], f)}
    requires n.isEvictable && |n.history| >= k ==>
               n.history != [] && (n.history[0], f) in full
               && ((n'.history[0], f) in full ==> n'.history[0] == n.history[0])
               && less' == less && full' == full - {(n.history[0], f)} + {(n'.history[0], f)}
    requires !n.isEvictable || |n'.history| < k ==> less' == less && full' == full
    ensures |less'| + |full'| == |less| + |full|
  {
    if n.history != [] {
      Adds(less, (n.history[0], f));
      Adds(full, (n.history[0], f));
      Adds(full, (n'.history[0], f));
      Adds(full - {(n.history[0], f)}, (n'.history[0], f));
    }
  }

  /** A mark that changes a known frame puts its entry in or takes it out. */
  lemma EntriesAfterMark(tr: Trace, k: nat, nodes: map<FrameId, LRUKNode>, less: set<Entry>, full: set<Entry>,
                         f: FrameId, b: bool, less': set<Entry>, full': set<Entry>)
    requires Reflects(tr, k, nodes, less, full) && f in nodes && nodes[f].isEvictable != b && nodes[f].history != []
    requires var x := (nodes[f].history[0], f);
             && less' == (if |nodes[f].history| >= k then less else if b then less + {x} else less - {x})
             && full' == if |nodes[f].history| < k then full else if b then full + {x} else full - {x}
    ensures Reflects(Snoc(tr, Mark(f, b)), k, nodes[f := nodes[f].(isEvictable := b)], less', full')
    ensures |less'| + |full'| == |less| + |full| + if b then 1 else -1
  {
    RankOfNode(tr, k, nodes, less, full, f);
    Adds(less, (nodes[f].history[0], f));
    Adds(full, (nodes[f].history[0], f));
    MarkedNode(tr, k, nodes, less, full, f, b, less', full');
    StillReflects(tr, Mark(f, b), k, nodes, less, full, nodes[f := nodes[f].(isEvictable := b)], less', full');
  }

  /** Node and entries of the frame that is marked. */
  lemma MarkedNode(tr: Trace, k: nat, nodes: map<FrameId, LRUKNode>, less: set<Entry>, full: set<Entry>,
                   f: FrameId, b: bool, less': set<Entry>, full': set<Entry>)
    requires Reflects(tr, k, nodes, less, full) && f in nodes && nodes[f].isEvictable != b && nodes[f].history != []
    requires var x := (nodes[f].history[0], f);
             && less' == (if |nodes[f].history| >= k then less else if b then less + {x} else less - {x})
             && full' == if |nodes[f].history| < k then full else if b then full + {x} else full - {x}
    ensures NodeOk(Snoc(tr, Mark(f, b)), k, nodes[f := nodes[f].(isEvictable := b)], f)
    ensures forall t: nat :: EntryOk(Snoc(tr, Mark(f, b)), k, less', full', (t, f))
  {
    Affected(tr, Mark(f, b));
    assert NodeOk(tr, k, nodes, f);
    RankOfNode(tr, k, nodes, less, full, f);
  }

  /** A mark changes nothing for a frame that is not known, or that has it already. */
  lemma SameMark(tr: Trace, k: nat, nodes: map<FrameId, LRUKNode>, less: set<Entry>, full: set<Entry>, f: FrameId,
                 b: bool)
    requires Reflects(tr, k, nodes, less, full) && (f in nodes ==> nodes[f].isEvictable == b)
    ensures Reflects(Snoc(tr, Mark(f, b)), k, nodes, less, full)
  {
    Affected(tr, Mark(f, b));
    assert NodeOk(tr, k, nodes, f);
    if f in nodes {
      RankOfNode(tr, k, nodes, less, full, f);
    } else {
      NoNode(tr, k, nodes, less, full, f);
    }
    StillReflects(tr, Mark(f, b), k, nodes, less, full, nodes, less, full);
  }

  /** A frame taken out together with its entry. */
  lemma FrameGone(tr: Trace, k: nat, nodes: map<FrameId, LRUKNode>, less: set<Entry>, full: set<Entry>, f: FrameId,
                  less': set<Entry>, full': set<Entry>)
    requires Reflects(tr, k, nodes, less, full) && f in nodes && nodes[f].history != []
    requires var n := nodes[f]; var x := (n.history[0], f);
             && less' == (if n.isEvictable && |n.history| < k then less - {x} else less)
             && full' == (if n.isEvictable && |n.history| >= k then full - {x} else full)
    ensures Reflects(Snoc(tr, Gone(f)), k, nodes - {f}, less', full')
    ensures |less'| + |full'| == |less| + |full| - if nodes[f].isEvictable then 1 else 0
  {
    Affected(tr, Gone(f));
    RankOfNode(tr, k, nodes, less, full, f);
    var x := (nodes[f].history[0], f);
    Adds(less, x);
    Adds(full, x);
    StillReflects(tr, Gone(f), k, nodes, less, full, nodes - {f}, less', full');
  }

  /** The entry of an evictable frame leads back to its node. */
  lemma NodeOfEntry(tr: Trace, k: nat, nodes: map<FrameId, LRUKNode>, less: set<Entry>, full: set<Entry>, x: Entry)
    requires Reflects(tr, k, nodes, less, full) && x in less + full
    ensures x.1 in nodes
    ensures var n := nodes[x.1];
            n.isEvictable && n.history != [] && x.0 == n.history[0] && (|n.history| < k <==> x in less)
              && (x in less <==> x !in full)
  {
    assert EntryOk(tr, k, less, full, x);
    assert NodeOk(tr, k, nodes, x.1);
    RankOfNode(tr, k, nodes, less, full, x.1);
  }

  lemma EntryOfFrame(tr: Trace, k: nat, nodes: map<FrameId, LRUKNode>, less: set<Entry>, full: set<Entry>, g: FrameId)
    requires Reflects(tr, k, nodes, less, full) && IsEvictable(tr, g)
    ensures Accesses(tr, g) != []
    ensures if FewAccesses(tr, k, g) then (RankTime(tr, k, g), g) in less else (RankTime(tr, k, g), g) in full
  {
    TimesRise(tr, g);
    assert EntryOk(tr, k, less, full, (RankTime(tr, k, g), g));
  }

  /** The first entry of the set that `evict` looks at is the victim's. */
  lemma FirstIsVictim(tr: Trace, k: nat, nodes: map<FrameId, LRUKNode>, less: set<Entry>, full: set<Entry>, x: Entry)
    requires Reflects(tr, k, nodes, less, full)
    requires x in if less != {} then less else full
    requires forall y :: y in (if less != {} then less else full) && y != x ==> Before(x, y)
    ensures IsVictim(tr, k, x.1)
  {
    assert EntryOk(tr, k, less, full, x);
    forall g | IsEvictable(tr, g) && Accesses(tr, g) != [] && g != x.1
      ensures if FewAccesses(tr, k, x.1) == FewAccesses(tr, k, g) then RankTime(tr, k, x.1) < RankTime(tr, k, g)
              else FewAccesses(tr, k, x.1)
    {
      EntryOfFrame(tr, k, nodes, less, full, g);
      RankTimesApart(tr, k, x.1, g);
      if FewAccesses(tr, k, x.1) == FewAccesses(tr, k, g) {
        assert Before(x, (RankTime(tr, k, g), g));
      }
    }
  }

  lemma Adds<T>(s: set<T>, x: T)
    ensures |s + {x}| == if x in s then |s| else |s| + 1
    ensures |s - {x}| == if x in s then |s| - 1 else |s|
  {
    if x in s {
      assert s + {x} == s && s == (s - {x}) + {x};
    } else {
      assert s - {x} == s;
    }
  }

  class LRUKEvictor {
    const k: nat
    var now: nat
    var evictableSize: nat
    var nodeStore: map<FrameId, LRUKNode>
    var lessThanK: set<Entry>
    var kSet: set<Entry>
    ghost var trace: Trace

    ghost predicate Valid()
      reads this
    {
      && Reflects(trace, k, nodeStore, lessThanK, kSet)
      && now == Clock(trace)
      && evictableSize == |lessThanK| + |kSet|
    }

    constructor (k: nat)
      requires k > 0
      ensures Valid() && trace == [] && this.k == k
    {
      this.k, now, evictableSize, nodeStore, lessThanK, kSet, trace := k, 0, 0, map[], {}, {}, [];
    }

    method RecordAccess(f: FrameId)
      requires Valid()
      modifies this
      ensures Valid() && trace == Snoc(old(trace), Access(f))
    {
      ghost var tr, nodes, less, full := trace, nodeStore, lessThanK, kSet;
      var ts := now;
      now := now + 1;
      var node := if f in nodeStore then nodeStore[f] else LRUKNode([], false);
      var wasLess := |node.history| < k;
      var oldFront := if node.history == [] then 0 else node.history[0];
      var history := node.history + [ts];
      if |history| > k {
        history := history[1..];
      }
      nodeStore := nodeStore[f := node.(history := history)];
      trace := Snoc(trace, Access(f));
      var isLess := |history| < k;
      if node.isEvictable {
        if wasLess && !isLess {
          lessThanK := lessThanK - {(oldFront, f)};
          kSet := kSet + {(history[0], f)};
        } else if !wasLess {
          kSet := kSet - {(oldFront, f)};
          kSet := kSet + {(history[0], f)};
        }
      }
      EntriesAfterAccess(tr, k, nodes, less, full, f, node.(history := history), lessThanK, kSet);
    }

    method SetEvictable(f: FrameId, evictable: bool)
      requires Valid()
      modifies this
      ensures Valid() && trace == Snoc(old(trace), Mark(f, evictable))
    {
      ghost var tr, nodes, less, full := trace, nodeStore, lessThanK, kSet;
      trace := Snoc(trace, Mark(f, evictable));
      if f !in nodeStore {
        SameMark(tr, k, nodes, less, full, f, evictable);
        return;
      }
      var node := nodeStore[f];
      if node.isEvictable == evictable {
        SameMark(tr, k, nodes, less, full, f, evictable);
        return;
      }
      RankOfNode(tr, k, nodes, less, full, f);
      var isLess := |node.history| < k;
      var keyTs := if node.history == [] then 0 else node.history[0];
      if evictable {
        if isLess {
          lessThanK := lessThanK + {(keyTs, f)};
        } else {
          kSet := kSet + {(keyTs, f)};
        }
        evictableSize := evictableSize + 1;
      } else {
        if isLess {
          lessThanK := lessThanK - {(keyTs, f)};
        } else {
          kSet := kSet - {(keyTs, f)};
        }
        evictableSize := evictableSize - 1;
      }
      nodeStore := nodeStore[f := node.(isEvictable := evictable)];
      EntriesAfterMark(tr, k, nodes, less, full, f, evictable, lessThanK, kSet);
    }

    method Remove(f: FrameId)
      requires Valid()
      modifies this
      ensures Valid() && trace == Snoc(old(trace), Gone(f))
    {
      ghost var tr, nodes, less, full := trace, nodeStore, lessThanK, kSet;
      trace := Snoc(trace, Gone(f));
      if f !in nodeStore {
        Affected(tr, Gone(f));
        NoNode(tr, k, nodes, less, full, f);
        StillReflects(tr, Gone(f), k, nodes, less, full, nodeStore, lessThanK, kSet);
        return;
      }
      RankOfNode(tr, k, nodes, less, full, f);
      var node := nodeStore[f];
      if node.isEvictable {
        var isLess := |node.history| < k;
        var keyTs := if node.history == [] then 0 else node.history[0];
        if isLess {
          lessThanK := lessThanK - {(keyTs, f)};
        } else {
          kSet := kSet - {(keyTs, f)};
        }
        FrameGone(tr, k, nodes, less, full, f, lessThanK, kSet);
        evictableSize := evictableSize - 1;
      }
      nodeStore := nodeStore - {f};
      FrameGone(tr, k, nodes, less, full, f, lessThanK, kSet);
    }

    /** Takes the LRU-K victim out; nothing exactly when no frame is evictable. */
    method Evict() returns (victim: Option<FrameId>)
      requires Valid()
      modifies this
      ensures Valid()
      ensures victim == None <==> NoneEvictable(old(trace))
      ensures victim == None ==> trace == old(trace)
      ensures victim != None ==> IsVictim(old(trace), k, victim.value) && trace == Snoc(old(trace), Gone(victim.value))
    {
      ghost var tr, nodes, less, full := trace, nodeStore, lessThanK, kSet;
      if evictableSize == 0 {
        forall f ensures !IsEvictable(tr, f) {
          if IsEvictable(tr, f) { EntryOfFrame(tr, k, nodes, less, full, f); }
        }
        return None;
      }
      var it: Entry;
      if lessThanK != {} {
        it := FirstEntry(lessThanK);
        NodeOfEntry(tr, k, nodes, less, full, it);
        lessThanK := lessThanK - {it};
      } else {
        it := FirstEntry(kSet);
        NodeOfEntry(tr, k, nodes, less, full, it);
        kSet := kSet - {it};
      }
      FirstIsVictim(tr, k, nodes, less, full, it);
      assert IsEvictable(tr, it.1) && !NoneEvictable(tr);
      FrameGone(tr, k, nodes, less, full, it.1, lessThanK, kSet);
      nodeStore := nodeStore - {it.1};
      evictableSize := evictableSize - 1;
      trace := Snoc(trace, Gone(it.1));
      return Some(it.1);
    }

    method Size() returns (n: nat)
      requires Valid()
      ensures n == |lessThanK| + |kSet|
    {
      return evictableSize;
    }
  }
}
