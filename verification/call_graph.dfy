/**
 * The call-site graph of readalloc (CallSite.cpp): each call site keeps counters and a
 * vector of onward calls, one per call site it was seen to call.
 *
 * Targets are compared by pointer in the C++ code; here they are class references and
 * compared by reference equality. add_onward_call returns a reference into the vector;
 * here it returns the index of that edge.
 */
module CallGraph {
  import opened Wrappers

  /** An edge to the call site next, with its own counters. */
  datatype OnwardCall = OnwardCall(next: CallSite, timesCalled: nat, cumAlloc: nat)

  /** The index of the first edge whose target is site, if any. */
  function FindEdge(edges: seq<OnwardCall>, site: CallSite): (r: Option<nat>)
    ensures r.Some? ==> r.value < |edges| && edges[r.value].next == site
    ensures r.Some? ==> forall j :: 0 <= j < r.value ==> edges[j].next != site
    ensures r.None? <==> forall j :: 0 <= j < |edges| ==> edges[j].next != site
  {
    if edges == [] then None
    else if edges[0].next == site then Some(0)
    else
      match FindEdge(edges[1..], site)
      case None => None
      case Some(i) => Some(i + 1)
  }

  /**
   * The edge list after add_onward_call(site), and the index of the edge it returns:
   * the first existing edge to site, or a new zero-cost edge appended at the end.
   */
  function AddEdge(edges: seq<OnwardCall>, site: CallSite): (r: (seq<OnwardCall>, nat))
  {
    match FindEdge(edges, site)
    case Some(i) => (edges, i)
    case None => (edges + [OnwardCall(site, 0, 0)], |edges|)
  }

  /** At most one edge per distinct target. */
  predicate DistinctTargets(edges: seq<OnwardCall>)
  {
    forall i, j :: 0 <= i < j < |edges| ==> edges[i].next != edges[j].next
  }

  /** An edge with both counters reset. */
  function Cleared(e: OnwardCall): OnwardCall
  {
    e.(timesCalled := 0, cumAlloc := 0)
  }

  /** The edge list after clear_costs: same edges, same order, counters zero. */
  function ClearedEdges(edges: seq<OnwardCall>): (r: seq<OnwardCall>)
    ensures |r| == |edges|
    ensures forall j :: 0 <= j < |edges| ==> r[j].next == edges[j].next
    ensures forall j :: 0 <= j < |edges| ==> r[j].timesCalled == 0 && r[j].cumAlloc == 0
  {
    if edges == [] then [] else [Cleared(edges[0])] + ClearedEdges(edges[1..])
  }

  /** The returned edge targets site, and every edge that was there is kept unchanged. */
  lemma AddEdgeTargetsSite(edges: seq<OnwardCall>, site: CallSite)
    ensures var (after, i) := AddEdge(edges, site);
      && i < |after| && after[i].next == site
      && |edges| <= |after| <= |edges| + 1
      && after[..|edges|] == edges
  {
  }

  /** The list grows, by an edge at the end, exactly when no edge to site existed. */
  lemma AddEdgeGrowsIffAbsent(edges: seq<OnwardCall>, site: CallSite)
    ensures var (after, i) := AddEdge(edges, site);
      && (|after| == |edges| + 1 <==> forall j :: 0 <= j < |edges| ==> edges[j].next != site)
      && (|after| == |edges| + 1 ==> i == |edges| && after[i] == OnwardCall(site, 0, 0))
  {
  }

  /** A second add_onward_call(site) returns the same edge and leaves the list as it is. */
  lemma {:induction false} AddEdgeIdempotent(edges: seq<OnwardCall>, site: CallSite)
    ensures var (after, i) := AddEdge(edges, site);
      AddEdge(after, site) == (after, i)
  {
    var (after, i) := AddEdge(edges, site);
    if FindEdge(edges, site).None? {
      assert after[|edges|].next == site;
      var k := FindEdge(after, site);
      assert k.Some? by {
        assert !(forall j :: 0 <= j < |after| ==> after[j].next != site);
      }
      assert forall j :: 0 <= j < |edges| ==> after[j].next != site;
    }
  }

  /** add_onward_call keeps the edges to distinct targets. */
  lemma AddEdgePreservesDistinct(edges: seq<OnwardCall>, site: CallSite)
    requires DistinctTargets(edges)
    ensures DistinctTargets(AddEdge(edges, site).0)
  {
  }

  /** Clearing twice is clearing once. */
  lemma ClearedEdgesIdempotent(edges: seq<OnwardCall>)
    ensures ClearedEdges(ClearedEdges(edges)) == ClearedEdges(edges)
  {
  }

  /** Clearing keeps the number, order and targets of the edges, so also their distinctness. */
  lemma ClearedEdgesKeepTargets(edges: seq<OnwardCall>)
    ensures DistinctTargets(ClearedEdges(edges)) <==> DistinctTargets(edges)
  {
  }

  class CallSite {
    var timesCalled: nat
    var cumAlloc: nat
    var onwardCalls: seq<OnwardCall>

    /** CallSite::add_onward_call */
    method AddOnwardCall(nextSite: CallSite) returns (index: nat)
      modifies this`onwardCalls
      ensures (onwardCalls, index) == AddEdge(old(onwardCalls), nextSite)
      ensures index < |onwardCalls| && onwardCalls[index].next == nextSite
      ensures forall j :: 0 <= j < index ==> onwardCalls[j].next != nextSite
    {
      var i := 0;
      while i < |onwardCalls|
        invariant 0 <= i <= |onwardCalls|
        invariant forall j :: 0 <= j < i ==> onwardCalls[j].next != nextSite
      {
        if onwardCalls[i].next == nextSite {
          return i;
        }
        i := i + 1;
      }
      onwardCalls := onwardCalls + [OnwardCall(nextSite, 0, 0)];
      index := |onwardCalls| - 1;
    }

    /** CallSite::clear_costs: only this site and its own edges change. */
    method ClearCosts()
      modifies this
      ensures timesCalled == 0 && cumAlloc == 0
      ensures onwardCalls == ClearedEdges(old(onwardCalls))
    {
      timesCalled := 0;
      cumAlloc := 0;
      var i := 0;
      while i < |onwardCalls|
        invariant timesCalled == 0 && cumAlloc == 0
        invariant 0 <= i <= |onwardCalls| == |old(onwardCalls)|
        invariant forall j :: 0 <= j < i ==> onwardCalls[j] == Cleared(old(onwardCalls[j]))
        invariant forall j :: i <= j < |onwardCalls| ==> onwardCalls[j] == old(onwardCalls[j])
      {
        onwardCalls := onwardCalls[i := onwardCalls[i].(timesCalled := 0, cumAlloc := 0)];
        i := i + 1;
      }
    }
  }
}
