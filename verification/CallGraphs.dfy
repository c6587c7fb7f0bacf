/** Finite call graphs, as the analyzer keeps them: a caller's name mapped to the
    names it calls, in call order and with repetitions. Callees need not be keys. */
module CallGraphs {

  datatype Name = Name(text: string)
  type CallGraph = map<Name, seq<Name>>

  predicate Edge(g: CallGraph, u: Name, v: Name) {
    u in g && v in g[u]
  }

  /** A call path: consecutive names are joined by calls. One name alone is a path. */
  ghost predicate IsPath(g: CallGraph, p: seq<Name>) {
    && |p| > 0
    && (|p| > 1 ==> Edge(g, p[0], p[1]) && IsPath(g, p[1..]))
  }

  /** Read off directly: each name on a path calls the next. */
  lemma {:induction false} PathSteps(g: CallGraph, p: seq<Name>)
    requires |p| > 0
    ensures IsPath(g, p) <==> forall i :: 0 <= i < |p| - 1 ==> Edge(g, p[i], p[i + 1])
    decreases |p|
  {
    if |p| > 1 {
      PathSteps(g, p[1..]);
      if forall i :: 0 <= i < |p| - 1 ==> Edge(g, p[i], p[i + 1]) {
        assert Edge(g, p[0], p[0 + 1]);
        forall i | 0 <= i < |p[1..]| - 1 ensures Edge(g, p[1..][i], p[1..][i + 1]) {
          assert Edge(g, p[i + 1], p[i + 1 + 1]);
        }
      }
      if IsPath(g, p) {
        forall i | 0 <= i < |p| - 1 ensures Edge(g, p[i], p[i + 1]) {
          if i > 0 {
            assert Edge(g, p[1..][i - 1], p[1..][i - 1 + 1]);
          }
        }
      }
    }
  }

  ghost predicate PathFromTo(g: CallGraph, p: seq<Name>, u: Name, v: Name) {
    IsPath(g, p) && p[0] == u && p[|p| - 1] == v
  }

  ghost predicate Reach(g: CallGraph, u: Name, v: Name) {
    exists p :: PathFromTo(g, p, u, v)
  }

  /** v can call itself again through at least one call. */
  ghost predicate OnCallCycle(g: CallGraph, v: Name) {
    exists p :: |p| > 1 && PathFromTo(g, p, v, v)
  }

  ghost predicate Closed(g: CallGraph, s: iset<Name>) {
    forall u, v :: u in s && Edge(g, u, v) ==> v in s
  }

  lemma ReachRefl(g: CallGraph, u: Name)
    ensures Reach(g, u, u)
  {
    assert PathFromTo(g, [u], u, u);
  }

  lemma ReachEdge(g: CallGraph, u: Name, v: Name)
    requires Edge(g, u, v)
    ensures Reach(g, u, v)
  {
    assert PathFromTo(g, [u, v], u, v);
  }

  lemma {:induction false} JoinPaths(g: CallGraph, p: seq<Name>, q: seq<Name>, u: Name, v: Name, w: Name)
    requires PathFromTo(g, p, u, v) && PathFromTo(g, q, v, w)
    ensures PathFromTo(g, p + q[1..], u, w)
    decreases |p|
  {
    if |p| == 1 {
      assert p + q[1..] == q;
    } else {
      JoinPaths(g, p[1..], q, p[1], v, w);
      assert (p + q[1..])[1..] == p[1..] + q[1..];
    }
  }

  lemma ReachTrans(g: CallGraph, u: Name, v: Name, w: Name)
    requires Reach(g, u, v) && Reach(g, v, w)
    ensures Reach(g, u, w)
  {
    var p :| PathFromTo(g, p, u, v);
    var q :| PathFromTo(g, q, v, w);
    JoinPaths(g, p, q, u, v, w);
  }

  /** Calls never leave a closed set. */
  lemma {:induction false} PathStaysInside(g: CallGraph, s: iset<Name>, p: seq<Name>)
    requires Closed(g, s) && IsPath(g, p) && p[0] in s
    ensures p[|p| - 1] in s
    decreases |p|
  {
    if |p| > 1 {
      assert Edge(g, p[0], p[1]);
      PathStaysInside(g, s, p[1..]);
    }
  }

  lemma ReachStaysInside(g: CallGraph, s: iset<Name>, u: Name, v: Name)
    requires Closed(g, s) && u in s && Reach(g, u, v)
    ensures v in s
  {
    var p :| PathFromTo(g, p, u, v);
    PathStaysInside(g, s, p);
  }

  /** A call cycle through v is a call v -> w followed by a way back. */
  lemma CycleViaFirstCall(g: CallGraph, v: Name)
    ensures OnCallCycle(g, v) <==> exists w :: Edge(g, v, w) && Reach(g, w, v)
  {
    if OnCallCycle(g, v) {
      var p :| |p| > 1 && PathFromTo(g, p, v, v);
      assert Edge(g, p[0], p[1]);
      assert PathFromTo(g, p[1..], p[1], v);
      assert Reach(g, p[1], v);
    }
    if w :| Edge(g, v, w) && Reach(g, w, v) {
      var q :| PathFromTo(g, q, w, v);
      var p := [v] + q;
      assert p[1..] == q;
      assert PathFromTo(g, p, v, v);
    }
  }
}
