/** Recursive-function detection: Tarjan's strongly connected components over the call graph. */
module RecursiveFunctions {
  import opened CallGraphs

  /** What the search has recorded: discovery numbers, the component stack (oldest first)
      and the components already emitted. */
  datatype View = View(index: map<Name, nat>, stack: seq<Name>, sccs: seq<seq<Name>>)

  ghost predicate Distinct(s: seq<Name>) {
    forall i, j :: 0 <= i < j < |s| ==> s[i] != s[j]
  }

  ghost predicate Emitted(sccs: seq<seq<Name>>, x: Name) {
    exists k :: 0 <= k < |sccs| && x in sccs[k]
  }

  /** A strongly connected component: mutually reachable members, and nobody left out. */
  ghost predicate IsScc(g: CallGraph, c: seq<Name>) {
    && c != []
    && Distinct(c)
    && (forall x, y {:trigger Reach(g, x, y)} :: x in c && y in c ==> Reach(g, x, y))
    && (forall x, y :: x in c && Reach(g, x, y) && Reach(g, y, x) ==> y in c)
  }

  /** The emitted list: components, pairwise disjoint, every callee emitted no later than its caller. */
  ghost predicate GoodSccs(g: CallGraph, sccs: seq<seq<Name>>) {
    && (forall k :: 0 <= k < |sccs| ==> IsScc(g, sccs[k]))
    && (forall j, k, x {:trigger x in sccs[j], x in sccs[k]} ::
         0 <= j < k < |sccs| && x in sccs[j] ==> x !in sccs[k])
    && (forall k, x, y {:trigger Edge(g, x, y), x in sccs[k]} ::
         0 <= k < |sccs| && x in sccs[k] && Edge(g, x, y) ==> Emitted(sccs[..k + 1], y))
  }

  /** The stack lists indexed, not yet emitted names in discovery order. */
  ghost predicate GoodStack(s: View) {
    && (forall x :: x in s.stack ==> x in s.index)
    && (forall i, j {:trigger s.index[s.stack[i]], s.index[s.stack[j]]} ::
         0 <= i < j < |s.stack| ==> s.index[s.stack[i]] < s.index[s.stack[j]])
    && (forall x :: x in s.index <==> x in s.stack || Emitted(s.sccs, x))
    && (forall x :: x in s.stack ==> !Emitted(s.sccs, x))
  }

  /** Older stack entries reach newer ones. */
  ghost predicate StackReach(g: CallGraph, s: View) {
    forall i, j {:trigger Reach(g, s.stack[i], s.stack[j])} ::
      0 <= i <= j < |s.stack| ==> Reach(g, s.stack[i], s.stack[j])
  }

  /** y reaches a still running call discovered no later than y itself. */
  ghost predicate ReachesActive(g: CallGraph, s: View, active: set<Name>, y: Name) {
    && y in s.index
    && exists x :: x in active && x in s.index && s.index[x] <= s.index[y] && Reach(g, y, x)
  }

  /** Everything on the stack reaches a running call; finished names have no undiscovered callees. */
  ghost predicate ActiveInv(g: CallGraph, s: View, active: set<Name>) {
    && (forall x :: x in active ==> x in s.stack)
    && (forall y {:trigger ReachesActive(g, s, active, y)} :: y in s.stack ==> ReachesActive(g, s, active, y))
    && (forall x, y :: x in s.index && x !in active && Edge(g, x, y) ==> y in s.index)
  }

  /** The invariant of the search; `active` are the names whose call is still running. */
  ghost predicate Inv(g: CallGraph, s: View, active: set<Name>) {
    GoodSccs(g, s.sccs) && GoodStack(s) && StackReach(g, s) && ActiveInv(g, s, active)
  }

  /** The search only adds: numbers stay, the old stack and the old components stay as prefixes. */
  ghost predicate Extends(s: View, t: View) {
    && (forall x :: x in s.index ==> x in t.index && t.index[x] == s.index[x])
    && s.stack <= t.stack
    && s.sccs <= t.sccs
  }

  lemma SortedIsDistinct(s: View)
    requires GoodStack(s)
    ensures Distinct(s.stack)
  {
    forall i, j | 0 <= i < j < |s.stack| ensures s.stack[i] != s.stack[j] {
      assert s.index[s.stack[i]] < s.index[s.stack[j]];
    }
  }

  lemma ActiveWitness(g: CallGraph, s: View, active: set<Name>, y: Name) returns (x: Name)
    requires ReachesActive(g, s, active, y)
    ensures x in active && x in s.index && s.index[x] <= s.index[y] && Reach(g, y, x)
  {
    x :| x in active && x in s.index && s.index[x] <= s.index[y] && Reach(g, y, x);
  }

  // ---- Entering a call --------------------------------------------------------------------

  lemma PushKeepsInv(g: CallGraph, s: View, active: set<Name>, v: Name, num: nat, t: View)
    requires Inv(g, s, active) && v !in s.index
    requires forall x :: x in s.index ==> s.index[x] < num
    requires forall x :: x in active ==> Reach(g, x, v)
    requires t == View(s.index[v := num], s.stack + [v], s.sccs)
    ensures Inv(g, t, active + {v}) && Extends(s, t)
  {
    forall i, j | 0 <= i <= j < |t.stack| ensures Reach(g, t.stack[i], t.stack[j]) {
      if i == |s.stack| {
        ReachRefl(g, v);
      } else if j == |s.stack| {
        var x := ActiveWitness(g, s, active, s.stack[i]);
        ReachTrans(g, s.stack[i], x, v);
      } else {
        assert Reach(g, s.stack[i], s.stack[j]);
      }
    }
    forall y {:trigger ReachesActive(g, t, active + {v}, y)} | y in t.stack
      ensures ReachesActive(g, t, active + {v}, y)
    {
      if y == v {
        ReachRefl(g, v);
      } else {
        var x := ActiveWitness(g, s, active, y);
      }
    }
  }

  // ---- Leaving a call that keeps its component open ---------------------------------------

  lemma LeaveOpenReaches(g: CallGraph, s: View, active: set<Name>, v: Name, older: Name, y: Name)
    requires ReachesActive(g, s, active + {v}, older) && ReachesActive(g, s, active + {v}, y)
    requires v in s.index && s.index[older] < s.index[v] && Reach(g, v, older)
    ensures ReachesActive(g, s, active, y)
  {
    var x0 := ActiveWitness(g, s, active + {v}, older);
    var x := ActiveWitness(g, s, active + {v}, y);
    if x == v {
      ReachTrans(g, y, v, older);
      ReachTrans(g, y, older, x0);
    }
  }

  lemma LeaveOpenKeepsInv(g: CallGraph, s: View, active: set<Name>, v: Name, older: Name)
    requires ActiveInv(g, s, active + {v}) && v in s.index && v !in active
    requires forall y :: Edge(g, v, y) ==> y in s.index
    requires older in s.stack && ReachesActive(g, s, active + {v}, older)
    requires s.index[older] < s.index[v] && Reach(g, v, older)
    ensures ActiveInv(g, s, active)
  {
    forall y {:trigger ReachesActive(g, s, active, y)} | y in s.stack
      ensures ReachesActive(g, s, active, y)
    {
      assert ReachesActive(g, s, active + {v}, y);
      LeaveOpenReaches(g, s, active, v, older, y);
    }
  }

  // ---- Leaving a call that closes its component -------------------------------------------

  /** Names whose component is already settled once everything above position n is. */
  ghost function Settled(s: View, n: nat): iset<Name>
    requires n <= |s.stack|
  {
    iset x | x in s.index && (x in s.stack[n..] || Emitted(s.sccs, x))
  }

  lemma SettledIsClosed(g: CallGraph, s: View, n: nat)
    requires GoodSccs(g, s.sccs) && GoodStack(s) && n <= |s.stack|
    requires forall x, y :: x in s.stack[n..] && Edge(g, x, y) ==> y in s.index && y !in s.stack[..n]
    ensures Closed(g, Settled(s, n))
  {
    forall x, y | x in Settled(s, n) && Edge(g, x, y) ensures y in Settled(s, n) {
      if x in s.stack[n..] {
        assert y in s.index && y !in s.stack[..n];
        assert s.stack == s.stack[..n] + s.stack[n..];
      } else {
        EmittedClosed(g, s.sccs, x, y);
      }
    }
  }

  lemma EmittedClosed(g: CallGraph, sccs: seq<seq<Name>>, x: Name, y: Name)
    requires GoodSccs(g, sccs) && Emitted(sccs, x) && Edge(g, x, y)
    ensures Emitted(sccs, y)
  {
    var k :| 0 <= k < |sccs| && x in sccs[k];
    var j :| 0 <= j < k + 1 && y in sccs[..k + 1][j];
    assert y in sccs[j];
  }

  /** Emitted names never reach names still on the stack. */
  lemma EmittedStaysEmitted(g: CallGraph, sccs: seq<seq<Name>>, x: Name, y: Name)
    requires GoodSccs(g, sccs) && Emitted(sccs, x) && Reach(g, x, y)
    ensures Emitted(sccs, y)
  {
    var done := iset z | Emitted(sccs, z);
    forall a, b | a in done && Edge(g, a, b) ensures b in done {
      EmittedClosed(g, sccs, a, b);
    }
    ReachStaysInside(g, done, x, y);
  }

  /** Everything from position n upwards belongs to one call v, and no call leaves it downwards. */
  ghost predicate ClosedTop(g: CallGraph, s: View, active: set<Name>, v: Name, n: nat) {
    && v !in active
    && n < |s.stack| && s.stack[n] == v
    && (forall x :: x in active ==> x in s.stack[..n])
    && (forall x, y :: x in s.stack[n..] && Edge(g, x, y) ==> y in s.index && y !in s.stack[..n])
  }

  lemma StackSplit(s: View, n: nat)
    requires GoodStack(s) && n <= |s.stack|
    ensures forall x :: x in s.stack <==> x in s.stack[..n] || x in s.stack[n..]
    ensures forall x :: x in s.stack[..n] ==> x !in s.stack[n..]
    ensures Distinct(s.stack[n..])
  {
    assert s.stack == s.stack[..n] + s.stack[n..];
    SortedIsDistinct(s);
  }

  /** Such a top part is mutually reachable. */
  lemma TopReachesV(g: CallGraph, s: View, active: set<Name>, v: Name, n: nat, x: Name)
    requires Inv(g, s, active + {v}) && ClosedTop(g, s, active, v, n) && x in s.stack[n..]
    ensures Reach(g, v, x) && Reach(g, x, v)
  {
    SettledIsClosed(g, s, n);
    StackSplit(s, n);
    var i :| 0 <= i < |s.stack[n..]| && s.stack[n..][i] == x;
    assert Reach(g, s.stack[n], s.stack[n + i]);
    var a := ActiveWitness(g, s, active + {v}, x);
    ReachStaysInside(g, Settled(s, n), x, a);
  }

  /** Such a top part is a whole component. */
  lemma TopIsScc(g: CallGraph, s: View, active: set<Name>, v: Name, n: nat)
    requires Inv(g, s, active + {v}) && ClosedTop(g, s, active, v, n)
    ensures IsScc(g, s.stack[n..])
  {
    var c := s.stack[n..];
    StackSplit(s, n);
    SettledIsClosed(g, s, n);
    forall x, y | x in c && y in c ensures Reach(g, x, y) {
      TopReachesV(g, s, active, v, n, x);
      TopReachesV(g, s, active, v, n, y);
      ReachTrans(g, x, v, y);
    }
    forall x, y | x in c && Reach(g, x, y) && Reach(g, y, x) ensures y in c {
      ReachStaysInside(g, Settled(s, n), x, y);
      if Emitted(s.sccs, y) {
        EmittedStaysEmitted(g, s.sccs, y, x);
      }
    }
  }

  lemma EmittedAppend(sccs: seq<seq<Name>>, c: seq<Name>)
    ensures forall x :: Emitted(sccs + [c], x) <==> Emitted(sccs, x) || x in c
  {
    forall x ensures Emitted(sccs + [c], x) <==> Emitted(sccs, x) || x in c {
      if k :| 0 <= k < |sccs| && x in sccs[k] {
        assert x in (sccs + [c])[k];
      }
      if x in c {
        assert x in (sccs + [c])[|sccs|];
      }
    }
  }

  lemma AppendKeepsSccs(g: CallGraph, sccs: seq<seq<Name>>, scc: seq<Name>)
    requires GoodSccs(g, sccs) && IsScc(g, scc)
    requires forall x :: x in scc ==> !Emitted(sccs, x)
    requires forall x, y :: x in scc && Edge(g, x, y) ==> y in scc || Emitted(sccs, y)
    ensures GoodSccs(g, sccs + [scc])
  {
    var all := sccs + [scc];
    EmittedAppend(sccs, scc);
    forall k, x, y | 0 <= k < |all| && x in all[k] && Edge(g, x, y) ensures Emitted(all[..k + 1], y) {
      if k < |sccs| {
        assert all[..k + 1] == sccs[..k + 1];
      } else {
        assert all[..k + 1] == all;
      }
    }
  }

  /** Popping the top part and emitting it, in whatever member order, keeps the invariant. */
  lemma EmitKeepsInv(g: CallGraph, s: View, active: set<Name>, v: Name, n: nat, scc: seq<Name>, t: View)
    requires Inv(g, s, active + {v}) && ClosedTop(g, s, active, v, n)
    requires Distinct(scc) && scc != [] && forall x :: x in scc <==> x in s.stack[n..]
    requires t == View(s.index, s.stack[..n], s.sccs + [scc])
    ensures Inv(g, t, active)
  {
    TopIsScc(g, s, active, v, n);
    StackSplit(s, n);
    AppendKeepsSccs(g, s.sccs, scc);
    EmittedAppend(s.sccs, scc);
    forall i, j | 0 <= i <= j < n ensures Reach(g, t.stack[i], t.stack[j]) {
      assert Reach(g, s.stack[i], s.stack[j]);
    }
    forall y {:trigger ReachesActive(g, t, active, y)} | y in t.stack
      ensures ReachesActive(g, t, active, y)
    {
      var x := ActiveWitness(g, s, active + {v}, y);
      var i :| 0 <= i < n && s.stack[i] == y;
      assert s.index[s.stack[i]] < s.index[s.stack[n]];
    }
    assert v in s.stack[n..];
  }

  // ---- Low links --------------------------------------------------------------------------

  /** Calls from stack positions m and above into the oldest n entries go to numbers of at least low. */
  ghost predicate LowBound(g: CallGraph, s: View, m: nat, n: nat, low: nat) {
    && n <= m <= |s.stack|
    && forall x, y :: x in s.stack[m..] && Edge(g, x, y) && y in s.stack[..n] && y in s.index ==> low <= s.index[y]
  }

  /** The number low belongs to a stack entry that v reaches. */
  ghost predicate LowReached(g: CallGraph, s: View, v: Name, low: nat) {
    exists y :: y in s.stack && y in s.index && s.index[y] == low && Reach(g, v, y)
  }

  lemma LowBoundGrows(g: CallGraph, s: View, t: View, m: nat, n: nat, low: nat, low': nat)
    requires LowBound(g, s, m, n, low) && GoodStack(s) && Extends(s, t)
    requires LowBound(g, t, |s.stack|, |s.stack|, low')
    ensures LowBound(g, t, m, n, if low' < low then low' else low)
  {
    var k := |s.stack|;
    forall x, y | x in t.stack[m..] && Edge(g, x, y) && y in t.stack[..n] && y in t.index
      ensures (if low' < low then low' else low) <= t.index[y]
    {
      assert t.stack[..n] == s.stack[..n] == t.stack[..k][..n];
      assert t.stack[m..] == s.stack[m..] + t.stack[k..];
      if x in s.stack[m..] {
        assert y in s.index;
      }
    }
  }

  lemma LowReachedViaCall(g: CallGraph, s: View, v: Name, w: Name, low: nat)
    requires Edge(g, v, w) && LowReached(g, s, w, low)
    ensures LowReached(g, s, v, low)
  {
    var y :| y in s.stack && y in s.index && s.index[y] == low && Reach(g, w, y);
    ReachEdge(g, v, w);
    ReachTrans(g, v, w, y);
  }

  function Callees(g: CallGraph, v: Name): seq<Name> {
    if v in g then g[v] else []
  }

  /** v's first i callees are indexed, and none of them is an older stack entry numbered below low. */
  ghost predicate CalleesSeen(g: CallGraph, s: View, v: Name, n: nat, i: nat, low: nat) {
    && n <= |s.stack|
    && i <= |Callees(g, v)|
    && forall j :: 0 <= j < i ==> CalleeSeen(s, n, Callees(g, v)[j], low)
  }

  ghost predicate CalleeSeen(s: View, n: nat, w: Name, low: nat)
    requires n <= |s.stack|
  {
    w in s.index && (w in s.stack[..n] ==> low <= s.index[w])
  }

  /** When every callee has been looked at, the bound covers v itself. */
  lemma LowBoundCoversV(g: CallGraph, s: View, v: Name, n: nat, low: nat)
    requires GoodStack(s) && n < |s.stack| && s.stack[n] == v
    requires LowBound(g, s, n + 1, n, low) && CalleesSeen(g, s, v, n, |Callees(g, v)|, low)
    ensures LowBound(g, s, n, n, low)
  {
    assert s.stack[n..] == [v] + s.stack[n + 1..];
  }

  /** A low link equal to v's own number means no call leaves the top part of the stack. */
  lemma OwnLowClosesTop(g: CallGraph, s: View, active: set<Name>, v: Name, n: nat)
    requires GoodStack(s) && ActiveInv(g, s, active + {v}) && v !in active
    requires n < |s.stack| && s.stack[n] == v && forall x :: x in active ==> x in s.stack[..n]
    requires forall w :: Edge(g, v, w) ==> w in s.index
    requires LowBound(g, s, n, n, s.index[v])
    ensures ClosedTop(g, s, active, v, n)
  {
    StackSplit(s, n);
    forall y | y in s.stack[..n] ensures s.index[y] < s.index[v] {
      var i :| 0 <= i < n && s.stack[i] == y;
      assert s.index[s.stack[i]] < s.index[s.stack[n]];
    }
  }

  /** What strongconnect leaves behind: either v's component is closed and the stack is back to
      where it was, or v waits on top of it and lowlink[v] is the least number its part calls. */
  ghost predicate Connected(g: CallGraph, s: View, t: View, v: Name, low: nat) {
    && Extends(s, t)
    && v in t.index
    && low <= t.index[v]
    && (forall x :: x in s.index ==> s.index[x] < t.index[v])
    && (|| (t.stack == s.stack && low == t.index[v])
        || (&& |s.stack| < |t.stack| && t.stack[|s.stack|] == v
            && low < t.index[v]
            && LowReached(g, t, v, low)
            && LowBound(g, t, |s.stack|, |s.stack|, low)))
  }

  /** What holds while v's callees are being looked at, the first i being handled already. */
  ghost predicate Searching(g: CallGraph, s: View, v: Name, n: nat, low: nat, i: nat) {
    && n < |s.stack| && s.stack[n] == v
    && v in s.index && low <= s.index[v]
    && LowReached(g, s, v, low)
    && LowBound(g, s, n + 1, n, low)
    && CalleesSeen(g, s, v, n, i, low)
  }

  lemma LowReachedExtends(g: CallGraph, s: View, t: View, v: Name, low: nat)
    requires LowReached(g, s, v, low) && Extends(s, t)
    ensures LowReached(g, t, v, low)
  {
    var y :| y in s.stack && y in s.index && s.index[y] == low && Reach(g, v, y);
    assert y in t.stack && y in t.index && t.index[y] == low;
  }

  lemma CalleesSeenExtends(g: CallGraph, s: View, t: View, v: Name, n: nat, i: nat, low: nat, low': nat)
    requires CalleesSeen(g, s, v, n, i, low) && Extends(s, t) && low' <= low
    requires i < |Callees(g, v)| && CalleeSeen(t, n, Callees(g, v)[i], low')
    ensures CalleesSeen(g, t, v, n, i + 1, low')
  {
    assert t.stack[..n] == s.stack[..n];
    forall j | 0 <= j < i ensures CalleeSeen(t, n, Callees(g, v)[j], low') {
      assert CalleeSeen(s, n, Callees(g, v)[j], low);
    }
  }

  /** The i-th callee w of v has been searched: taking the smaller low link keeps the loop's facts. */
  lemma AfterSearchedCallee(g: CallGraph, s: View, t: View, v: Name, n: nat, i: nat, low: nat, lowW: nat)
    requires GoodStack(s) && Searching(g, s, v, n, low, i) && i < |Callees(g, v)|
    requires Callees(g, v)[i] !in s.index && Connected(g, s, t, Callees(g, v)[i], lowW)
    ensures Searching(g, t, v, n, if lowW < low then lowW else low, i + 1)
  {
    var w := Callees(g, v)[i];
    var low' := if lowW < low then lowW else low;
    assert t.stack[..n] == s.stack[..n];
    assert forall x :: x in s.stack[..n] ==> x in s.index;
    CalleesSeenExtends(g, s, t, v, n, i, low, low');
    LowReachedExtends(g, s, t, v, low);
    if t.stack != s.stack {
      assert Edge(g, v, w);
      LowReachedViaCall(g, t, v, w, lowW);
      LowBoundGrows(g, s, t, n + 1, n, low, lowW);
    } else {
      LowBoundFrame(g, s, t, n + 1, n, low);
    }
  }

  lemma LowBoundFrame(g: CallGraph, s: View, t: View, m: nat, n: nat, low: nat)
    requires LowBound(g, s, m, n, low) && GoodStack(s) && Extends(s, t) && t.stack == s.stack
    ensures LowBound(g, t, m, n, low)
  {
    forall x, y | x in t.stack[m..] && Edge(g, x, y) && y in t.stack[..n] && y in t.index
      ensures low <= t.index[y]
    {
      assert y in s.stack;
    }
  }

  /** The i-th callee w of v was indexed before, on the stack or settled. */
  lemma AfterIndexedCallee(g: CallGraph, s: View, v: Name, n: nat, i: nat, low: nat, low': nat)
    requires GoodStack(s) && Searching(g, s, v, n, low, i) && i < |Callees(g, v)|
    requires var w := Callees(g, v)[i];
             w in s.index && low' == if w in s.stack && s.index[w] < low then s.index[w] else low
    ensures Searching(g, s, v, n, low', i + 1)
  {
    if low' != low {
      ReachEdge(g, v, Callees(g, v)[i]);
    }
    assert s.stack == s.stack[..n] + s.stack[n..];
    CalleesSeenExtends(g, s, s, v, n, i, low, low');
  }

  lemma ActiveReachCallee(g: CallGraph, active: set<Name>, v: Name, w: Name)
    requires Edge(g, v, w) && forall x :: x in active ==> Reach(g, x, v)
    ensures forall x :: x in active + {v} ==> Reach(g, x, w)
  {
    ReachEdge(g, v, w);
    forall x | x in active ensures Reach(g, x, w) {
      ReachTrans(g, x, v, w);
    }
  }

  lemma CloseOpenCall(g: CallGraph, s: View, active: set<Name>, v: Name, low: nat)
    requires ActiveInv(g, s, active + {v}) && v in s.index && v !in active
    requires forall y :: Edge(g, v, y) ==> y in s.index
    requires LowReached(g, s, v, low) && low < s.index[v]
    ensures ActiveInv(g, s, active)
  {
    var y :| y in s.stack && y in s.index && s.index[y] == low && Reach(g, v, y);
    assert ReachesActive(g, s, active + {v}, y);
    LeaveOpenKeepsInv(g, s, active, v, y);
  }

  /** The popped names are the top of the stack, newest first. */
  lemma PoppedAre(stack: seq<Name>, n: nat, scc: seq<Name>)
    requires Distinct(stack) && n < |stack| && |scc| == |stack| - n
    requires forall i :: 0 <= i < |scc| ==> scc[i] == stack[|stack| - 1 - i]
    ensures Distinct(scc) && forall x :: x in scc <==> x in stack[n..]
  {
    forall x | x in stack[n..] ensures x in scc {
      var i :| 0 <= i < |scc| && stack[n..][i] == x;
      assert scc[|scc| - 1 - i] == x;
    }
  }

  ghost predicate CalleesInside(g: CallGraph, nodes: set<Name>) {
    forall x, y :: Edge(g, x, y) ==> y in nodes
  }

  class SccSearch {
    const g: CallGraph
    ghost const nodes: set<Name>
    var index: map<Name, nat>
    var lowlink: map<Name, nat>
    var onStack: set<Name>
    var stack: seq<Name>
    var currentIndex: nat
    var sccs: seq<seq<Name>>

    ghost function State(): View
      reads this`index, this`stack, this`sccs
    {
      View(index, stack, sccs)
    }

    ghost predicate StackSynced()
      reads this`stack, this`onStack
    {
      forall x :: x in onStack <==> x in stack
    }

    ghost predicate Valid()
      reads this
    {
      && StackSynced()
      && (forall x :: x in index ==> index[x] < currentIndex && x in nodes)
      && (forall x :: x in index <==> x in lowlink)
      && CalleesInside(g, nodes)
    }

    constructor (g: CallGraph, ghost nodes: set<Name>)
      requires CalleesInside(g, nodes)
      ensures this.g == g && this.nodes == nodes
      ensures Valid() && State() == View(map[], [], [])
    {
      this.g, this.nodes := g, nodes;
      index, lowlink, onStack, stack, currentIndex, sccs := map[], map[], {}, [], 0, [];
    }

    /** The pop loop: takes everything from v upwards off the stack. */
    method PopComponent(v: Name, ghost n: nat) returns (scc: seq<Name>)
      requires StackSynced() && Distinct(stack) && n < |stack| && stack[n] == v
      modifies this`stack, this`onStack
      ensures StackSynced() && stack == old(stack)[..n]
      ensures scc != [] && Distinct(scc) && forall x :: x in scc <==> x in old(stack)[n..]
    {
      scc := [];
      while stack != []
        invariant n < |stack| && stack == old(stack)[..|stack|]
        invariant |stack| + |scc| == |old(stack)|
        invariant forall i :: 0 <= i < |scc| ==> scc[i] == old(stack)[|old(stack)| - 1 - i]
        invariant StackSynced()
        decreases |stack|
      {
        var w := stack[|stack| - 1];
        stack := stack[..|stack| - 1];
        onStack := onStack - {w};
        scc := scc + [w];
        if w == v {
          break;
        }
      }
      PoppedAre(old(stack), n, scc);
    }

    /** First part of strongconnect: v gets the next number and goes onto the stack. */
    method Enter(v: Name, ghost active: set<Name>)
      requires Valid() && Inv(g, State(), active)
      requires v in nodes && v !in index
      requires forall x :: x in active ==> Reach(g, x, v)
      modifies this
      ensures Valid() && Inv(g, State(), active + {v}) && Extends(old(State()), State())
      ensures stack == old(stack) + [v] && sccs == old(sccs)
      ensures index == old(index)[v := old(currentIndex)] && lowlink == old(lowlink)[v := old(currentIndex)]
      ensures currentIndex == old(currentIndex) + 1
      ensures Searching(g, State(), v, |old(stack)|, lowlink[v], 0)
    {
      ghost var s0 := State();
      index := index[v := currentIndex];
      lowlink := lowlink[v := currentIndex];
      currentIndex := currentIndex + 1;
      stack := stack + [v];
      onStack := onStack + {v};
      PushKeepsInv(g, s0, active, v, index[v], State());
      ReachRefl(g, v);
    }

    /** strongconnect(v) is running and has handled its first i callees; n is v's stack position. */
    ghost predicate Running(v: Name, n: nat, i: nat, active: set<Name>)
      reads this
    {
      && Valid() && Inv(g, State(), active + {v})
      && v in index && v in lowlink
      && Searching(g, State(), v, n, lowlink[v], i)
    }

    /** v's component is complete: pop it and emit it. */
    method CloseComponent(v: Name, ghost active: set<Name>, ghost n: nat)
      requires Valid() && Inv(g, State(), active + {v}) && ClosedTop(g, State(), active, v, n)
      modifies this`stack, this`onStack, this`sccs
      ensures Valid() && Inv(g, State(), active)
      ensures stack == old(stack)[..n] && old(sccs) <= sccs
    {
      ghost var s := State();
      SortedIsDistinct(s);
      var scc := PopComponent(v, n);
      sccs := sccs + [scc];
      EmitKeepsInv(g, s, active, v, n, scc, State());
    }

    /** Last part of strongconnect: v closes its component, or waits for an older call to do so. */
    method Leave(v: Name, ghost active: set<Name>, ghost s0: View)
      requires Running(v, |s0.stack|, |Callees(g, v)|, active) && Extends(s0, State())
      requires v !in active && forall x :: x in active ==> x in s0.stack
      requires forall x :: x in s0.index ==> s0.index[x] < index[v]
      modifies this`stack, this`onStack, this`sccs
      ensures Valid() && Inv(g, State(), active)
      ensures Connected(g, s0, State(), v, lowlink[v])
    {
      ghost var s := State();
      LowBoundCoversV(g, s, v, |s0.stack|, lowlink[v]);
      if lowlink[v] == index[v] {
        OwnLowClosesTop(g, s, active, v, |s0.stack|);
        CloseComponent(v, active, |s0.stack|);
      } else {
        CloseOpenCall(g, s, active, v, lowlink[v]);
      }
    }

    /** The recursive call for v's i-th callee w, and what its low link means for v. */
    method SearchCallee(v: Name, w: Name, i: nat, ghost active: set<Name>, ghost n: nat)
      requires Running(v, n, i, active) && i < |Callees(g, v)| && w == Callees(g, v)[i]
      requires w !in index && forall x :: x in active ==> Reach(g, x, v)
      modifies this
      ensures Valid() && Inv(g, State(), active + {v}) && Extends(old(State()), State())
      ensures forall x :: x in old(lowlink) ==> x in lowlink && lowlink[x] == old(lowlink[x])
      ensures v in lowlink && w in lowlink
      ensures Searching(g, State(), v, n, if lowlink[w] < lowlink[v] then lowlink[w] else lowlink[v], i + 1)
      decreases nodes - index.Keys, 1
    {
      ghost var s := State();
      ghost var low := lowlink[v];
      assert Edge(g, v, w);
      ActiveReachCallee(g, active, v, w);
      StrongConnect(w, active + {v});
      AfterSearchedCallee(g, s, State(), v, n, i, low, lowlink[w]);
    }

    /** A callee not seen before: search it, then take its low link. */
    method VisitNew(v: Name, w: Name, i: nat, ghost active: set<Name>, ghost n: nat)
      requires Running(v, n, i, active) && i < |Callees(g, v)| && w == Callees(g, v)[i]
      requires w !in index && forall x :: x in active ==> Reach(g, x, v)
      modifies this
      ensures Running(v, n, i + 1, active) && Extends(old(State()), State())
      ensures forall x :: x in old(lowlink) && x != v ==> x in lowlink && lowlink[x] == old(lowlink[x])
      decreases nodes - index.Keys, 2
    {
      SearchCallee(v, w, i, active, n);
      LowerLink(v, lowlink[w], i, active, n);
    }

    /** A callee that was seen before: its number counts if it is on the stack. */
    method VisitIndexed(v: Name, w: Name, i: nat, ghost active: set<Name>, ghost n: nat)
      requires Running(v, n, i, active) && i < |Callees(g, v)| && w == Callees(g, v)[i] && w in index
      modifies this`lowlink
      ensures State() == old(State())
      ensures Running(v, n, i + 1, active)
      ensures forall x :: x in old(lowlink) && x != v ==> x in lowlink && lowlink[x] == old(lowlink[x])
    {
      AfterIndexedCallee(g, State(), v, n, i, lowlink[v],
                         if w in stack && index[w] < lowlink[v] then index[w] else lowlink[v]);
      LowerLink(v, if w in onStack then index[w] else lowlink[v], i, active, n);
    }

    /** The loop body of strongconnect: the i-th callee of v. */
    method VisitCallee(v: Name, i: nat, ghost active: set<Name>, ghost n: nat)
      requires Running(v, n, i, active) && i < |Callees(g, v)|
      requires forall x :: x in active ==> Reach(g, x, v)
      modifies this
      ensures Running(v, n, i + 1, active) && Extends(old(State()), State())
      ensures forall x :: x in old(lowlink) && x != v ==> x in lowlink && lowlink[x] == old(lowlink[x])
      decreases nodes - index.Keys, 3
    {
      var w := g[v][i];
      if w !in index {
        VisitNew(v, w, i, active, n);
      } else {
        VisitIndexed(v, w, i, active, n);
      }
    }

    /** lowlink[v] = min(lowlink[v], candidate). */
    method LowerLink(v: Name, candidate: nat, ghost i: nat, ghost active: set<Name>, ghost n: nat)
      requires Valid() && Inv(g, State(), active + {v}) && v in lowlink && i < |Callees(g, v)|
      requires Searching(g, State(), v, n, if candidate < lowlink[v] then candidate else lowlink[v], i + 1)
      modifies this`lowlink
      ensures State() == old(State())
      ensures Running(v, n, i + 1, active)
      ensures forall x :: x in old(lowlink) && x != v ==> x in lowlink && lowlink[x] == old(lowlink[x])
    {
      ghost var s := State();
      lowlink := lowlink[v := if candidate < lowlink[v] then candidate else lowlink[v]];
      assert State() == s;
    }

    method StrongConnect(v: Name, ghost active: set<Name>)
      requires Valid() && Inv(g, State(), active)
      requires v in nodes && v !in index
      requires forall x :: x in active ==> Reach(g, x, v)
      modifies this
      ensures Valid() && Inv(g, State(), active)
      ensures v in lowlink && Connected(g, old(State()), State(), v, lowlink[v])
      ensures forall x :: x in old(lowlink) ==> x in lowlink && lowlink[x] == old(lowlink[x])
      decreases nodes - index.Keys, 0
    {
      ghost var s0 := State();
      Enter(v, active);
      for i := 0 to |Callees(g, v)|
        invariant Running(v, |s0.stack|, i, active)
        invariant Extends(s0, State()) && forall x :: x in s0.index ==> s0.index[x] < index[v]
        invariant forall x :: x in old(lowlink) ==> x in lowlink && lowlink[x] == old(lowlink[x])
      {
        VisitCallee(v, i, active, |s0.stack|);
      }
      Leave(v, active, s0);
    }
  }

  // ---- The whole pass ---------------------------------------------------------------------

  /** x is the caller u or one of its callees. */
  predicate Mentions(g: CallGraph, u: Name, x: Name) {
    u in g && (x == u || x in g[u])
  }

  ghost predicate IsNode(g: CallGraph, x: Name) {
    exists u :: Mentions(g, u, x)
  }

  /** The node set, gathered from an unordered map: the order of the callers does not matter. */
  method CollectNodes(g: CallGraph) returns (nodes: set<Name>)
    ensures forall x :: x in nodes <==> IsNode(g, x)
  {
    nodes := {};
    var callers := g.Keys;
    while callers != {}
      invariant callers <= g.Keys
      invariant forall x :: x in nodes <==> exists u :: u !in callers && Mentions(g, u, x)
      decreases callers
    {
      var caller :| caller in callers;
      ghost var before := nodes;
      nodes := nodes + {caller};
      for i := 0 to |g[caller]|
        invariant nodes == before + {caller} + (set x | x in g[caller][..i])
      {
        nodes := nodes + {g[caller][i]};
      }
      assert g[caller][..|g[caller]|] == g[caller];
      assert forall x :: x in nodes <==> x in before || Mentions(g, caller, x);
      callers := callers - {caller};
    }
  }

  /** Tarjan's search from every node, in any order: the emitted lists partition the nodes into
      the strongly connected components, callees first. */
  method Components(g: CallGraph) returns (sccs: seq<seq<Name>>)
    ensures GoodSccs(g, sccs)
    ensures forall x :: Emitted(sccs, x) <==> IsNode(g, x)
  {
    var nodes := CollectNodes(g);
    forall x, y | Edge(g, x, y) ensures y in nodes {
      assert Mentions(g, x, y);
    }
    var search := new SccSearch(g, nodes);
    var pending := nodes;
    while pending != {}
      invariant fresh(search) && search.g == g && search.nodes == nodes
      invariant search.Valid() && Inv(g, search.State(), {})
      invariant pending <= nodes && forall x :: x in nodes && x !in pending ==> x in search.index
      decreases pending
    {
      var name :| name in pending;
      if name !in search.index {
        search.StrongConnect(name, {});
      }
      pending := pending - {name};
    }
    sccs := search.sccs;
    NothingLeftOnStack(g, search.State());
  }

  /** With no call running, nothing is left on the stack. */
  lemma NothingLeftOnStack(g: CallGraph, s: View)
    requires Inv(g, s, {})
    ensures s.stack == []
  {
    if s.stack != [] {
      assert s.stack[0] in s.stack;
      var x := ActiveWitness(g, s, {}, s.stack[0]);
    }
  }

  /** A member of a component is on a call cycle iff the component has company for it, or it calls itself. */
  lemma CycleIffComponent(g: CallGraph, c: seq<Name>, x: Name)
    requires IsScc(g, c) && x in c
    ensures OnCallCycle(g, x) <==> |c| > 1 || Edge(g, x, x)
  {
    CycleViaFirstCall(g, x);
    if |c| > 1 {
      var y := if c[0] == x then c[1] else c[0];
      assert c[0] != c[1] && y in c && Reach(g, x, y) && Reach(g, y, x);
      FirstStep(g, x, y);
      var w :| Edge(g, x, w) && Reach(g, w, y);
      ReachTrans(g, w, y, x);
    } else if OnCallCycle(g, x) {
      var w :| Edge(g, x, w) && Reach(g, w, x);
      ReachEdge(g, x, w);
      assert w in c && c == [c[0]];
    } else if Edge(g, x, x) {
      ReachRefl(g, x);
    }
  }

  lemma FirstStep(g: CallGraph, x: Name, y: Name)
    requires Reach(g, x, y) && x != y
    ensures exists w :: Edge(g, x, w) && Reach(g, w, y)
  {
    var p :| PathFromTo(g, p, x, y);
    assert PathFromTo(g, p[1..], p[1], y);
    assert Edge(g, x, p[1]) && Reach(g, p[1], y);
  }

  /** The pass: exactly the names with a non-empty call path back to themselves. */
  method FindRecursiveFunctions(g: CallGraph) returns (recursive: set<Name>)
    ensures forall x :: x in recursive <==> OnCallCycle(g, x)
  {
    var sccs := Components(g);
    recursive := {};
    for i := 0 to |sccs|
      invariant forall x :: x in recursive <==> Emitted(sccs[..i], x) && OnCallCycle(g, x)
    {
      var scc := sccs[i];
      assert IsScc(g, scc);
      EmittedAppend(sccs[..i], scc);
      assert sccs[..i + 1] == sccs[..i] + [scc];
      forall x | x in scc ensures OnCallCycle(g, x) <==> |scc| > 1 || Edge(g, x, x) {
        CycleIffComponent(g, scc, x);
      }
      if |scc| > 1 {
        recursive := recursive + (set x | x in scc);
      } else {
        var name := scc[0];
        if name in g && name in g[name] {
          recursive := recursive + {name};
        }
      }
    }
    assert sccs[..|sccs|] == sccs;
    forall x | OnCallCycle(g, x) ensures Emitted(sccs, x) {
      CycleViaFirstCall(g, x);
      assert Mentions(g, x, x);
    }
  }

  // ---- The graph the analyzer builds for it -----------------------------------------------

  /** A discovered function and, by start address, the names its calls resolve to. */
  datatype FunctionRecord = FunctionRecord(name: Name, start: nat)

  predicate Eligible(functions: seq<FunctionRecord>, lib: set<Name>, x: Name) {
    x !in lib && exists i :: 0 <= i < |functions| && functions[i].name == x
  }

  /** Some function called u, not a library stub, has a recorded call to v, and v is no stub either. */
  ghost predicate EligibleCall(functions: seq<FunctionRecord>, lib: set<Name>, calls: map<nat, seq<Name>>,
                               u: Name, v: Name) {
    && u !in lib && Eligible(functions, lib, v)
    && exists i :: 0 <= i < |functions| && functions[i].name == u && RecordedCall(calls, functions[i], v)
  }

  predicate RecordedCall(calls: map<nat, seq<Name>>, f: FunctionRecord, v: Name) {
    f.start in calls && v in calls[f.start]
  }

  /** Library stubs are left out. */
  method EligibleNames(functions: seq<FunctionRecord>, lib: set<Name>) returns (eligible: set<Name>)
    ensures forall x :: x in eligible <==> Eligible(functions, lib, x)
  {
    eligible := {};
    for i := 0 to |functions|
      invariant forall x :: x in eligible <==> x !in lib && exists k :: 0 <= k < i && functions[k].name == x
    {
      if functions[i].name in lib {
        continue;
      }
      eligible := eligible + {functions[i].name};
    }
  }

  /** Functions that share a name share one node; their call lists are joined. */
  method BuildCallGraph(functions: seq<FunctionRecord>, lib: set<Name>, calls: map<nat, seq<Name>>)
    returns (g: CallGraph)
    ensures forall u, v :: Edge(g, u, v) <==> EligibleCall(functions, lib, calls, u, v)
  {
    var eligible := EligibleNames(functions, lib);
    g := map[];
    for i := 0 to |functions|
      invariant forall u, v :: Edge(g, u, v) <==>
        u !in lib && Eligible(functions, lib, v)
        && exists k :: 0 <= k < i && functions[k].name == u && RecordedCall(calls, functions[k], v)
    {
      var f := functions[i];
      if f.name in eligible && f.start in calls {
        ghost var before := g;
        g := g[f.name := if f.name in g then g[f.name] else []];
        var callees := calls[f.start];
        for j := 0 to |callees|
          invariant f.name in g
          invariant forall u, v :: Edge(g, u, v) <==>
            Edge(before, u, v) || (u == f.name && v in callees[..j] && Eligible(functions, lib, v))
        {
          if callees[j] in eligible {
            g := g[f.name := g[f.name] + [callees[j]]];
          }
        }
        assert callees[..|callees|] == callees;
      }
    }
  }

  /** x comes back to itself through one or more recorded calls among non-stub functions. */
  ghost predicate EligibleCycle(functions: seq<FunctionRecord>, lib: set<Name>, calls: map<nat, seq<Name>>, x: Name) {
    exists p: seq<Name> ::
      && |p| > 1 && p[0] == x && p[|p| - 1] == x
      && forall i :: 0 <= i < |p| - 1 ==> EligibleCall(functions, lib, calls, p[i], p[i + 1])
  }

  /** The analyzer's recursion report, and which of the functions it calls directly recursive. */
  method IdentifyRecursiveFunctions(functions: seq<FunctionRecord>, lib: set<Name>, calls: map<nat, seq<Name>>)
    returns (recursive: set<Name>, direct: set<Name>)
    ensures forall x :: x in recursive <==> EligibleCycle(functions, lib, calls, x)
    ensures forall x :: x in direct <==> EligibleCall(functions, lib, calls, x, x)
    ensures direct <= recursive
  {
    var g := BuildCallGraph(functions, lib, calls);
    recursive := FindRecursiveFunctions(g);
    direct := set x | x in recursive && Edge(g, x, x);
    forall x | Edge(g, x, x) ensures x in recursive {
      assert PathFromTo(g, [x, x], x, x);
    }
    forall x ensures OnCallCycle(g, x) <==> EligibleCycle(functions, lib, calls, x) {
      forall p: seq<Name> | |p| > 1
        ensures IsPath(g, p) <==>
                forall i :: 0 <= i < |p| - 1 ==> EligibleCall(functions, lib, calls, p[i], p[i + 1])
      {
        PathSteps(g, p);
        assert forall i :: 0 <= i < |p| - 1 ==>
          (Edge(g, p[i], p[i + 1]) <==> EligibleCall(functions, lib, calls, p[i], p[i + 1]));
      }
    }
  }
}
