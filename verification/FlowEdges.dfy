/** Second half of control-flow graph construction: the edges between the blocks. */
module FlowEdges {
  import opened Instructions
  import opened BasicBlocks

  /** The instruction that decides where control leaves a block: the last one, or the branch or jump
      whose delay slot the last one is. */
  function Terminator(block: seq<Instruction>): (t: Instruction)
    requires block != []
    ensures t in block
  {
    var last := block[|block| - 1];
    if |block| >= 2 then
      var candidate := block[|block| - 2];
      if candidate.hasDelaySlot && IsControl(candidate) && Wrap32(candidate.address + 4) == last.address
      then candidate else last
    else last
  }

  /** The address behind the terminator and, if it has one, its delay slot. */
  function NotTakenAddress(t: Instruction): uint32 {
    Wrap32(t.address + if t.hasDelaySlot then 8 else 4)
  }

  /** Address a is where block k starts, or inside it. */
  predicate Covers(cfg: Cfg, k: uint32, a: uint32) {
    k in cfg && (k == a || (k < a && a <= cfg[k].endAddress))
  }

  /** The successors of a block with terminator t and last instruction `last`. `fall` is the block
      entered when a branch is not taken, if there is one. */
  ghost predicate OutOf(cfg: Cfg, start: uint32, end: uint32, t: Instruction, last: Instruction, succ: seq<uint32>) {
    if t.isBranch then
      exists fall :: FallEdge(cfg, end, t, fall)
        && succ == (if BranchTarget(t) in cfg then [BranchTarget(t)] else []) + fall
    else if t.isJump then
      succ == if IsDirectJump(t) && start <= JumpTarget(t) < end && JumpTarget(t) in cfg
              then [JumpTarget(t)] else []
    else
      succ == if !last.isReturn && Wrap32(last.address + 4) <= end && Wrap32(last.address + 4) in cfg
              then [Wrap32(last.address + 4)] else []
  }

  /** The edges of one block, as the linking loop makes them. */
  ghost predicate EdgesOf(cfg: Cfg, start: uint32, end: uint32, k: uint32, succ: seq<uint32>) {
    && k in cfg && cfg[k].instructions != []
    && var block := cfg[k].instructions;
       OutOf(cfg, start, end, Terminator(block), block[|block| - 1], succ)
  }

  ghost predicate FallEdge(cfg: Cfg, end: uint32, t: Instruction, fall: seq<uint32>) {
    if !IsLikely(t) && NotTakenAddress(t) <= end then
      || (|fall| == 1 && Covers(cfg, fall[0], NotTakenAddress(t)))
      || (fall == [] && forall k :: !Covers(cfg, k, NotTakenAddress(t)))
    else
      fall == []
  }

  /** Same blocks, whatever the edges. */
  ghost predicate SameBlocks(cfg: Cfg, cfg': Cfg) {
    && cfg.Keys == cfg'.Keys
    && forall k :: k in cfg ==> cfg'[k] == cfg[k].(predecessors := cfg'[k].predecessors, successors := cfg'[k].successors)
  }

  /** a lists b as successor as often as b lists a as predecessor. */
  ghost predicate Mirrored(cfg: Cfg, a: uint32, b: uint32)
    requires a in cfg && b in cfg
  {
    multiset(cfg[a].successors)[b] == multiset(cfg[b].predecessors)[a]
  }

  /** Successor and predecessor lists are inverse as multisets, and name blocks only. */
  ghost predicate EdgesInverse(cfg: Cfg) {
    && (forall a, b {:trigger Mirrored(cfg, a, b)} :: a in cfg && b in cfg ==> Mirrored(cfg, a, b))
    && (forall a, b :: a in cfg && b in cfg[a].successors ==> b in cfg)
    && (forall a, b :: b in cfg && a in cfg[b].predecessors ==> a in cfg)
  }

  function AddEdge(cfg: Cfg, a: uint32, b: uint32): Cfg
    requires a in cfg && b in cfg
  {
    var cfg' := cfg[a := cfg[a].(successors := cfg[a].successors + [b])];
    cfg'[b := cfg'[b].(predecessors := cfg'[b].predecessors + [a])]
  }

  lemma AddEdgeAt(cfg: Cfg, a: uint32, b: uint32, x: uint32)
    requires a in cfg && b in cfg && x in cfg
    ensures AddEdge(cfg, a, b)[x] == cfg[x].(
              successors := cfg[x].successors + if x == a then [b] else [],
              predecessors := cfg[x].predecessors + if x == b then [a] else [])
  {
  }

  lemma AddEdgeKeepsInverse(cfg: Cfg, a: uint32, b: uint32)
    requires a in cfg && b in cfg && EdgesInverse(cfg)
    ensures EdgesInverse(AddEdge(cfg, a, b))
  {
    var cfg' := AddEdge(cfg, a, b);
    forall x, y | x in cfg && y in cfg ensures Mirrored(cfg', x, y) {
      assert Mirrored(cfg, x, y);
      AddEdgeAt(cfg, a, b, x);
      AddEdgeAt(cfg, a, b, y);
    }
    forall x, y | x in cfg' && (y in cfg'[x].successors || y in cfg'[x].predecessors) ensures y in cfg' {
      AddEdgeAt(cfg, a, b, x);
    }
  }

  /** Both blocks change: a lists b behind its successors, b lists a behind its predecessors. */
  ghost predicate EdgeAdded(cfg: Cfg, cfg': Cfg, a: uint32, b: uint32) {
    && SameBlocks(cfg, cfg')
    && forall k :: k in cfg ==> cfg'[k].successors == cfg[k].successors + if k == a then [b] else []
  }

  method AppendEdge(cfg: Cfg, a: uint32, b: uint32) returns (cfg': Cfg)
    requires a in cfg && b in cfg && EdgesInverse(cfg)
    ensures EdgesInverse(cfg') && EdgeAdded(cfg, cfg', a, b)
  {
    cfg' := AddEdge(cfg, a, b);
    AddEdgeKeepsInverse(cfg, a, b);
    forall k | k in cfg
      ensures cfg'[k].successors == cfg[k].successors + if k == a then [b] else []
    {
      AddEdgeAt(cfg, a, b, k);
    }
  }

  /** The search over all blocks, in any order, for one that covers an address. */
  method FindCovering(cfg: Cfg, a: uint32) returns (fall: seq<uint32>)
    ensures || (|fall| == 1 && Covers(cfg, fall[0], a))
            || (fall == [] && forall k :: !Covers(cfg, k, a))
  {
    var pending := cfg.Keys;
    while pending != {}
      invariant pending <= cfg.Keys
      invariant forall k :: k in cfg && k !in pending ==> !Covers(cfg, k, a)
      decreases pending
    {
      var blockAddr :| blockAddr in pending;
      if blockAddr == a || (a > blockAddr && a <= cfg[blockAddr].endAddress) {
        return [blockAddr];
      }
      pending := pending - {blockAddr};
    }
    return [];
  }

  ghost function NewBranchEdges(cfg: Cfg, t: Instruction, fall: seq<uint32>, here: bool): seq<uint32> {
    if here then TargetEdge(cfg, t) + fall else []
  }

  ghost function TargetEdge(cfg: Cfg, t: Instruction): seq<uint32> {
    if BranchTarget(t) in cfg then [BranchTarget(t)] else []
  }

  /** The edge to the branch target, when that starts a block. */
  method LinkTarget(cfg: Cfg, k: uint32, t: Instruction) returns (cfg': Cfg)
    requires k in cfg && EdgesInverse(cfg)
    ensures SameBlocks(cfg, cfg') && EdgesInverse(cfg')
    ensures forall j :: j in cfg ==>
      cfg'[j].successors == cfg[j].successors + if j == k then TargetEdge(cfg, t) else []
  {
    cfg' := cfg;
    var offset := 4 * if t.immediate >= 0x8000 then t.immediate - 0x1_0000 else t.immediate;
    var target := Wrap32(t.address + 4 + offset);
    if target in cfg {
      cfg' := AppendEdge(cfg', k, target);
    }
  }

  /** The edge to the block covering the not-taken address, unless the branch is likely. */
  method LinkFall(cfg: Cfg, end: uint32, k: uint32, t: Instruction) returns (cfg': Cfg, ghost fall: seq<uint32>)
    requires k in cfg && EdgesInverse(cfg)
    ensures SameBlocks(cfg, cfg') && EdgesInverse(cfg')
    ensures FallEdge(cfg, end, t, fall)
    ensures forall j :: j in cfg ==> cfg'[j].successors == cfg[j].successors + if j == k then fall else []
  {
    cfg' := cfg;
    fall := [];
    var likelyBranch := t.opcode == OPCODE_BEQL || t.opcode == OPCODE_BNEL || t.opcode == OPCODE_BLEZL
                        || t.opcode == OPCODE_BGTZL;
    var nextAddr := Wrap32(t.address + if t.hasDelaySlot then 8 else 4);
    if !likelyBranch && nextAddr <= end {
      var found := FindCovering(cfg, nextAddr);
      fall := found;
      if found != [] {
        cfg' := AppendEdge(cfg, k, found[0]);
      }
    }
  }

  /** The two edges of a branch. */
  method LinkBranch(cfg: Cfg, end: uint32, k: uint32, t: Instruction) returns (cfg': Cfg, ghost fall: seq<uint32>)
    requires k in cfg && EdgesInverse(cfg)
    ensures SameBlocks(cfg, cfg') && EdgesInverse(cfg')
    ensures FallEdge(cfg, end, t, fall)
    ensures forall j :: j in cfg ==> cfg'[j].successors == cfg[j].successors + NewBranchEdges(cfg, t, fall, j == k)
  {
    var taken := LinkTarget(cfg, k, t);
    cfg', fall := LinkFall(taken, end, k, t);
    FallEdgeSame(cfg, taken, end, t, fall);
    SameBlocksTrans(cfg, taken, cfg');
  }

  lemma FallEdgeSame(cfg: Cfg, cfg': Cfg, end: uint32, t: Instruction, fall: seq<uint32>)
    requires SameBlocks(cfg, cfg') && FallEdge(cfg', end, t, fall)
    ensures FallEdge(cfg, end, t, fall)
  {
    CoversSame(cfg, cfg', NotTakenAddress(t));
  }

  lemma SameBlocksTrans(a: Cfg, b: Cfg, c: Cfg)
    requires SameBlocks(a, b) && SameBlocks(b, c)
    ensures SameBlocks(a, c)
  {
  }

  lemma CoversSame(cfg: Cfg, cfg': Cfg, a: uint32)
    requires SameBlocks(cfg, cfg')
    ensures forall k :: Covers(cfg', k, a) <==> Covers(cfg, k, a)
  {
  }

  method FindTerminator(block: seq<Instruction>) returns (t: Instruction)
    requires block != []
    ensures t == Terminator(block)
  {
    var last := block[|block| - 1];
    t := last;
    if |block| >= 2 {
      var candidate := block[|block| - 2];
      if candidate.hasDelaySlot && (candidate.isBranch || candidate.isJump)
         && Wrap32(candidate.address + 4) == last.address {
        t := candidate;
      }
    }
  }

  /** The edge of a direct jump, when its target starts a block of the function. */
  method LinkJump(cfg: Cfg, start: uint32, end: uint32, k: uint32, t: Instruction) returns (cfg': Cfg)
    requires k in cfg && EdgesInverse(cfg)
    ensures SameBlocks(cfg, cfg') && EdgesInverse(cfg')
    ensures var target := JumpTarget(t);
            var new' := if IsDirectJump(t) && start <= target < end && target in cfg then [target] else [];
            forall j :: j in cfg ==> cfg'[j].successors == cfg[j].successors + if j == k then new' else []
  {
    cfg' := cfg;
    if t.opcode == OPCODE_J || t.opcode == OPCODE_JAL {
      var target := JumpTarget(t);
      if target >= start && target < end && target in cfg {
        cfg' := AppendEdge(cfg, k, target);
      }
    }
  }

  /** The edge to the block behind the last instruction. */
  method LinkNext(cfg: Cfg, end: uint32, k: uint32, last: Instruction) returns (cfg': Cfg)
    requires k in cfg && EdgesInverse(cfg)
    ensures SameBlocks(cfg, cfg') && EdgesInverse(cfg')
    ensures var next := Wrap32(last.address + 4);
            var new' := if next <= end && next in cfg then [next] else [];
            forall j :: j in cfg ==> cfg'[j].successors == cfg[j].successors + if j == k then new' else []
  {
    cfg' := cfg;
    var nextAddr := Wrap32(last.address + 4);
    if nextAddr <= end && nextAddr in cfg {
      cfg' := AppendEdge(cfg, k, nextAddr);
    }
  }

  /** The edges out of block k, whichever way it ends; `added` are the new successors. */
  method LinkOut(cfg: Cfg, start: uint32, end: uint32, k: uint32, t: Instruction, last: Instruction)
    returns (cfg': Cfg, ghost added: seq<uint32>)
    requires k in cfg && EdgesInverse(cfg)
    ensures SameBlocks(cfg, cfg') && EdgesInverse(cfg')
    ensures OutOf(cfg, start, end, t, last, added)
    ensures forall j :: j in cfg ==> cfg'[j].successors == cfg[j].successors + if j == k then added else []
  {
    cfg', added := cfg, [];
    if t.isBranch {
      ghost var fall;
      cfg', fall := LinkBranch(cfg, end, k, t);
      added := TargetEdge(cfg, t) + fall;
    } else if t.isJump {
      cfg' := LinkJump(cfg, start, end, k, t);
      added := if IsDirectJump(t) && start <= JumpTarget(t) < end && JumpTarget(t) in cfg then [JumpTarget(t)] else [];
    } else if !last.isReturn {
      cfg' := LinkNext(cfg, end, k, last);
      var next := Wrap32(last.address + 4);
      added := if next <= end && next in cfg then [next] else [];
    }
  }

  /** The loop body of the linking pass: the out-edges of block k. */
  method LinkBlock(cfg: Cfg, start: uint32, end: uint32, k: uint32) returns (cfg': Cfg)
    requires k in cfg && cfg[k].instructions != [] && cfg[k].successors == []
    requires EdgesInverse(cfg)
    ensures SameBlocks(cfg, cfg') && EdgesInverse(cfg')
    ensures EdgesOf(cfg, start, end, k, cfg'[k].successors)
    ensures forall j :: j in cfg && j != k ==> cfg'[j].successors == cfg[j].successors
  {
    var block := cfg[k].instructions;
    var last := block[|block| - 1];
    var t := FindTerminator(block);
    ghost var added;
    cfg', added := LinkOut(cfg, start, end, k, t, last);
    OutIsEdges(cfg, start, end, k, t, last, added, cfg'[k].successors);
    forall j | j in cfg && j != k ensures cfg'[j].successors == cfg[j].successors {
      assert cfg'[j].successors == cfg[j].successors + [];
    }
  }

  lemma OutIsEdges(cfg: Cfg, start: uint32, end: uint32, k: uint32, t: Instruction, last: Instruction,
                   added: seq<uint32>, succ: seq<uint32>)
    requires k in cfg && cfg[k].instructions != []
    requires t == Terminator(cfg[k].instructions) && last == cfg[k].instructions[|cfg[k].instructions| - 1]
    requires OutOf(cfg, start, end, t, last, added) && succ == [] + added
    ensures EdgesOf(cfg, start, end, k, succ)
  {
    assert [] + added == added;
  }

  /** The linking pass, over the blocks in any order. */
  method LinkBlocks(blocks: Cfg, start: uint32, end: uint32) returns (cfg: Cfg)
    requires forall k :: k in blocks ==>
      blocks[k].instructions != [] && blocks[k].successors == [] && blocks[k].predecessors == []
    ensures SameBlocks(blocks, cfg) && EdgesInverse(cfg)
    ensures forall k :: k in cfg ==> EdgesOf(blocks, start, end, k, cfg[k].successors)
  {
    cfg := blocks;
    var pending := cfg.Keys;
    while pending != {}
      invariant LinkedBut(blocks, start, end, pending, cfg)
      decreases pending
    {
      var addr :| addr in pending;
      var linked := LinkBlock(cfg, start, end, addr);
      OneMoreLinked(blocks, start, end, pending, cfg, addr, linked);
      cfg := linked;
      pending := pending - {addr};
    }
  }

  /** The graph when the pending blocks are still to be linked. */
  ghost predicate LinkedBut(blocks: Cfg, start: uint32, end: uint32, pending: set<uint32>, cfg: Cfg) {
    && pending <= blocks.Keys
    && SameBlocks(blocks, cfg) && EdgesInverse(cfg)
    && (forall k :: k in pending ==> cfg[k].successors == [] && blocks[k].instructions != [])
    && (forall k :: k in cfg && k !in pending ==> EdgesOf(blocks, start, end, k, cfg[k].successors))
  }

  lemma OneMoreLinked(blocks: Cfg, start: uint32, end: uint32, pending: set<uint32>, cfg: Cfg, k: uint32, cfg': Cfg)
    requires LinkedBut(blocks, start, end, pending, cfg) && k in pending
    requires SameBlocks(cfg, cfg') && EdgesInverse(cfg') && EdgesOf(cfg, start, end, k, cfg'[k].successors)
    requires forall j :: j in cfg && j != k ==> cfg'[j].successors == cfg[j].successors
    ensures LinkedBut(blocks, start, end, pending - {k}, cfg')
  {
    SameBlocksTrans(blocks, cfg, cfg');
    EdgesOfSame(blocks, cfg, start, end, k, cfg'[k].successors);
  }

  lemma EdgesOfSame(cfg: Cfg, cfg': Cfg, start: uint32, end: uint32, k: uint32, succ: seq<uint32>)
    requires SameBlocks(cfg, cfg') && k in cfg && cfg[k].instructions != []
    requires EdgesOf(cfg', start, end, k, succ)
    ensures EdgesOf(cfg, start, end, k, succ)
  {
    assert forall j, a :: Covers(cfg', j, a) <==> Covers(cfg, j, a);
    var t := Terminator(cfg[k].instructions);
    if t.isBranch {
      var fall :| FallEdge(cfg', end, t, fall)
        && succ == (if BranchTarget(t) in cfg' then [BranchTarget(t)] else []) + fall;
      assert FallEdge(cfg, end, t, fall);
    }
  }

  // ---- The whole construction ---------------------------------------------------------------

  /** A function's control-flow graph; `leaders` is the set its blocks were cut at. */
  method BuildCfg(start: uint32, end: uint32, instrs: seq<Instruction>) returns (cfg: Cfg, ghost leaders: set<uint32>)
    requires Increasing(instrs)
    ensures LeadersOf(start, instrs, leaders)
    ensures SameBlocks(Blocks(instrs, leaders), cfg)
    ensures EdgesInverse(cfg)
    ensures forall k :: k in cfg ==> EdgesOf(Blocks(instrs, leaders), start, end, k, cfg[k].successors)
  {
    var found := CollectLeaders(start, instrs);
    leaders := found;
    var blocks := SplitBlocks(instrs, found);
    forall k | k in blocks
      ensures blocks[k].instructions != [] && blocks[k].successors == [] && blocks[k].predecessors == []
    {
      var c := BlockOrigin(instrs, leaders, k);
    }
    cfg := LinkBlocks(blocks, start, end);
  }

  /** Blocks follow each other without overlap. */
  lemma BlocksOrdered(instrs: seq<Instruction>, leaders: set<uint32>, c1: nat, c2: nat)
    requires Increasing(instrs) && Filed(instrs, leaders, c1) && Filed(instrs, leaders, c2)
    ensures c1 < c2 ==> BlockAt(instrs, leaders, c1).endAddress < Key(instrs, leaders, c2)
  {
  }

  /** At most one block covers an address, so the order in which the blocks are searched is immaterial. */
  lemma CoversUnique(instrs: seq<Instruction>, leaders: set<uint32>, k1: uint32, k2: uint32, a: uint32)
    requires Increasing(instrs)
    requires Covers(Blocks(instrs, leaders), k1, a) && Covers(Blocks(instrs, leaders), k2, a)
    ensures k1 == k2
  {
    var c1 := BlockOrigin(instrs, leaders, k1);
    var c2 := BlockOrigin(instrs, leaders, k2);
    BlocksOrdered(instrs, leaders, c1, c2);
    BlocksOrdered(instrs, leaders, c2, c1);
  }

  // ---- Exactness on decoded code ------------------------------------------------------------

  /** Word-aligned code inside the function's bounds, from its start on; words that do not decode may
      be missing. */
  ghost predicate DecodedWords(start: uint32, end: uint32, instrs: seq<Instruction>) {
    && start != 0
    && (instrs != [] ==> instrs[0].address == start)
    && Increasing(instrs)
    && forall i :: 0 <= i < |instrs| ==> instrs[i].address % 4 == 0 && instrs[i].address < end
  }

  /** The first branch or jump of a block is taken for its terminator, unless the word of its delay
      slot is missing. */
  lemma TerminatorIsFirstControl(start: uint32, instrs: seq<Instruction>, leaders: set<uint32>, k: uint32, j: nat)
    requires Increasing(instrs) && LeadersOf(start, instrs, leaders)
    requires k in Blocks(instrs, leaders)
    requires var block := Blocks(instrs, leaders)[k].instructions;
             j < |block| && IsControl(block[j]) && forall i :: 0 <= i < j ==> !IsControl(block[i])
    ensures var block := Blocks(instrs, leaders)[k].instructions;
            Terminator(block) == block[j]
            <==> (j == |block| - 1 || block[j + 1].address == Wrap32(block[j].address + 4))
  {
    ControlEndsBlock(start, instrs, leaders, k, j);
    var c := BlockOrigin(instrs, leaders, k);
    var block := Blocks(instrs, leaders)[k].instructions;
    if j == |block| - 2 {
      assert block[j] == instrs[c + j] && block[j + 1] == instrs[c + j + 1];
    }
    FirstControlOf(block, j);
  }

  lemma FirstControlOf(block: seq<Instruction>, j: nat)
    requires j < |block| && IsControl(block[j]) && forall i :: 0 <= i < j ==> !IsControl(block[i])
    requires j == |block| - 1
             || (j == |block| - 2 && block[j].hasDelaySlot && block[j].address < block[j + 1].address)
    ensures Terminator(block) == block[j]
            <==> (j == |block| - 1 || block[j + 1].address == Wrap32(block[j].address + 4))
  {
  }

  /** Such a gap costs the branch its edges: here it targets its own block, yet the block gets no successor. */
  lemma GapLosesBranch(start: uint32, end: uint32, branch: Instruction, after: Instruction, leaders: set<uint32>,
                       succ: seq<uint32>)
    requires 0 < start && start + 8 < end
    requires branch.isBranch && branch.hasDelaySlot && !IsDirectJump(branch)
    requires branch.address == start && BranchTarget(branch) == start
    requires !IsControl(after) && after.address == start + 8
    requires LeadersOf(start, [branch, after], leaders)
    requires EdgesOf(Blocks([branch, after], leaders), start, end, start, succ)
    ensures BranchTarget(branch) in Blocks([branch, after], leaders) && succ == []
  {
    var instrs := [branch, after];
    var blocks := Blocks(instrs, leaders);
    assert !MakesLeader(instrs, 0, start + 8) && !MakesLeader(instrs, 1, start + 8);
    assert start in leaders && start + 8 !in leaders;
    assert NextLeader(instrs, leaders, 1) == 2;
    assert Filed(instrs, leaders, 0);
    BlocksAre(instrs, leaders);
    assert blocks[start] == BlockAt(instrs, leaders, 0) && blocks[start].instructions == instrs[0..2];
    assert forall k :: k in blocks ==> k == start;
  }

  /** The not-taken address, or what remains of it past the end of the address space. */
  lemma NotTakenIs(t: Instruction)
    requires t.address % 4 == 0
    ensures var a := t.address + if t.hasDelaySlot then 8 else 4;
            NotTakenAddress(t) == (if a < TWO_32 then a else a - TWO_32) && (a >= TWO_32 ==> NotTakenAddress(t) <= 4)
  {
  }

  /** A block opened before a leader ends before it. */
  lemma EndsBefore(instrs: seq<Instruction>, leaders: set<uint32>, d: nat, x: nat)
    requires Increasing(instrs) && d < x <= |instrs| && (x < |instrs| ==> instrs[x].address in leaders)
    ensures NextLeader(instrs, leaders, d + 1) <= x
    ensures BlockAt(instrs, leaders, d).endAddress <= instrs[x - 1].address
  {
  }

  /** The address behind a block's branching terminator lies in no block's interior. The terminator
      is instruction i, and e is where its block ends. */
  lemma NotTakenNeverInside(start: uint32, end: uint32, instrs: seq<Instruction>, leaders: set<uint32>,
                            i: nat, e: nat, d: nat)
    requires DecodedWords(start, end, instrs) && LeadersOf(start, instrs, leaders)
    requires i < e <= |instrs| && e <= AfterControl(instrs, i) && IsControl(instrs[i])
    requires e < |instrs| ==> instrs[e].address in leaders
    requires e == i + 1 || instrs[i + 1].address == instrs[i].address + 4
    requires d < |instrs|
    requires instrs[d].address <= NotTakenAddress(instrs[i]) <= BlockAt(instrs, leaders, d).endAddress
    ensures instrs[d].address == NotTakenAddress(instrs[i])
  {
    var m := AfterControl(instrs, i);
    var a := NotTakenAddress(instrs[i]);
    NotTakenIs(instrs[i]);
    Spaced(start, end, instrs, 0, d);
    assert a > 4 ==> instrs[e - 1].address < a;
    if a <= 4 {
    } else if d < e {
      EndsBefore(instrs, leaders, d, e);
    } else if d < m {
      if m < |instrs| {
        assert MakesLeader(instrs, i, instrs[m].address);
        assert instrs[m].address in leaders;
      }
      EndsBefore(instrs, leaders, d, m);
    } else {
      Spaced(start, end, instrs, i, d);
    }
  }

  lemma {:induction false} Spaced(start: uint32, end: uint32, instrs: seq<Instruction>, p: nat, q: nat)
    requires DecodedWords(start, end, instrs) && p <= q < |instrs|
    ensures instrs[p].address + 4 * (q - p) <= instrs[q].address
    ensures 4 <= instrs[p].address
    decreases q - p
  {
    var x := instrs[p].address;
    assert x % 4 == 0 && (p == 0 || instrs[0].address < x);
    if p < q {
      Spaced(start, end, instrs, p + 1, q);
      assert instrs[p + 1].address % 4 == 0;
    }
  }

  /** Where a terminator sits in its block. */
  lemma TerminatorAt(instrs: seq<Instruction>, leaders: set<uint32>, c: nat) returns (i: nat)
    requires Increasing(instrs) && c < |instrs|
    ensures var e := NextLeader(instrs, leaders, c + 1);
            && c <= i < e && instrs[i] == Terminator(BlockAt(instrs, leaders, c).instructions)
            && (e == i + 1 || (e == i + 2 && instrs[i + 1].address == Wrap32(instrs[i].address + 4)))
  {
    var e := NextLeader(instrs, leaders, c + 1);
    var block := instrs[c..e];
    i := if Terminator(block) == block[|block| - 1] then e - 1 else e - 2;
  }

  lemma KeysAreAddresses(start: uint32, end: uint32, instrs: seq<Instruction>, leaders: set<uint32>, k: uint32)
    returns (d: nat)
    requires DecodedWords(start, end, instrs) && LeadersOf(start, instrs, leaders)
    requires k in Blocks(instrs, leaders)
    ensures d < |instrs| && instrs[d].address == k < end
    ensures Blocks(instrs, leaders)[k] == BlockAt(instrs, leaders, d)
  {
    d := BlockOrigin(instrs, leaders, k);
    assert start in leaders && instrs[0].address == start;
  }

  lemma NotTakenStartsBlock(start: uint32, end: uint32, instrs: seq<Instruction>, leaders: set<uint32>,
                            c: nat, i: nat, k: uint32)
    requires DecodedWords(start, end, instrs) && LeadersOf(start, instrs, leaders)
    requires c <= i < |instrs| && i < NextLeader(instrs, leaders, c + 1) && instrs[i].isBranch
    requires var e := NextLeader(instrs, leaders, c + 1);
             e == i + 1 || (e == i + 2 && instrs[i + 1].address == Wrap32(instrs[i].address + 4))
    requires Covers(Blocks(instrs, leaders), k, NotTakenAddress(instrs[i]))
    ensures k == NotTakenAddress(instrs[i])
  {
    var d := KeysAreAddresses(start, end, instrs, leaders, k);
    var e := NextLeader(instrs, leaders, c + 1);
    BlockStopsAfterControl(start, instrs, leaders, c, i);
    if e == i + 2 {
      DelaySlotBehind(instrs, i);
    }
    CoveredRange(instrs, leaders, d, NotTakenAddress(instrs[i]));
    NotTakenNeverInside(start, end, instrs, leaders, i, e, d);
  }

  lemma DelaySlotBehind(instrs: seq<Instruction>, i: nat)
    requires Increasing(instrs) && i + 1 < |instrs| && instrs[i + 1].address == Wrap32(instrs[i].address + 4)
    ensures instrs[i + 1].address == instrs[i].address + 4
  {
    assert instrs[i].address < instrs[i + 1].address;
  }

  lemma CoveredRange(instrs: seq<Instruction>, leaders: set<uint32>, d: nat, a: uint32)
    requires Increasing(instrs) && d < |instrs|
    ensures instrs[d].address <= BlockAt(instrs, leaders, d).endAddress
  {
  }

  /** The not-taken edge of a block's branching terminator. */
  lemma NotTakenEdge(start: uint32, end: uint32, instrs: seq<Instruction>, leaders: set<uint32>, c: nat, fall: seq<uint32>)
    requires DecodedWords(start, end, instrs) && LeadersOf(start, instrs, leaders)
    requires c < |instrs|
    requires var t := Terminator(BlockAt(instrs, leaders, c).instructions);
             t.isBranch && !IsLikely(t) && FallEdge(Blocks(instrs, leaders), end, t, fall)
    ensures var a := NotTakenAddress(Terminator(BlockAt(instrs, leaders, c).instructions));
            fall == if a in Blocks(instrs, leaders) then [a] else []
  {
    var blocks := Blocks(instrs, leaders);
    var i := TerminatorAt(instrs, leaders, c);
    var a := NotTakenAddress(instrs[i]);
    if a in blocks {
      var d := KeysAreAddresses(start, end, instrs, leaders, a);
      assert Covers(blocks, a, a);
    }
    if fall != [] {
      NotTakenStartsBlock(start, end, instrs, leaders, c, i, fall[0]);
    }
  }

  /** Main result on edges: a block that ends in a branch other than a likely one has exactly two
      successors, the branch target and the address behind the delay slot, each when it starts a block. */
  lemma BranchSuccessorsExact(start: uint32, end: uint32, instrs: seq<Instruction>, leaders: set<uint32>,
                              k: uint32, succ: seq<uint32>)
    requires DecodedWords(start, end, instrs) && LeadersOf(start, instrs, leaders)
    requires EdgesOf(Blocks(instrs, leaders), start, end, k, succ)
    requires var t := Terminator(Blocks(instrs, leaders)[k].instructions); t.isBranch && !IsLikely(t)
    ensures var blocks := Blocks(instrs, leaders);
            var t := Terminator(blocks[k].instructions);
            succ == (if BranchTarget(t) in blocks then [BranchTarget(t)] else [])
                    + if NotTakenAddress(t) in blocks then [NotTakenAddress(t)] else []
  {
    var blocks := Blocks(instrs, leaders);
    var c := KeysAreAddresses(start, end, instrs, leaders, k);
    var t := Terminator(blocks[k].instructions);
    var fall :| FallEdge(blocks, end, t, fall)
      && succ == (if BranchTarget(t) in blocks then [BranchTarget(t)] else []) + fall;
    NotTakenEdge(start, end, instrs, leaders, c, fall);
  }

  /** Where control goes from such a block, by the displacement d the branch holds. */
  lemma BranchEdges(start: uint32, end: uint32, instrs: seq<Instruction>, leaders: set<uint32>,
                    k: uint32, succ: seq<uint32>, d: int, taken: uint32, next: uint32)
    requires DecodedWords(start, end, instrs) && LeadersOf(start, instrs, leaders)
    requires EdgesOf(Blocks(instrs, leaders), start, end, k, succ)
    requires var t := Terminator(Blocks(instrs, leaders)[k].instructions);
             && t.isBranch && !(0x14 <= t.opcode <= 0x17)
             && -0x8000 <= d < 0x8000 && t.immediate == d % 0x1_0000
             && taken == t.address + 4 + 4 * d && next == t.address + if t.hasDelaySlot then 8 else 4
    ensures var blocks := Blocks(instrs, leaders);
            succ == (if taken in blocks then [taken] else []) + if next in blocks then [next] else []
  {
    var t := Terminator(Blocks(instrs, leaders)[k].instructions);
    BranchGoesTo(t, d, taken);
    OpcodeNumbers(t);
    BranchSuccessorsExact(start, end, instrs, leaders, k, succ);
  }

  /** A block that ends in a direct jump leads to its target, when that starts a block. */
  lemma JumpEdges(start: uint32, end: uint32, instrs: seq<Instruction>, leaders: set<uint32>,
                  k: uint32, succ: seq<uint32>, target: uint32)
    requires DecodedWords(start, end, instrs) && LeadersOf(start, instrs, leaders)
    requires EdgesOf(Blocks(instrs, leaders), start, end, k, succ)
    requires var t := Terminator(Blocks(instrs, leaders)[k].instructions);
             && t.isJump && !t.isBranch && (t.opcode == 2 || t.opcode == 3)
             && target % 4 == 0 && t.target == target % 0x1000_0000 / 4
             && target / 0x1000_0000 == (if t.address + 4 < TWO_32 then t.address + 4 else 0) / 0x1000_0000
    ensures succ == if target in Blocks(instrs, leaders) then [target] else []
  {
    var t := Terminator(Blocks(instrs, leaders)[k].instructions);
    OpcodeNumbers(t);
    JumpGoesTo(t, target);
    if target in Blocks(instrs, leaders) {
      var d := KeysAreAddresses(start, end, instrs, leaders, target);
      Spaced(start, end, instrs, 0, d);
    }
  }

  /** A block without branch or jump leads to the next word's, when that starts a block, unless it ends in a return. */
  lemma PlainEdges(start: uint32, end: uint32, instrs: seq<Instruction>, leaders: set<uint32>,
                   k: uint32, succ: seq<uint32>, next: nat)
    requires DecodedWords(start, end, instrs) && LeadersOf(start, instrs, leaders)
    requires EdgesOf(Blocks(instrs, leaders), start, end, k, succ)
    requires var block := Blocks(instrs, leaders)[k].instructions;
             && (forall inst <- block :: !inst.isBranch && !inst.isJump)
             && next == block[|block| - 1].address + 4
    ensures var blocks := Blocks(instrs, leaders);
            var block := blocks[k].instructions;
            succ == if !block[|block| - 1].isReturn && next < TWO_32 && next in blocks then [next] else []
  {
    PlainSuccessors(Blocks(instrs, leaders), start, end, k, succ);
    KeyBounds(start, end, instrs, leaders, Wrap32(next));
    LastAligned(start, end, instrs, leaders, k);
  }

  lemma KeyBounds(start: uint32, end: uint32, instrs: seq<Instruction>, leaders: set<uint32>, k: uint32)
    requires DecodedWords(start, end, instrs) && LeadersOf(start, instrs, leaders)
    ensures k in Blocks(instrs, leaders) ==> 0 < k < end
  {
    if k in Blocks(instrs, leaders) {
      var d := KeysAreAddresses(start, end, instrs, leaders, k);
      Spaced(start, end, instrs, 0, d);
    }
  }

  lemma LastAligned(start: uint32, end: uint32, instrs: seq<Instruction>, leaders: set<uint32>, k: uint32)
    requires DecodedWords(start, end, instrs) && LeadersOf(start, instrs, leaders) && k in Blocks(instrs, leaders)
    ensures var block := Blocks(instrs, leaders)[k].instructions;
            block != [] && block[|block| - 1].address + 4 <= TWO_32
  {
    var c := KeysAreAddresses(start, end, instrs, leaders, k);
    BlockEnd(instrs, leaders, c);
    AlignedBelow(instrs[NextLeader(instrs, leaders, c + 1) - 1].address);
  }

  lemma BlockEnd(instrs: seq<Instruction>, leaders: set<uint32>, c: nat)
    requires c < |instrs|
    ensures var block := BlockAt(instrs, leaders, c).instructions;
            block != [] && block[|block| - 1] == instrs[NextLeader(instrs, leaders, c + 1) - 1]
  {
  }

  lemma AlignedBelow(a: uint32)
    ensures a % 4 == 0 ==> a + 4 <= TWO_32
  {
  }

  lemma PlainSuccessors(cfg: Cfg, start: uint32, end: uint32, k: uint32, succ: seq<uint32>)
    requires EdgesOf(cfg, start, end, k, succ)
    requires forall inst <- cfg[k].instructions :: !inst.isBranch && !inst.isJump
    ensures var last := cfg[k].instructions[|cfg[k].instructions| - 1];
            var next := Wrap32(last.address + 4);
            succ == if !last.isReturn && next <= end && next in cfg then [next] else []
  {
    assert !Terminator(cfg[k].instructions).isBranch && !Terminator(cfg[k].instructions).isJump;
  }

  /** A jump through a register leads nowhere in the graph. */
  lemma IndirectEdges(cfg: Cfg, start: uint32, end: uint32, k: uint32, succ: seq<uint32>)
    requires EdgesOf(cfg, start, end, k, succ)
    requires var t := Terminator(cfg[k].instructions); t.isJump && !t.isBranch && t.opcode != 2 && t.opcode != 3
    ensures succ == []
  {
    OpcodeNumbers(Terminator(cfg[k].instructions));
  }
}
