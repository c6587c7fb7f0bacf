/** First half of control-flow graph construction: leaders, and splitting a function into blocks. */
module BasicBlocks {
  import opened Instructions

  datatype CfgNode = CfgNode(
    startAddress: uint32,
    endAddress: uint32,
    instructions: seq<Instruction>,
    predecessors: seq<uint32>,
    successors: seq<uint32>,
    isJumpTarget: bool)

  type Cfg = map<uint32, CfgNode>

  ghost predicate Increasing(instrs: seq<Instruction>) {
    forall i, j :: 0 <= i < j < |instrs| ==> instrs[i].address < instrs[j].address
  }

  // ---- Leaders ------------------------------------------------------------------------------

  /** The index control reaches when the branch or jump at i is not taken. */
  function AfterControl(instrs: seq<Instruction>, i: nat): nat
    requires i < |instrs|
  {
    i + if instrs[i].hasDelaySlot then 2 else 1
  }

  /** The branch or jump at i makes address a start a block. */
  predicate MakesLeader(instrs: seq<Instruction>, i: nat, a: uint32)
    requires i < |instrs|
  {
    var inst := instrs[i];
    IsControl(inst) &&
    (|| (AfterControl(instrs, i) < |instrs| && a == instrs[AfterControl(instrs, i)].address)
     || (inst.isBranch && a == BranchTarget(inst))
     || (IsDirectJump(inst) && !inst.isCall && a == JumpTarget(inst)))
  }

  ghost predicate IsLeader(start: uint32, instrs: seq<Instruction>, a: uint32) {
    a == start || exists i :: 0 <= i < |instrs| && MakesLeader(instrs, i, a)
  }

  ghost predicate LeadersOf(start: uint32, instrs: seq<Instruction>, leaders: set<uint32>) {
    forall a :: a in leaders <==> IsLeader(start, instrs, a)
  }

  method CollectLeaders(start: uint32, instrs: seq<Instruction>) returns (leaders: set<uint32>)
    ensures forall a :: a in leaders <==> IsLeader(start, instrs, a)
  {
    leaders := {start};
    for i := 0 to |instrs|
      invariant forall a :: a in leaders <==> a == start || exists k :: 0 <= k < i && MakesLeader(instrs, k, a)
    {
      var inst := instrs[i];
      ghost var before := leaders;
      if inst.isBranch || inst.isJump {
        var fallthroughIndex := i + if inst.hasDelaySlot then 2 else 1;
        if fallthroughIndex < |instrs| {
          leaders := leaders + {instrs[fallthroughIndex].address};
        }
        if inst.isBranch {
          var offset := 4 * if inst.immediate >= 0x8000 then inst.immediate - 0x1_0000 else inst.immediate;
          leaders := leaders + {Wrap32(inst.address + 4 + offset)};
        }
        if (inst.opcode == OPCODE_J || inst.opcode == OPCODE_JAL) && !inst.isCall {
          leaders := leaders + {JumpTarget(inst)};
        }
      }
      assert forall a :: a in leaders <==> a in before || MakesLeader(instrs, i, a);
    }
  }

  /** A branch makes the address d words from its delay slot a leader, and the one control falls through to. */
  lemma BranchLeads(start: uint32, instrs: seq<Instruction>, leaders: set<uint32>, i: nat, d: int, t: uint32)
    requires LeadersOf(start, instrs, leaders) && i < |instrs| && instrs[i].isBranch
    requires -0x8000 <= d < 0x8000 && instrs[i].immediate == d % 0x1_0000
    requires t == instrs[i].address + 4 + 4 * d
    ensures t in leaders
    ensures instrs[i].hasDelaySlot && i + 2 < |instrs| ==> instrs[i + 2].address in leaders
    ensures !instrs[i].hasDelaySlot && i + 1 < |instrs| ==> instrs[i + 1].address in leaders
  {
    BranchGoesTo(instrs[i], d, t);
    assert MakesLeader(instrs, i, t);
    var next := i + if instrs[i].hasDelaySlot then 2 else 1;
    assert next < |instrs| ==> MakesLeader(instrs, i, instrs[next].address);
  }

  /** A jump that is no call makes its target a leader. */
  lemma JumpLeads(start: uint32, instrs: seq<Instruction>, leaders: set<uint32>, i: nat, t: uint32)
    requires LeadersOf(start, instrs, leaders) && i < |instrs|
    requires instrs[i].isJump && instrs[i].opcode == 2 && !instrs[i].isCall
    requires t % 4 == 0 && instrs[i].target == t % 0x1000_0000 / 4
    requires instrs[i].address + 4 < TWO_32 && t / 0x1000_0000 == (instrs[i].address + 4) / 0x1000_0000
    ensures t in leaders
  {
    JumpGoesTo(instrs[i], t);
    assert MakesLeader(instrs, i, t);
  }

  // ---- Splitting into blocks ----------------------------------------------------------------

  /** The first leader index at or after i, or the end of the list. */
  function NextLeader(instrs: seq<Instruction>, leaders: set<uint32>, i: nat): (e: nat)
    requires i <= |instrs|
    ensures i <= e <= |instrs|
    ensures e < |instrs| ==> instrs[e].address in leaders
    ensures forall k :: i <= k < e ==> instrs[k].address !in leaders
    decreases |instrs| - i
  {
    if i == |instrs| || instrs[i].address in leaders then i else NextLeader(instrs, leaders, i + 1)
  }

  /** Index c opens a block: the list's start, or a leader. */
  predicate Opens(instrs: seq<Instruction>, leaders: set<uint32>, c: nat) {
    c < |instrs| && (c == 0 || instrs[c].address in leaders)
  }

  /** The key a block is filed under: its leader's address, or zero when it has no leader. */
  function Key(instrs: seq<Instruction>, leaders: set<uint32>, c: nat): uint32
    requires c < |instrs|
  {
    if instrs[c].address in leaders then instrs[c].address else 0
  }

  /** The block opened at c: everything up to the next leader. */
  function BlockAt(instrs: seq<Instruction>, leaders: set<uint32>, c: nat): CfgNode
    requires c < |instrs|
  {
    var e := NextLeader(instrs, leaders, c + 1);
    CfgNode(Key(instrs, leaders, c), instrs[e - 1].address, instrs[c..e], [], [], instrs[c].address in leaders)
  }

  /** Zero doubles as the loop's "no block open" mark: a block keyed zero is dropped when another follows. */
  predicate Filed(instrs: seq<Instruction>, leaders: set<uint32>, c: nat) {
    Opens(instrs, leaders, c)
    && (Key(instrs, leaders, c) != 0 || NextLeader(instrs, leaders, c + 1) == |instrs|)
  }

  /** Adding the blocks of the instructions from c on, where c opens a block, to those filed so far. */
  function Split(instrs: seq<Instruction>, leaders: set<uint32>, c: nat, filed: Cfg): Cfg
    requires c < |instrs|
    decreases |instrs| - c
  {
    var e := NextLeader(instrs, leaders, c + 1);
    var key := Key(instrs, leaders, c);
    var filed' := if key != 0 || e == |instrs| then filed[key := BlockAt(instrs, leaders, c)] else filed;
    if e < |instrs| then Split(instrs, leaders, e, filed') else filed'
  }

  /** The block map of a whole instruction list. */
  function Blocks(instrs: seq<Instruction>, leaders: set<uint32>): Cfg {
    if instrs == [] then map[] else Split(instrs, leaders, 0, map[])
  }

  /** The loop before instruction i: the block opened at c is still open. */
  ghost predicate Splitting(instrs: seq<Instruction>, leaders: set<uint32>, i: nat, c: nat,
                            leader: uint32, node: CfgNode, cfg: Cfg) {
    && c < i <= |instrs|
    && NextLeader(instrs, leaders, c + 1) >= i
    && leader == Key(instrs, leaders, c)
    && node == CfgNode(leader, 0, instrs[c..i], [], [], instrs[c].address in leaders)
    && Split(instrs, leaders, c, cfg) == Split(instrs, leaders, 0, map[])
  }

  /** The first instruction opens a block. */
  lemma FirstOpens(instrs: seq<Instruction>, leaders: set<uint32>)
    requires instrs != []
    ensures var key := Key(instrs, leaders, 0);
            Splitting(instrs, leaders, 1, 0, key,
                      CfgNode(key, 0, [instrs[0]], [], [], instrs[0].address in leaders), map[])
  {
    assert instrs[0..1] == [instrs[0]];
  }

  /** A leader closes the open block, which is filed unless its key is zero, and opens the next. */
  lemma LeaderOpens(instrs: seq<Instruction>, leaders: set<uint32>, i: nat, c: nat,
                    leader: uint32, node: CfgNode, cfg: Cfg)
    requires Splitting(instrs, leaders, i, c, leader, node, cfg) && i < |instrs| && instrs[i].address in leaders
    ensures var cfg' := if leader != 0 then cfg[leader := node.(endAddress := instrs[i - 1].address)] else cfg;
            var key := instrs[i].address;
            Splitting(instrs, leaders, i + 1, i, key, CfgNode(key, 0, [instrs[i]], [], [], true), cfg')
  {
    assert NextLeader(instrs, leaders, c + 1) == i;
    assert node.(endAddress := instrs[i - 1].address) == BlockAt(instrs, leaders, c);
    assert instrs[i..i + 1] == [instrs[i]];
  }

  /** Any other instruction joins it. */
  lemma OtherJoins(instrs: seq<Instruction>, leaders: set<uint32>, i: nat, c: nat,
                   leader: uint32, node: CfgNode, cfg: Cfg)
    requires Splitting(instrs, leaders, i, c, leader, node, cfg) && i < |instrs| && instrs[i].address !in leaders
    ensures Splitting(instrs, leaders, i + 1, c, leader, node.(instructions := node.instructions + [instrs[i]]), cfg)
  {
    assert NextLeader(instrs, leaders, c + 1) > i;
    assert instrs[c..i] + [instrs[i]] == instrs[c..i + 1];
  }

  /** The end of the list files the open block, whatever its key. */
  lemma EndFiles(instrs: seq<Instruction>, leaders: set<uint32>, c: nat, leader: uint32, node: CfgNode, cfg: Cfg)
    requires Splitting(instrs, leaders, |instrs|, c, leader, node, cfg)
    ensures cfg[leader := node.(endAddress := instrs[|instrs| - 1].address)] == Blocks(instrs, leaders)
  {
    assert NextLeader(instrs, leaders, c + 1) == |instrs|;
    assert node.(endAddress := instrs[|instrs| - 1].address) == BlockAt(instrs, leaders, c);
  }

  method SplitBlocks(instrs: seq<Instruction>, leaders: set<uint32>) returns (cfg: Cfg)
    ensures cfg == Blocks(instrs, leaders)
  {
    cfg := map[];
    var currentLeader: uint32 := 0;
    var currentNode := CfgNode(0, 0, [], [], [], false);
    ghost var c := 0;
    for i := 0 to |instrs|
      invariant i == 0 ==> c == 0 && currentLeader == 0 && cfg == map[] && currentNode == CfgNode(0, 0, [], [], [], false)
      invariant 0 < i < |instrs| ==> Splitting(instrs, leaders, i, c, currentLeader, currentNode, cfg)
      invariant 0 < i == |instrs| ==> cfg == Blocks(instrs, leaders)
    {
      var inst := instrs[i];
      if i == 0 {
        FirstOpens(instrs, leaders);
      } else if inst.address in leaders {
        LeaderOpens(instrs, leaders, i, c, currentLeader, currentNode, cfg);
      } else {
        OtherJoins(instrs, leaders, i, c, currentLeader, currentNode, cfg);
      }
      if inst.address in leaders {
        if currentLeader != 0 {
          currentNode := currentNode.(endAddress := instrs[i - 1].address);
          cfg := cfg[currentLeader := currentNode];
        }
        currentLeader := inst.address;
        currentNode := CfgNode(currentLeader, 0, [], [], [], true);
        c := i;
      }
      currentNode := currentNode.(instructions := currentNode.instructions + [inst]);
      assert Splitting(instrs, leaders, i + 1, c, currentLeader, currentNode, cfg);
      if i == |instrs| - 1 {
        EndFiles(instrs, leaders, c, currentLeader, currentNode, cfg);
        currentNode := currentNode.(endAddress := inst.address);
        cfg := cfg[currentLeader := currentNode];
      }
    }
  }

  // ---- What the blocks are ------------------------------------------------------------------

  ghost predicate LaterKey(instrs: seq<Instruction>, leaders: set<uint32>, c: nat, k: uint32) {
    exists d :: c <= d && Filed(instrs, leaders, d) && Key(instrs, leaders, d) == k
  }

  /** Keys that no block from c on is filed under keep what they had. */
  lemma {:induction false} SplitFrame(instrs: seq<Instruction>, leaders: set<uint32>, c: nat, filed: Cfg, k: uint32)
    requires Opens(instrs, leaders, c) && !LaterKey(instrs, leaders, c, k)
    ensures var r := Split(instrs, leaders, c, filed);
            (k in r <==> k in filed) && (k in r ==> r[k] == filed[k])
    decreases |instrs| - c
  {
    var e := NextLeader(instrs, leaders, c + 1);
    var key := Key(instrs, leaders, c);
    assert Filed(instrs, leaders, c) ==> key != k;
    if e < |instrs| {
      SplitFrame(instrs, leaders, e,
                 if key != 0 || e == |instrs| then filed[key := BlockAt(instrs, leaders, c)] else filed, k);
    }
  }

  /** Every filed block is found under its key. */
  lemma {:induction false} SplitFinds(instrs: seq<Instruction>, leaders: set<uint32>, c: nat, filed: Cfg, d: nat)
    requires Increasing(instrs) && Opens(instrs, leaders, c)
    requires c <= d && Filed(instrs, leaders, d)
    ensures var r := Split(instrs, leaders, c, filed);
            Key(instrs, leaders, d) in r && r[Key(instrs, leaders, d)] == BlockAt(instrs, leaders, d)
    decreases |instrs| - c
  {
    var e := NextLeader(instrs, leaders, c + 1);
    var key := Key(instrs, leaders, c);
    if e < |instrs| {
      var filed' := if key != 0 || e == |instrs| then filed[key := BlockAt(instrs, leaders, c)] else filed;
      if d == c {
        assert !LaterKey(instrs, leaders, e, key);
        SplitFrame(instrs, leaders, e, filed', key);
      } else {
        SplitFinds(instrs, leaders, e, filed', d);
      }
    }
  }

  /** Exactly the filed blocks, each under its own key. */
  lemma BlocksAre(instrs: seq<Instruction>, leaders: set<uint32>)
    requires Increasing(instrs)
    ensures var cfg := Blocks(instrs, leaders);
            && HoldsBlocks(instrs, leaders, cfg)
            && (forall k :: k in cfg ==> LaterKey(instrs, leaders, 0, k))
  {
    var cfg := Blocks(instrs, leaders);
    if instrs != [] {
      forall c: nat | Filed(instrs, leaders, c)
        ensures Key(instrs, leaders, c) in cfg && cfg[Key(instrs, leaders, c)] == BlockAt(instrs, leaders, c)
      {
        SplitFinds(instrs, leaders, 0, map[], c);
      }
      forall k | k in cfg ensures LaterKey(instrs, leaders, 0, k) {
        if !LaterKey(instrs, leaders, 0, k) {
          SplitFrame(instrs, leaders, 0, map[], k);
        }
      }
    }
  }

  ghost predicate Ascending(ks: seq<uint32>) {
    forall i, j :: 0 <= i < j < |ks| ==> ks[i] < ks[j]
  }

  /** The block instructions laid end to end, in the given key order. */
  function Joined(cfg: Cfg, ks: seq<uint32>): seq<Instruction>
    requires forall k :: k in ks ==> k in cfg
  {
    if ks == [] then [] else cfg[ks[0]].instructions + Joined(cfg, ks[1..])
  }

  /** The keys of the filed blocks from c on, in list order. */
  function KeysInOrder(instrs: seq<Instruction>, leaders: set<uint32>, c: nat): seq<uint32>
    requires c < |instrs|
    decreases |instrs| - c
  {
    var e := NextLeader(instrs, leaders, c + 1);
    (if Filed(instrs, leaders, c) then [Key(instrs, leaders, c)] else [])
    + if e < |instrs| then KeysInOrder(instrs, leaders, e) else []
  }

  lemma {:induction false} KeysInOrderAre(instrs: seq<Instruction>, leaders: set<uint32>, c: nat)
    requires Increasing(instrs) && Opens(instrs, leaders, c)
    ensures Ascending(KeysInOrder(instrs, leaders, c))
    ensures forall k :: k in KeysInOrder(instrs, leaders, c) <==> LaterKey(instrs, leaders, c, k)
    decreases |instrs| - c
  {
    var e := NextLeader(instrs, leaders, c + 1);
    if e < |instrs| {
      KeysInOrderAre(instrs, leaders, e);
    }
    var rest := if e < |instrs| then KeysInOrder(instrs, leaders, e) else [];
    forall j | 0 <= j < |rest| ensures Key(instrs, leaders, c) < rest[j] {
      assert rest[j] in rest && LaterKey(instrs, leaders, e, rest[j]);
    }
    forall k ensures k in KeysInOrder(instrs, leaders, c) <==> LaterKey(instrs, leaders, c, k) {
      if d: nat :| c <= d && Filed(instrs, leaders, d) && Key(instrs, leaders, d) == k {
        if d != c {
          assert e <= d;
        }
      }
    }
  }

  lemma {:induction false} AscendingUnique(s: seq<uint32>, t: seq<uint32>)
    requires Ascending(s) && Ascending(t) && forall k :: k in s <==> k in t
    ensures s == t
  {
    assert (s != [] ==> s[0] in s) && (t != [] ==> t[0] in t);
    if s != [] && t != [] {
      assert s[0] in t && t[0] in s;
      assert s == [s[0]] + s[1..] && t == [t[0]] + t[1..];
      forall k ensures k in s[1..] <==> k in t[1..] {
        assert k in s <==> k == s[0] || k in s[1..];
        assert k in t <==> k == t[0] || k in t[1..];
        assert s[0] !in s[1..] && t[0] !in t[1..];
      }
      AscendingUnique(s[1..], t[1..]);
    }
  }

  lemma JoinedCons(cfg: Cfg, k: uint32, rest: seq<uint32>)
    requires k in cfg && forall r :: r in rest ==> r in cfg
    ensures forall r :: r in [k] + rest ==> r in cfg
    ensures Joined(cfg, [k] + rest) == cfg[k].instructions + Joined(cfg, rest)
  {
    assert ([k] + rest)[1..] == rest;
  }

  /** The keys of cfg's blocks from c on. */
  ghost predicate HoldsBlocks(instrs: seq<Instruction>, leaders: set<uint32>, cfg: Cfg) {
    forall d :: Filed(instrs, leaders, d) ==>
      Key(instrs, leaders, d) in cfg && cfg[Key(instrs, leaders, d)] == BlockAt(instrs, leaders, d)
  }

  lemma KeysHeld(instrs: seq<Instruction>, leaders: set<uint32>, c: nat, cfg: Cfg)
    requires Increasing(instrs) && Opens(instrs, leaders, c) && HoldsBlocks(instrs, leaders, cfg)
    ensures forall k :: k in KeysInOrder(instrs, leaders, c) ==> k in cfg
  {
    KeysInOrderAre(instrs, leaders, c);
  }

  lemma JoinedStep(instrs: seq<Instruction>, leaders: set<uint32>, c: nat, cfg: Cfg, rest: seq<uint32>)
    requires Filed(instrs, leaders, c) && HoldsBlocks(instrs, leaders, cfg)
    requires forall k :: k in rest ==> k in cfg
    requires Joined(cfg, rest) == instrs[NextLeader(instrs, leaders, c + 1)..]
    ensures forall k :: k in [Key(instrs, leaders, c)] + rest ==> k in cfg
    ensures Joined(cfg, [Key(instrs, leaders, c)] + rest) == instrs[c..]
  {
    var e := NextLeader(instrs, leaders, c + 1);
    JoinedCons(cfg, Key(instrs, leaders, c), rest);
    assert instrs[c..] == instrs[c..e] + instrs[e..];
  }

  lemma {:induction false} JoinedFrom(instrs: seq<Instruction>, leaders: set<uint32>, c: nat, cfg: Cfg)
    requires Increasing(instrs) && Opens(instrs, leaders, c) && HoldsBlocks(instrs, leaders, cfg)
    requires forall k :: k in KeysInOrder(instrs, leaders, c) ==> k in cfg
    ensures Joined(cfg, KeysInOrder(instrs, leaders, c))
            == instrs[if Filed(instrs, leaders, c) then c else NextLeader(instrs, leaders, c + 1)..]
    decreases |instrs| - c
  {
    var e := NextLeader(instrs, leaders, c + 1);
    var rest := if e < |instrs| then KeysInOrder(instrs, leaders, e) else [];
    if e < |instrs| {
      assert instrs[0].address < instrs[e].address;
      KeysHeld(instrs, leaders, e, cfg);
      JoinedFrom(instrs, leaders, e, cfg);
    }
    if Filed(instrs, leaders, c) {
      JoinedStep(instrs, leaders, c, cfg, rest);
    } else {
      assert [] + rest == rest;
    }
  }

  /** Main result on splitting: the blocks, joined in key order, are exactly the instruction list,
      unless the list does not start at a non-zero leader and a later leader exists. */
  lemma BlocksTile(instrs: seq<Instruction>, leaders: set<uint32>, ks: seq<uint32>)
    requires Increasing(instrs) && instrs != []
    requires Ascending(ks) && forall k :: k in ks <==> k in Blocks(instrs, leaders)
    ensures Joined(Blocks(instrs, leaders), ks) == instrs
            <==> (|| (instrs[0].address in leaders && instrs[0].address != 0)
                  || forall i :: 0 < i < |instrs| ==> instrs[i].address !in leaders)
  {
    BlocksAre(instrs, leaders);
    KeysInOrderAre(instrs, leaders, 0);
    AscendingUnique(ks, KeysInOrder(instrs, leaders, 0));
    KeysHeld(instrs, leaders, 0, Blocks(instrs, leaders));
    JoinedFrom(instrs, leaders, 0, Blocks(instrs, leaders));
  }

  /** A function at address zero whose first branch targets the next word loses its first block. */
  lemma ZeroKeyedBlockDropped(branch: Instruction, next: Instruction, leaders: set<uint32>, ks: seq<uint32>)
    requires branch.isBranch && branch.address == 0 && branch.immediate == 0 && next.address == 4
    requires LeadersOf(0, [branch, next], leaders)
    requires Ascending(ks) && forall k :: k in ks <==> k in Blocks([branch, next], leaders)
    ensures 0 !in Blocks([branch, next], leaders) && Joined(Blocks([branch, next], leaders), ks) != [branch, next]
  {
    var instrs := [branch, next];
    assert MakesLeader(instrs, 0, 4) && 4 in leaders;
    assert instrs[1].address in leaders;
    BlocksTile(instrs, leaders, ks);
    BlocksAre(instrs, leaders);
    assert forall c :: Filed(instrs, leaders, c) ==> c == 1;
  }

  /** When the list starts at a non-zero leader, the keys are exactly the leaders among its addresses. */
  lemma KeysAreLeaders(instrs: seq<Instruction>, leaders: set<uint32>, a: uint32)
    requires Increasing(instrs) && instrs != []
    requires instrs[0].address in leaders && instrs[0].address != 0
    ensures a in Blocks(instrs, leaders) <==> a in leaders && exists i :: 0 <= i < |instrs| && instrs[i].address == a
  {
    BlocksAre(instrs, leaders);
    if i :| a in leaders && 0 <= i < |instrs| && instrs[i].address == a {
      assert Filed(instrs, leaders, i);
    }
  }

  /** No block runs past the instruction control reaches behind a branch or jump. */
  lemma BlockStopsAfterControl(start: uint32, instrs: seq<Instruction>, leaders: set<uint32>, c: nat, i: nat)
    requires LeadersOf(start, instrs, leaders)
    requires c <= i < |instrs| && i < NextLeader(instrs, leaders, c + 1) && IsControl(instrs[i])
    ensures NextLeader(instrs, leaders, c + 1) <= AfterControl(instrs, i)
  {
    var next := AfterControl(instrs, i);
    if next < |instrs| {
      assert MakesLeader(instrs, i, instrs[next].address);
      assert instrs[next].address in leaders;
    }
  }

  /** Every branch or jump ends its block: it is the last instruction, or the last but one with its
      delay slot behind it. */
  lemma ControlEndsBlock(start: uint32, instrs: seq<Instruction>, leaders: set<uint32>, k: uint32, j: nat)
    requires Increasing(instrs) && LeadersOf(start, instrs, leaders)
    requires k in Blocks(instrs, leaders)
    requires var block := Blocks(instrs, leaders)[k].instructions; j < |block| && IsControl(block[j])
    ensures var block := Blocks(instrs, leaders)[k].instructions;
            j == |block| - 1 || (j == |block| - 2 && block[j].hasDelaySlot)
  {
    var c := BlockOrigin(instrs, leaders, k);
    BlockStopsAfterControl(start, instrs, leaders, c, c + j);
  }

  lemma BlockOrigin(instrs: seq<Instruction>, leaders: set<uint32>, k: uint32) returns (c: nat)
    requires Increasing(instrs) && k in Blocks(instrs, leaders)
    ensures Filed(instrs, leaders, c) && Key(instrs, leaders, c) == k
    ensures Blocks(instrs, leaders)[k] == BlockAt(instrs, leaders, c)
  {
    BlocksAre(instrs, leaders);
    c :| 0 <= c && Filed(instrs, leaders, c) && Key(instrs, leaders, c) == k;
  }
}
