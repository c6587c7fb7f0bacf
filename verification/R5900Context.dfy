/** The retirement and block-timing state of an EE context, updated in place. */
module R5900 {
  import opened Bits
  import opened Instructions
  import opened EeRandom
  import EeRetirement
  import EeBlockTiming

  /** What the performance counters remember of an instruction that waits to be paired. */
  datatype IssueProfile = IssueProfile(pipeMask: uint32, gprReadMask: uint32, gprWriteMask: uint32, flags: uint32)

  class R5900Context {
    var cop0Random: uint32
    var cop0Wired: uint32
    var cop0Config: uint32
    var insnCount: uint64
    var cop0RandomPendingRetirements: uint64
    var eeBlockCycleTicks: uint32
    var eeBlockCycleActive: bool
    var eePerformanceIssuePending: bool
    var eePerformancePendingIssue: IssueProfile

    ghost function Retirement(): EeRetirement.Lazy
      reads this`cop0Random, this`cop0Wired, this`insnCount, this`cop0RandomPendingRetirements
    {
      EeRetirement.Lazy(cop0Random, cop0Wired, insnCount, cop0RandomPendingRetirements)
    }

    ghost function Block(): EeBlockTiming.Block
      reads this`eeBlockCycleTicks, this`eeBlockCycleActive
    {
      EeBlockTiming.Block(eeBlockCycleTicks, eeBlockCycleActive)
    }

    /** Any number of retirements at once, without a loop. */
    method AdvanceCop0Random(n: uint64)
      modifies this`cop0Random
      ensures cop0Random == Retire(old(cop0Random), cop0Wired, n)
    {
      if n == 0 {
        return;
      }
      var retirementCount: uint64 := n;
      var upperBound := 47;
      var lowerBound := if cop0Wired % 64 < upperBound then cop0Wired % 64 else upperBound;
      var interval := upperBound - lowerBound + 1;
      var random: uint32 := cop0Random % 64;
      if random < lowerBound || random > upperBound {
        random := upperBound;
        retirementCount := retirementCount - 1;
      }
      TargetAfterFirst(cop0Random, cop0Wired, n);
      assert Retire(random, cop0Wired, retirementCount) == Retire(cop0Random, cop0Wired, n);
      if retirementCount != 0 {
        var offset := random - lowerBound;
        if retirementCount <= offset {
          RetireInRange(random, cop0Wired, retirementCount);
          random := random - retirementCount;
        } else {
          RetireWraps(random, cop0Wired, retirementCount);
          retirementCount := retirementCount - (offset + 1);
          ReduceByInterval(retirementCount, interval);
          if retirementCount >= interval {
            retirementCount := retirementCount - interval;
            if retirementCount >= interval {
              retirementCount := retirementCount % interval;
            }
          }
          random := upperBound - retirementCount;
        }
      }
      cop0Random := random;
    }

    method FinishEeInstruction()
      modifies this`cop0Random, this`cop0RandomPendingRetirements
      ensures Retirement() == EeRetirement.StepLazy(old(Retirement()), EeRetirement.Publish)
    {
      AdvanceCop0Random(cop0RandomPendingRetirements);
      cop0RandomPendingRetirements := 0;
    }

    method RetireEeInstructions(n: uint64)
      modifies this`cop0Random, this`cop0RandomPendingRetirements, this`insnCount
      ensures Retirement() == EeRetirement.StepLazy(old(Retirement()), EeRetirement.RetireMany(n))
    {
      if n == 0 {
        return;
      }
      if cop0RandomPendingRetirements > TWO_64 - 1 - n {
        FinishEeInstruction();
      }
      insnCount := Wrap64(insnCount + n);
      cop0RandomPendingRetirements := cop0RandomPendingRetirements + n;
    }

    method BeginEeInstruction()
      modifies this`cop0Random, this`cop0RandomPendingRetirements, this`insnCount
      ensures Retirement() == EeRetirement.StepLazy(old(Retirement()), EeRetirement.Begin)
    {
      FinishEeInstruction();
      insnCount := Wrap64(insnCount + 1);
      cop0RandomPendingRetirements := 1;
    }

    /** What the translator emits for MTC0 Wired. */
    method MoveToWired(value: uint32)
      modifies this`cop0Random, this`cop0RandomPendingRetirements, this`insnCount, this`cop0Wired
      ensures Retirement() == EeRetirement.StepLazy(old(Retirement()), EeRetirement.MoveToWired(value))
    {
      BeginEeInstruction();
      cop0Wired := value % 64;
      cop0Random := 47;
    }

    method AdvanceEeCycleTicks(dualIssueTicks: uint32)
      modifies this`eeBlockCycleTicks, this`eeBlockCycleActive
      ensures Block() == EeBlockTiming.AdvanceBlock(old(Block()), cop0Config, dualIssueTicks)
    {
      var issueScale := 2 - cop0Config / 0x4_0000 % 2;
      var ticks := Wrap32(dualIssueTicks * issueScale);
      eeBlockCycleTicks := Wrap32(eeBlockCycleTicks + ticks);
      eeBlockCycleActive := true;
    }

    /** The elapsed time handed out, in scheduler ticks. */
    method CommitEeBlockCycles() returns (delta: uint64)
      modifies this`eeBlockCycleTicks
      ensures Block() == EeBlockTiming.AfterCommit(old(Block()))
      ensures delta == 8 * EeBlockTiming.CommittedCycles(old(Block()))
    {
      if !eeBlockCycleActive {
        return 0;
      }
      var whole := eeBlockCycleTicks / 8;
      var committedCycles := if whole < 1 then 1 else whole;
      eeBlockCycleTicks := eeBlockCycleTicks % 8;
      delta := EeCyclesToTicks(committedCycles);
    }

    method FinishEeBasicBlock() returns (delta: uint64)
      modifies this`eeBlockCycleTicks, this`eeBlockCycleActive
      ensures !eeBlockCycleActive && (old(eeBlockCycleActive) ==> eeBlockCycleTicks == 0)
      ensures !old(eeBlockCycleActive) ==> eeBlockCycleTicks == old(eeBlockCycleTicks)
      ensures delta == 8 * EeBlockTiming.CommittedCycles(old(Block()))
    {
      if !eeBlockCycleActive {
        return 0;
      }
      var whole := eeBlockCycleTicks / 8;
      var committedCycles := if whole < 1 then 1 else whole;
      eeBlockCycleTicks := 0;
      eeBlockCycleActive := false;
      delta := EeCyclesToTicks(committedCycles);
    }

    /** Clears the timing state, but publishes the completed retirements first. */
    method ResetEeBlockTiming()
      modifies this`cop0Random, this`cop0RandomPendingRetirements
      modifies this`eeBlockCycleTicks, this`eeBlockCycleActive, this`eePerformanceIssuePending
      modifies this`eePerformancePendingIssue
      ensures Retirement() == EeRetirement.StepLazy(old(Retirement()), EeRetirement.Publish)
      ensures Block() == EeBlockTiming.Block(0, false)
      ensures !eePerformanceIssuePending && eePerformancePendingIssue == IssueProfile(0, 0, 0, 0)
    {
      FinishEeInstruction();
      eeBlockCycleTicks := 0;
      eeBlockCycleActive := false;
      eePerformanceIssuePending := false;
      eePerformancePendingIssue := IssueProfile(0, 0, 0, 0);
    }
  }

  /** The first retirement normalizes Random: reading it mod 64, and to 47 when out of range. */
  lemma TargetAfterFirst(random: uint32, wired: uint32, n: uint64)
    requires n > 0
    ensures var r := random % 64;
            if r < LowerBound(wired) || r > RANDOM_TOP
            then Retire(random, wired, n) == Retire(RANDOM_TOP, wired, n - 1)
            else Retire(random, wired, n) == Retire(r, wired, n)
  {
  }

  /** One subtraction, then a remainder only when needed, is the remainder. */
  lemma ReduceByInterval(n: nat, interval: nat)
    requires interval > 0
    ensures n < interval ==> n % interval == n
    ensures n >= interval ==> n % interval == (n - interval) % interval
    ensures interval <= n < 2 * interval ==> n % interval == n - interval
  {
    if n < interval {
      SmallMod(n, interval);
    } else {
      ModShift(n - interval, interval);
      if n < 2 * interval {
        SmallMod(n - interval, interval);
      }
    }
  }

  /** Eight ticks to the cycle; saturating, though no block ever comes near the limit. */
  function EeCyclesToTicks(cycles: nat): (t: uint64)
    ensures t == if 8 * cycles < TWO_64 then 8 * cycles else TWO_64 - 1
  {
    if cycles > (TWO_64 - 1) / 8 then TWO_64 - 1 else 8 * cycles
  }
}
