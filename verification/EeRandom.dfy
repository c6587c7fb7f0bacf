/** The COP0 Random register: one decrement per retired instruction, over [Wired, 47]. */
module EeRandom {
  import opened Instructions
  import opened Bits

  const RANDOM_TOP: int := 47

  function LowerBound(wired: uint32): (lo: int)
    ensures 0 <= lo <= RANDOM_TOP
  {
    if wired % 64 < RANDOM_TOP then wired % 64 else RANDOM_TOP
  }

  /** One retirement: out of range or at the lower bound goes to 47, anything else counts down. */
  function Tick(random: uint32, wired: uint32): uint32 {
    var r := random % 64;
    if r > RANDOM_TOP || r <= LowerBound(wired) then RANDOM_TOP else r - 1
  }

  /** n retirements, one at a time. */
  function Retire(random: uint32, wired: uint32, n: nat): uint32
    decreases n
  {
    if n == 0 then random else Retire(Tick(random, wired), wired, n - 1)
  }

  lemma {:induction false} RetireAdd(random: uint32, wired: uint32, m: nat, n: nat)
    ensures Retire(random, wired, m + n) == Retire(Retire(random, wired, m), wired, n)
    decreases m
  {
    if m > 0 {
      RetireAdd(Tick(random, wired), wired, m - 1, n);
    }
  }

  lemma {:induction false} RetireInRange(random: uint32, wired: uint32, n: nat)
    requires LowerBound(wired) <= random <= RANDOM_TOP && n <= random - LowerBound(wired)
    ensures Retire(random, wired, n) == random - n
    decreases n
  {
    if n > 0 {
      assert random % 64 == random;
      assert Tick(random, wired) == random - 1;
      RetireInRange(random - 1, wired, n - 1);
    }
  }

  function Interval(wired: uint32): (i: int)
    ensures 1 <= i <= 48
  {
    RANDOM_TOP - LowerBound(wired) + 1
  }

  /** A whole interval of retirements leads from 47 back to 47. */
  lemma RetireLap(wired: uint32, m: nat)
    ensures Retire(RANDOM_TOP, wired, m + Interval(wired)) == Retire(RANDOM_TOP, wired, m)
  {
    var i := Interval(wired);
    RetireInRange(RANDOM_TOP, wired, i - 1);
    RetireAdd(RANDOM_TOP, wired, i - 1, 1);
    assert Retire(LowerBound(wired), wired, 1) == RANDOM_TOP;
    RetireAdd(RANDOM_TOP, wired, i, m);
  }

  /** From 47, Random is cyclic with the length of the interval. */
  lemma {:induction false} RetireCyclic(wired: uint32, n: nat)
    ensures Retire(RANDOM_TOP, wired, n) == RANDOM_TOP - n % Interval(wired)
    decreases n
  {
    var i := Interval(wired);
    if n < i {
      RetireInRange(RANDOM_TOP, wired, n);
      SmallMod(n, i);
    } else {
      var m := n - i;
      RetireLap(wired, m);
      RetireCyclic(wired, m);
      ModShift(m, i);
    }
  }

  /** Wrapping from the lower bound consumes one retirement more than the distance to it. */
  lemma RetireWraps(random: uint32, wired: uint32, n: nat)
    requires LowerBound(wired) <= random <= RANDOM_TOP && n > random - LowerBound(wired)
    ensures Retire(random, wired, n)
            == RANDOM_TOP - (n - (random - LowerBound(wired)) - 1) % Interval(wired)
  {
    var offset := random - LowerBound(wired);
    RetireInRange(random, wired, offset);
    RetireAdd(random, wired, offset, 1);
    assert Retire(LowerBound(wired), wired, 1) == RANDOM_TOP;
    RetireAdd(random, wired, offset + 1, n - offset - 1);
    RetireCyclic(wired, n - offset - 1);
  }

  // ---- The protected entries ----------------------------------------------------------------

  /** After any retirement Random points at one of the 48 entries, never below Wired: unless Wired itself
      is above 47, when Random stays at 47. */
  lemma {:induction false} RandomSparesWired(random: uint32, wired: uint32, n: nat)
    requires n > 0
    ensures var r := Retire(random, wired, n); 0 <= r <= 47 && (r >= wired % 64 || r == 47)
    decreases n
  {
    if n > 1 {
      RandomSparesWired(Tick(random, wired), wired, n - 1);
    }
  }

  /** And every entry from Wired up to 47 is reached, within 48 retirements from 47. */
  lemma RandomReaches(wired: uint32, entry: nat)
    requires entry <= 47 && (wired % 64 <= entry || entry == 47)
    ensures 47 - entry < 48 && Retire(47, wired, 47 - entry) == entry
  {
    RetireInRange(47, wired, 47 - entry);
  }

  /** At Wired, and from anywhere outside, the next value is 47; in between it is one less. */
  lemma NextRandom(random: uint32, wired: uint32)
    requires random < 64
    ensures Retire(random, wired, 1) == if random > 47 || random <= wired % 64 then 47 else random - 1
  {
    assert Retire(random, wired, 1) == Retire(Tick(random, wired), wired, 0);
  }
}
