/**
 Environment ids of kern/env.c: 32-bit arithmetic on generations, and how long an id stays
 unique.
 */
module EnvIds {
  import opened Arith
  import opened Sched

  const GEN: nat := 4096
  const MOD32: int := 0x1_0000_0000
  const MAX31: int := 0x8000_0000
  /** Generations before the counter starts again. */
  const PERIOD: nat := 0x7_FFFF

  /** Wrapping to a signed 32-bit value. */
  function Wrap32(x: int): (r: int)
    ensures -MAX31 <= r < MAX31
  {
    (x + MAX31) % MOD32 - MAX31
  }

  /** x & ~(NENV - 1) and x & (NENV - 1) in two's complement. */
  function MaskOff(x: int): (r: int) {
    x - x % NENV
  }

  function EnvX(x: int): (r: nat)
    ensures r < NENV
  {
    x % NENV
  }

  /** The id env_alloc gives a slot whose last id was id. */
  function NextId(id: int, slot: nat): (r: int) {
    var generation := MaskOff(Wrap32(id + GEN));
    (if generation <= 0 then GEN else generation) + slot
  }

  /** The id a slot gets the k-th time it is allocated; 0 before the first time. */
  function IdOf(slot: nat, k: nat): (id: nat) {
    if k == 0 then 0 else GEN * ((k - 1) % PERIOD + 1) + slot
  }

  /** One more generation, or the first one again when the sign bit would be set. */
  lemma NextGeneration(slot: nat, g: nat)
    requires slot < NENV && g <= PERIOD
    ensures NextId(GEN * g + slot, slot) == (if g < PERIOD then GEN * (g + 1) else GEN) + slot
    ensures g > 0 ==> 0 < GEN * g + slot < MAX31 && EnvX(GEN * g + slot) == slot
  {
    DivModUnique(GEN * g + slot, NENV, 4 * g, slot);
    DivModUnique(GEN * (g + 1) + slot, NENV, 4 * (g + 1), slot);
  }

  lemma FirstId(slot: nat)
    requires slot < NENV
    ensures NextId(0, slot) == GEN + slot
  {
  }

  /** Counting with wrap-around gives exactly these ids; they are positive 32-bit values
      that carry their slot. */
  lemma NextIdIs(slot: nat, k: nat)
    requires slot < NENV
    ensures NextId(IdOf(slot, k), slot) == IdOf(slot, k + 1)
    ensures 0 < IdOf(slot, k + 1) < 0x8000_0000 && EnvX(IdOf(slot, k + 1)) == slot
    ensures IdOf(slot, k + 1) == 4096 * (k % 524287 + 1) + slot && IdOf(slot, k + 1) % 1024 == slot
  {
    hide NextId, EnvX;
    FirstId(slot);
    NextGeneration(slot, k % PERIOD + 1);
    if k > 0 {
      var g := (k - 1) % PERIOD + 1;
      NextGeneration(slot, g);
      if g < PERIOD {
        DivModUnique(k, PERIOD, (k - 1) / PERIOD, g);
      } else {
        DivModUnique(k, PERIOD, (k - 1) / PERIOD + 1, 0);
      }
    }
  }

  /** Two allocations of a slot get the same id exactly when a whole number of periods lies
      between them. */
  lemma SameIdIff(slot: nat, j: nat, k: nat)
    requires 0 < j <= k
    ensures IdOf(slot, j) == IdOf(slot, k) <==> (k - j) % 524287 == 0
  {
    var p, q := (j - 1) / PERIOD, (k - 1) / PERIOD;
    var r, s := (j - 1) % PERIOD, (k - 1) % PERIOD;
    assert k - j == PERIOD * (q - p) + (s - r);
    if s >= r {
      DivModUnique(k - j, PERIOD, q - p, s - r);
    } else {
      DivModUnique(k - j, PERIOD, q - p - 1, s - r + PERIOD);
    }
  }

  /** So 2^19 - 1 allocations in a row all differ. */
  lemma FreshIds(slot: nat, j: nat, k: nat)
    requires 0 < j < k && k - j < PERIOD
    ensures IdOf(slot, j) != IdOf(slot, k)
  {
    SameIdIff(slot, j, k);
  }
}
