/** Snowflake identifiers: 41 bits of milliseconds, 10 bits of node, 12 bits of sequence. */
module Snowflake {

  const EPOCH := 1704067200000
  const TWO22 := 0x40_0000
  const TWO12 := 0x1000
  const TWO41 := 0x200_0000_0000
  const TWO42 := 0x400_0000_0000
  const TWO63 := 0x8000_0000_0000_0000
  const TWO64 := 0x1_0000_0000_0000_0000

  // ---- Bits ----

  /** Bitwise or of two non-negative numbers. */
  function Or(a: nat, b: nat): nat {
    if a == 0 then b else if b == 0 then a
    else 2 * Or(a / 2, b / 2) + (if a % 2 == 1 || b % 2 == 1 then 1 else 0)
  }

  function Pow2(k: nat): (p: nat)
    ensures p > 0
  {
    if k == 0 then 1 else 2 * Pow2(k - 1)
  }

  /** Or-ing in a number below the lowest set bit adds it. */
  lemma {:induction false} OrIsPlus(a: nat, b: nat, k: nat)
    requires b < Pow2(k)
    ensures Or(a * Pow2(k), b) == a * Pow2(k) + b
  {
    if a == 0 {
    } else if k == 0 {
    } else {
      Halves(a, k);
      OrIsPlus(a, b / 2, k - 1);
      if b == 0 {
      } else {
        assert Or(a * Pow2(k), b) == 2 * Or(a * Pow2(k - 1), b / 2) + b % 2;
      }
    }
  }

  lemma Halves(a: nat, k: nat)
    requires k > 0
    ensures a * Pow2(k) == 2 * (a * Pow2(k - 1))
    ensures (a * Pow2(k)) / 2 == a * Pow2(k - 1) && (a * Pow2(k)) % 2 == 0
    ensures a > 0 ==> a * Pow2(k) > 0
  {
    var p := Pow2(k - 1);
    assert a * (2 * p) == 2 * (a * p);
    if a > 0 {
      assert a * p >= p;
    }
  }

  /** Two's-complement reading of a 64-bit pattern. */
  function ToInt64(pattern: nat): int
    requires pattern < TWO64
  {
    if pattern < TWO63 then pattern else pattern - TWO64
  }

  /** `((now - epoch) << 22) | (node << 12) | sequence` on int64; the shift drops what leaves 64 bits. */
  function Pack(now: int, node: nat, sequence: nat): int
    requires node < 1024 && sequence < TWO12
  {
    ToInt64(Or(Or(((now - EPOCH) * TWO22) % TWO64, node * TWO12), sequence) % TWO64)
  }

  predicate InRange(now: int) {
    0 <= now - EPOCH < TWO41
  }

  lemma Powers()
    ensures Pow2(12) == TWO12 && Pow2(22) == TWO22
  {
    assert Pow2(4) == 16;
    assert Pow2(8) == 256;
    assert Pow2(12) == 4096;
    assert Pow2(16) == 65536;
    assert Pow2(20) == 1048576;
  }

  lemma ShiftDropsHighBits(x: int)
    ensures (x * TWO22) % TWO64 == (x % TWO42) * TWO22
  {
  }

  lemma OrsAreSums(d: nat, node: nat, sequence: nat)
    requires d < TWO42 && node < 1024 && sequence < TWO12
    ensures d * TWO22 + node * TWO12 + sequence < TWO64
    ensures Or(Or(d * TWO22, node * TWO12), sequence) == d * TWO22 + node * TWO12 + sequence
  {
    Powers();
    hide Or, Pow2;
    OrIsPlus(d, node * TWO12, 22);
    var high := d * 1024 + node;
    assert d * TWO22 + node * TWO12 == high * TWO12;
    OrIsPlus(high, sequence, 12);
  }

  /** The 64-bit pattern before it is read as a signed number: 42 bits of time are left by the shift. */
  lemma PackedPattern(now: int, node: nat, sequence: nat)
    requires node < 1024 && sequence < TWO12
    ensures Pack(now, node, sequence) == ToInt64(((now - EPOCH) % TWO42) * TWO22 + node * TWO12 + sequence)
  {
    hide Or, Pow2, ToInt64;
    ShiftDropsHighBits(now - EPOCH);
    OrsAreSums((now - EPOCH) % TWO42, node, sequence);
  }

  /** In range the three fields stand side by side, and can be read back. */
  lemma PackedFields(now: int, node: nat, sequence: nat)
    requires InRange(now) && node < 1024 && sequence < TWO12
    ensures var id := Pack(now, node, sequence);
            && id == (now - EPOCH) * TWO22 + node * TWO12 + sequence
            && 0 <= id <= 0x7FFF_FFFF_FFFF_FFFF
            && id / 0x40_0000 == now - 1704067200000 && (id / 4096) % 1024 == node && id % 4096 == sequence
  {
    PackedPattern(now, node, sequence);
    hide Pack;
    FieldsApart(now - EPOCH, node, sequence);
  }

  lemma FieldsApart(d: nat, node: nat, sequence: nat)
    requires d < TWO41 && node < 1024 && sequence < TWO12
    ensures d % TWO42 == d
    ensures var id := d * TWO22 + node * TWO12 + sequence;
            && id < TWO63
            && id / TWO22 == d && (id / TWO12) % 1024 == node && id % TWO12 == sequence
  {
    var id := d * TWO22 + node * TWO12 + sequence;
    assert id / TWO12 == d * 1024 + node;
  }

  /** Exactly when an identifier is not negative: the 42nd bit of the time is clear. */
  lemma NotNegative(now: int, node: nat, sequence: nat)
    requires node < 1024 && sequence < TWO12
    ensures Pack(now, node, sequence) >= 0 <==> (now - EPOCH) % TWO42 < TWO41
  {
    PackedPattern(now, node, sequence);
  }

  // ---- The generator ----

  datatype Stamp = Stamp(ms: int, sequence: nat)

  /** One call: the first clock reading, and the one that ends the spin when the sequence is used up. */
  datatype Reading = Reading(now: int, spun: int)

  function Issued(last: Stamp, r: Reading): Stamp {
    if r.now > last.ms then Stamp(r.now, 0)
    else
      var sequence := (last.sequence + 1) % TWO12;
      Stamp(if sequence == 0 then r.spun else last.ms, sequence)
  }

  /** The spin only ends on a reading beyond the last millisecond used. */
  predicate SpinsForward(last: Stamp, r: Reading) {
    r.now <= last.ms && (last.sequence + 1) % TWO12 == 0 ==> r.spun > last.ms
  }

  class Generator {
    var node: nat
    var lastMs: int
    var sequence: nat

    ghost predicate Valid()
      reads this
    {
      node < 1024 && sequence < TWO12
    }

    constructor ()
      ensures Valid() && node == 1 && lastMs == 0 && sequence == 0
    {
      node, lastMs, sequence := 1, 0, 0;
    }

    method SetSnowflakeNode(n: int) returns (ok: bool)
      requires Valid()
      modifies this`node
      ensures Valid() && (ok <==> 0 <= n <= 1023)
      ensures node == if ok then n else old(node)
    {
      if n < 0 || n > 1023 {
        return false;
      }
      node := n;
      return true;
    }

    /**
     * `clock` is the series of clock readings, `tick` the next one. When the sequence is used up, the
     * spin needs the clock to pass the last millisecond at some time; `horizon` is such a time.
     */
    method NextID(clock: nat -> int, tick: nat, ghost horizon: nat) returns (id: int, ghost r: Reading)
      requires Valid()
      requires clock(tick) <= lastMs && sequence == TWO12 - 1 ==> horizon > tick && clock(horizon) > lastMs
      modifies this`lastMs, this`sequence
      ensures Valid() && r.now == clock(tick)
      ensures SpinsForward(Stamp(old(lastMs), old(sequence)), r)
      ensures Stamp(lastMs, sequence) == Issued(Stamp(old(lastMs), old(sequence)), r)
      ensures id == Pack(lastMs, node, sequence)
      ensures r.now > old(lastMs) ==> lastMs == r.now && sequence == 0
      ensures r.now <= old(lastMs) && old(sequence) < 4095 ==> lastMs == old(lastMs) && sequence == old(sequence) + 1
      ensures r.now <= old(lastMs) && old(sequence) == 4095 ==> lastMs == r.spun > old(lastMs) && sequence == 0
    {
      var now := clock(tick);
      r := Reading(now, now);
      if now < lastMs {
        now := lastMs;
      }
      if now == lastMs {
        sequence := (sequence + 1) % TWO12;
        if sequence == 0 {
          var t := tick;
          while now <= lastMs
            invariant tick <= t <= horizon
            invariant now == lastMs || (t > tick && now == clock(t))
            invariant t == horizon ==> now > lastMs
            decreases horizon - t
          {
            t := t + 1;
            now := clock(t);
          }
          r := Reading(r.now, now);
        }
      } else {
        sequence := 0;
      }
      lastMs := now;
      id := Pack(now, node, sequence);
    }
  }

  // ---- Any sequence of calls ----

  function StampAt(first: Stamp, rs: seq<Reading>, k: nat): Stamp
    requires k <= |rs|
  {
    if k == 0 then first else Issued(StampAt(first, rs, k - 1), rs[k - 1])
  }

  predicate Before(a: Stamp, b: Stamp) {
    a.ms < b.ms || (a.ms == b.ms && a.sequence < b.sequence)
  }

  ghost predicate Readings(first: Stamp, rs: seq<Reading>) {
    first.sequence < TWO12 && forall k :: 0 <= k < |rs| ==> SpinsForward(StampAt(first, rs, k), rs[k])
  }

  lemma IssuedIsLater(last: Stamp, r: Reading)
    requires last.sequence < TWO12 && SpinsForward(last, r)
    ensures Before(last, Issued(last, r)) && Issued(last, r).sequence < TWO12
  {
  }

  lemma {:induction false} StampsGrow(first: Stamp, rs: seq<Reading>, i: nat, j: nat)
    requires i <= j <= |rs| && Readings(first, rs)
    ensures StampAt(first, rs, j).sequence < TWO12
    ensures i < j ==> Before(StampAt(first, rs, i), StampAt(first, rs, j))
    decreases j
  {
    hide Issued;
    hide SpinsForward;
    if j > 0 {
      StampsGrow(first, rs, if i < j then i else j - 1, j - 1);
      assert SpinsForward(StampAt(first, rs, j - 1), rs[j - 1]);
      IssuedIsLater(StampAt(first, rs, j - 1), rs[j - 1]);
    }
  }

  /** Earlier stamps give smaller identifiers. */
  lemma PackMonotone(a: Stamp, b: Stamp, node: nat)
    requires node < 1024 && a.sequence < TWO12 && b.sequence < TWO12 && InRange(a.ms) && InRange(b.ms) && Before(a, b)
    ensures Pack(a.ms, node, a.sequence) < Pack(b.ms, node, b.sequence)
  {
    PackedFields(a.ms, node, a.sequence);
    PackedFields(b.ms, node, b.sequence);
  }

  /**
   * Whatever the clock does - standing still, jumping back, more than 4096 calls in a millisecond -
   * the identifiers of one node grow strictly.
   */
  lemma IdsIncrease(first: Stamp, rs: seq<Reading>, node: nat, i: nat, j: nat)
    requires node < 1024 && 0 < i < j <= |rs| && Readings(first, rs)
    requires InRange(StampAt(first, rs, i).ms) && InRange(StampAt(first, rs, j).ms)
    ensures StampAt(first, rs, i).sequence < TWO12 && StampAt(first, rs, j).sequence < TWO12
    ensures Pack(StampAt(first, rs, i).ms, node, StampAt(first, rs, i).sequence)
            < Pack(StampAt(first, rs, j).ms, node, StampAt(first, rs, j).sequence)
  {
    StampsGrow(first, rs, i, j);
    StampsGrow(first, rs, i, i);
    PackMonotone(StampAt(first, rs, i), StampAt(first, rs, j), node);
  }

  /** Identifiers of different nodes differ, and one identifier has one origin. */
  lemma IdsIdentify(a: Stamp, m: nat, b: Stamp, n: nat)
    requires m < 1024 && n < 1024 && a.sequence < TWO12 && b.sequence < TWO12 && InRange(a.ms) && InRange(b.ms)
    ensures Pack(a.ms, m, a.sequence) == Pack(b.ms, n, b.sequence) <==> a == b && m == n
  {
    PackedFields(a.ms, m, a.sequence);
    PackedFields(b.ms, n, b.sequence);
  }
}
