/** The authentication sequence numbers: an even counter of 24 bits below a boot-time identifier. */
module SeqNumbers {
  import opened Word32

  const INTERVAL_VALUE := 2
  const OFFSET_BITS := 24
  const INT_MAX_VALUE := 0xFF_FFFE
  const LOW_24_BITS := 0xFF_FFFF
  const PERIOD := 8388607

  datatype Side = ClientSide | ServerSide

  /** Bitwise disjunction, one binary digit at a time. */
  function Or(a: nat, b: nat): nat {
    if a == 0 then b
    else (if a % 2 == 1 || b % 2 == 1 then 1 else 0) + 2 * Or(a / 2, b / 2)
  }

  /** a << k, by repeated doubling. */
  function Shl(a: nat, k: nat): nat {
    if k == 0 then a else 2 * Shl(a, k - 1)
  }

  lemma {:induction false} OrOfDisjoint(a: nat, k: nat, b: nat)
    requires b < Pow2(k)
    ensures Or(Shl(a, k), b) == Shl(a, k) + b
    decreases k
  {
    if k == 0 {
      OrZero(a);
    } else {
      OrOfDisjoint(a, k - 1, b / 2);
    }
  }

  lemma {:induction false} ShlIsProduct(a: nat, k: nat)
    ensures Shl(a, k) == a * Pow2(k)
  {
    if k > 0 {
      ShlIsProduct(a, k - 1);
      assert a * Pow2(k) == 2 * (a * Pow2(k - 1));
    }
  }

  lemma {:induction false} OrZero(a: nat)
    ensures Or(a, 0) == a
  {
    if a > 0 { OrZero(a / 2); }
  }

  /** The static counter after one more call. */
  function Advance(integer: nat): nat {
    (if integer == INT_MAX_VALUE then 0 else integer) + INTERVAL_VALUE
  }

  /** What GetSeq returns when the counter has been advanced to n. */
  function Compose(uniqueId: nat, n: nat): nat {
    Or(Shl(uniqueId, OFFSET_BITS), And(n, LOW_24_BITS))
  }

  /** The counter after k calls, counted from the start of the process. */
  function Counter(k: nat): nat {
    if k == 0 then 0 else Advance(Counter(k - 1))
  }

  /** The k-th result, counting from 1. */
  function Seq(uniqueId: nat, k: nat): nat {
    Compose(uniqueId, Counter(k))
  }

  class SeqSource {
    const uniqueId: nat
    var integer: nat
    ghost var calls: nat

    ghost predicate Valid()
      reads this
    {
      integer == Counter(calls)
    }

    constructor (uniqueId: nat)
      ensures Valid() && calls == 0 && this.uniqueId == uniqueId
    {
      this.uniqueId, integer, calls := uniqueId, 0, 0;
    }

    method GetSeq() returns (r: nat)
      requires Valid()
      modifies this
      ensures Valid() && calls == old(calls) + 1 && r == Seq(uniqueId, calls)
    {
      if integer == INT_MAX_VALUE {
        integer := 0;
      }
      integer := integer + INTERVAL_VALUE;
      calls := calls + 1;
      r := Compose(uniqueId, integer);
    }
  }

  /** The counter runs through the even numbers from 2 to 0xFFFFFE and starts again. */
  lemma {:induction false} CounterCycles(k: nat)
    requires k > 0
    ensures Counter(k) == 2 * ((k - 1) % PERIOD) + 2
  {
    if k > 1 { CounterCycles(k - 1); }
  }

  lemma Pow2At24()
    ensures Pow2(24) == 0x100_0000
  {
    assert Pow2(8) == 256;
    Pow2Add(8, 8);
    Pow2Add(16, 8);
  }

  lemma LowDigits(n: nat)
    requires n < 0x100_0000
    ensures And(n, LOW_24_BITS) == n
  {
    Pow2At24();
    SmallRemainder(n, Pow2(24));
    AndMask(n, 24);
  }

  lemma ComposeValue(uniqueId: nat, n: nat)
    requires n < 0x100_0000
    ensures Compose(uniqueId, n) == uniqueId * 0x100_0000 + n
  {
    LowDigits(n);
    Pow2At24();
    OrOfDisjoint(uniqueId, OFFSET_BITS, n);
    ShlIsProduct(uniqueId, OFFSET_BITS);
  }

  /** A sequence number is the identifier and the counter side by side. */
  lemma SeqValue(uniqueId: nat, k: nat) returns (n: nat)
    requires k > 0
    ensures n == 2 * ((k - 1) % PERIOD) + 2 < 0x100_0000
    ensures Seq(uniqueId, k) == uniqueId * 0x100_0000 + n
  {
    CounterCycles(k);
    n := Counter(k);
    ComposeValue(uniqueId, n);
  }

  function AuthGetSideByRemoteSeq(seqNo: nat): Side {
    if seqNo % 2 == 0 then ServerSide else ClientSide
  }

  /** Positive as a 64-bit number, and even, so the receiver always takes the server side. */
  lemma SeqShape(uniqueId: nat, k: nat)
    requires k > 0 && uniqueId < 1_000_000
    ensures 0 < Seq(uniqueId, k) < 0x8000_0000_0000_0000
    ensures Seq(uniqueId, k) % 2 == 0 && AuthGetSideByRemoteSeq(Seq(uniqueId, k)) == ServerSide
  {
    var n := SeqValue(uniqueId, k);
    ShapeOf(uniqueId, n, Seq(uniqueId, k));
  }

  lemma ShapeOf(uniqueId: nat, n: nat, v: nat)
    requires uniqueId < 1_000_000 && 0 < n < 0x100_0000 && n % 2 == 0 && v == uniqueId * 0x100_0000 + n
    ensures 0 < v < 0x8000_0000_0000_0000 && v % 2 == 0
  {
  }

  /** The session-key number: the low 32 bits read as a signed number. */
  function Low32(x: nat): (r: int)
    ensures -0x8000_0000 <= r < 0x8000_0000 && (x - r) % M == 0
  {
    var y := x % M;
    if y < 0x8000_0000 then y else y - M
  }

  lemma LowBits(uniqueId: nat, n: nat)
    requires n < 0x100_0000
    ensures (uniqueId * 0x100_0000 + n) % M == (uniqueId % 256) * 0x100_0000 + n
  {
    var q := uniqueId / 256;
    assert uniqueId * 0x100_0000 + n == M * q + ((uniqueId % 256) * 0x100_0000 + n);
  }

  lemma RemaindersEqual(i: nat, j: nat)
    ensures i % PERIOD == j % PERIOD <==> (i - j) % PERIOD == 0
  {
  }

  lemma ValuesAgree(uniqueId: nat, a: nat, b: nat, v: nat, w: nat)
    requires a < 0x100_0000 && b < 0x100_0000
    requires v == uniqueId * 0x100_0000 + a && w == uniqueId * 0x100_0000 + b
    ensures (v == w <==> a == b) && (Low32(v) == Low32(w) <==> a == b)
  {
    LowBits(uniqueId, a);
    LowBits(uniqueId, b);
  }

  /** Two results agree, whole or truncated, exactly when a multiple of the period lies between them. */
  lemma SeqRepeats(uniqueId: nat, i: nat, j: nat)
    requires i > 0 && j > 0
    ensures Seq(uniqueId, i) == Seq(uniqueId, j) <==> (i - j) % PERIOD == 0
    ensures Low32(Seq(uniqueId, i)) == Low32(Seq(uniqueId, j)) <==> (i - j) % PERIOD == 0
  {
    var a := SeqValue(uniqueId, i);
    var b := SeqValue(uniqueId, j);
    ValuesAgree(uniqueId, a, b, Seq(uniqueId, i), Seq(uniqueId, j));
    RemaindersEqual(i - 1, j - 1);
  }

  /** So any 8388607 consecutive results are pairwise different, even as session-key numbers. */
  lemma WindowDistinct(uniqueId: nat, first: nat, i: nat, j: nat)
    requires 0 < first <= i < j < first + PERIOD
    ensures Seq(uniqueId, i) != Seq(uniqueId, j)
    ensures Low32(Seq(uniqueId, i)) != Low32(Seq(uniqueId, j))
  {
    SeqRepeats(uniqueId, i, j);
  }
}
