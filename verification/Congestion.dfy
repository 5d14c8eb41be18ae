/**
 The send-rate formulas in the 32-bit arithmetic of the code, and the range of inputs on which no
 intermediate result wraps around.
 */
module Congestion {
  import opened Word32

  const BITINBYTE := 8
  const MAX_WIFI_NEGO_RATE := 2500
  const LARGEST_EXACT_TX := 2503
  const MIN_MTU := 64
  const MAX_MTU := 65536
  const WIFI_ASSEMBLE_NUM := 100
  const WIFI_ASSEMBLE_TIMES := 8
  const WIFI_THETA_ACCURACY := 1000
  const PACKET_HEAD_BYTES := 44
  const NON_DATA_TIME := 277
  const PROTOCOL_HEAD := 42
  const MB_SIZE := 1048576
  const DATA_FRAME_SEND_INTERVAL_MS := 5
  const MS_NUM_PER_SECOND := 1000
  const NSTACKX_LEAST_SENDRATE := 3
  const NSTACKX_LEAST_SENDRATE_DMSG := 1

  /** Products and sums of unsigned 32-bit numbers. */
  function Mul(a: nat, b: nat): (r: u32) {
    if a * b < M then a * b else (a * b) % M
  }

  function Plus(a: nat, b: nat): (r: u32) {
    if a + b < M then a + b else (a + b) % M
  }

  /** Unsigned division; the lemmas show that no divisor is zero where the result matters. */
  function Div(x: nat, d: nat): (r: nat)
    ensures r <= x
  {
    if d == 0 then 0 else DivBound(x, d); x / d
  }

  lemma {:induction false} MulMono(a: int, b: int, k: nat)
    ensures a <= b ==> a * k <= b * k
  {
    if k > 0 {
      MulMono(a, b, k - 1);
      assert a * k == a * (k - 1) + a;
      assert b * k == b * (k - 1) + b;
    }
  }

  /** The defining property of division. */
  lemma Quotient(x: nat, d: nat)
    requires d > 0
    ensures x == (x / d) * d + x % d && 0 <= x % d < d
  {
  }

  /** Bounds on a quotient from bounds on multiples of the divisor. */
  lemma QuotientAtMost(x: nat, d: nat, k: nat)
    requires d > 0 && x < (k + 1) * d
    ensures x / d <= k
  {
    Quotient(x, d);
    MulMono(k + 1, x / d, d);
  }

  lemma QuotientAtLeast(x: nat, d: nat, k: nat)
    requires d > 0 && k * d <= x
    ensures k <= x / d
  {
    Quotient(x, d);
    MulMono(x / d + 1, k, d);
    assert (x / d + 1) * d == (x / d) * d + d;
  }

  lemma DivBound(x: nat, d: nat)
    requires d > 0
    ensures 0 <= x / d <= x
  {
    MulMono(1, d, x + 1);
    QuotientAtMost(x, d, x);
    QuotientAtLeast(x, d, 0);
  }

  // ---------------------------------------------------------------- one direction

  /** How many packets the radio assembles at a bit rate. */
  function GetAssembleNumByBitrate(speed: nat): (r: u32) {
    var times := speed / WIFI_ASSEMBLE_NUM;
    if times > 1 then Mul(times, WIFI_ASSEMBLE_TIMES) else WIFI_ASSEMBLE_TIMES
  }

  /** Eight packets for every whole hundred in the speed, and eight below two hundred; for every 32-bit speed. */
  lemma AssembleExact(speed: u32, k: nat)
    requires 100 * k <= speed < 100 * (k + 1)
    ensures GetAssembleNumByBitrate(speed) == if speed < 200 then 8 else 8 * k
  {
    assert speed / 100 == k;
  }

  /** The numerator and the denominator of theta as the code computes them, for a packets assembled. */
  function Scaled(mtu: nat, a: nat): u32 {
    Mul(WIFI_THETA_ACCURACY, Mul(mtu, a))
  }

  function AllSize(speedByte: nat, mtu: nat, a: nat): u32 {
    Plus(Mul(NON_DATA_TIME, speedByte), Mul(Plus(PACKET_HEAD_BYTES, mtu), a))
  }

  /** The same denominator without wrap-around. */
  function TrueSize(speedByte: nat, mtu: nat, a: nat): nat {
    NON_DATA_TIME * speedByte + (PACKET_HEAD_BYTES + mtu) * a
  }

  function GetThetaByLinkSpeed(speedByte: nat, mtu: nat): (r: nat) {
    var a := GetAssembleNumByBitrate(Mul(speedByte, BITINBYTE));
    Div(Scaled(mtu, a), AllSize(speedByte, mtu, a))
  }

  /** The packets assembled at a valid rate, per byte of speed. */
  ghost predicate Assembled(s: nat, a: nat) {
    s <= 312 && 8 <= a <= 192 && NON_DATA_TIME * s <= 831 * a
  }

  lemma AssembleBounds(s: nat)
    requires s <= 312
    ensures Assembled(s, GetAssembleNumByBitrate(Mul(s, BITINBYTE)))
  {
    var speed := 8 * s;
    assert Mul(s, BITINBYTE) == speed;
    var times := speed / WIFI_ASSEMBLE_NUM;
    assert times <= 24;
    if times > 1 { assert Mul(times, WIFI_ASSEMBLE_TIMES) == 8 * times; }
  }

  lemma ProductBound(x: nat, y: nat, xMax: nat, yMax: nat)
    requires x <= xMax && y <= yMax
    ensures x * y <= xMax * yMax
  {
    MulMono(x, xMax, y);
    MulMono(y, yMax, xMax);
  }

  lemma Distribute(h: nat, m: nat, a: nat)
    ensures (h + m) * a == h * a + m * a
  {
  }

  lemma ProductFits(m: nat, a: nat)
    requires m <= MAX_MTU && 8 <= a <= 192
    ensures m * a <= 12_582_912 && Mul(m, a) == m * a && m * a >= 8 * m
  {
    ProductBound(m, a, MAX_MTU, 192);
    ProductBound(m, 8, m, a);
  }

  lemma AllSizeIsTrue(s: nat, mtu: nat, a: nat)
    requires Assembled(s, a) && MIN_MTU < mtu <= MAX_MTU
    ensures AllSize(s, mtu, a) == TrueSize(s, mtu, a) == NON_DATA_TIME * s + PACKET_HEAD_BYTES * a + mtu * a
    ensures 0 < TrueSize(s, mtu, a) <= 13_000_000
  {
    ProductFits(mtu, a);
    Distribute(PACKET_HEAD_BYTES, mtu, a);
  }

  lemma QuotientGap(x: nat, y: nat, d: nat)
    requires d > 0 && x >= y + d
    ensures x / d > y / d
  {
    Quotient(y, d);
    var k := y / d + 1;
    assert k * d == (y / d) * d + d;
    DivBound(y, d);
    QuotientAtLeast(x, d, k);
  }

  /**
   For every accepted MTU the denominator is exact and not zero, and theta is what the formula
   means exactly when its numerator fits 32 bits.
   */
  lemma ThetaExact(s: nat, mtu: nat)
    requires s <= 312 && MIN_MTU < mtu <= MAX_MTU
    ensures
      var a := GetAssembleNumByBitrate(Mul(s, BITINBYTE));
      var exact := WIFI_THETA_ACCURACY * (mtu * a);
      && AllSize(s, mtu, a) == TrueSize(s, mtu, a) != 0
      && (GetThetaByLinkSpeed(s, mtu) == exact / TrueSize(s, mtu, a) <==> exact < M)
  {
    AssembleBounds(s);
    var a := GetAssembleNumByBitrate(Mul(s, BITINBYTE));
    AllSizeIsTrue(s, mtu, a);
    ProductFits(mtu, a);
    var p := mtu * a;
    if 1000 * p >= M {
      WrapGap(1000 * p);
      QuotientGap(1000 * p, Scaled(mtu, a), TrueSize(s, mtu, a));
    }
  }

  lemma WrapGap(x: nat)
    requires x >= M
    ensures x % M + 13_000_000 <= x
  {
  }

  /** An MTU of 22369 is the largest for which the numerator fits at every rate. */
  lemma LargestSafeMtu(s: nat, mtu: nat)
    requires s <= 312
    ensures mtu <= 22369 ==> WIFI_THETA_ACCURACY * (mtu * GetAssembleNumByBitrate(Mul(s, BITINBYTE))) < M
    ensures WIFI_THETA_ACCURACY * (22370 * GetAssembleNumByBitrate(Mul(312, BITINBYTE))) >= M
  {
    AssembleBounds(s);
    var a := GetAssembleNumByBitrate(Mul(s, BITINBYTE));
    if mtu <= 22369 {
      ProductBound(mtu, a, 22369, 192);
    }
    assert GetAssembleNumByBitrate(2496) == 192;
  }

  lemma QuotientRange(x: nat, d: nat)
    requires 0 < d <= x < 1000 * d
    ensures 1 <= x / d <= 999
  {
    QuotientAtLeast(x, d, 1);
    QuotientAtMost(x, d, 999);
  }

  /** On that range theta is a proper fraction of a thousand. */
  lemma ThetaRange(s: nat, mtu: nat)
    requires s <= 312 && MIN_MTU < mtu <= 22369
    ensures 1 <= GetThetaByLinkSpeed(s, mtu) <= 999
  {
    ThetaExact(s, mtu);
    LargestSafeMtu(s, mtu);
    AssembleBounds(s);
    var a := GetAssembleNumByBitrate(Mul(s, BITINBYTE));
    AllSizeIsTrue(s, mtu, a);
    ProductBound(65, a, mtu, a);
    QuotientRange(1000 * (mtu * a), TrueSize(s, mtu, a));
  }

  // ---------------------------------------------------------------- both directions

  /** Half the harmonic mean of the two effective rates, in MB per second, as the code computes it. */
  function Combined(speedTx: nat, thetaTx: nat, speedRx: nat, thetaRx: nat): nat {
    Div(Mul(Mul(Div(Mul(speedTx, thetaTx), WIFI_THETA_ACCURACY), speedRx), thetaRx),
        Plus(Mul(speedTx, thetaTx), Mul(speedRx, thetaRx)))
  }

  lemma FloorProduct(x: nat, b: nat)
    ensures x / 1000 * b * 1000 <= x * b
  {
    var q := x / 1000;
    MulMono(q * 1000, x, b);
    assert q * b * 1000 == q * 1000 * b;
  }

  /** q * b over x + b is at most q. */
  lemma AtMostFirst(q: nat, x: nat, b: nat)
    requires x + b > 0
    ensures q * b / (x + b) <= q
  {
    var d := x + b;
    MulMono(b, d, q);
    assert b * q == q * b && d * q == q * d;
    assert (q + 1) * d == q * d + d;
    QuotientAtMost(q * b, d, q);
  }

  /** A thousand times n is at most x * b, so n over x + b is at most b over a thousand. */
  lemma AtMostSecond(n: nat, x: nat, b: nat)
    requires n * 1000 <= x * b && x + b > 0
    ensures n / (x + b) <= b / 1000
  {
    var d, k := x + b, b / 1000;
    assert b + 1 <= 1000 * (k + 1);
    MulMono(x, d, b);
    MulMono(b + 1, 1000 * (k + 1), d);
    assert b * d == d * b && (b + 1) * d == b * d + d;
    assert 1000 * (k + 1) * d == 1000 * ((k + 1) * d);
    QuotientAtMost(n, d, k);
  }

  /** Neither direction alone is exceeded. */
  lemma HarmonicBound(x: nat, b: nat)
    requires x + b > 0
    ensures x / 1000 * b / (x + b) <= x / 1000
    ensures x / 1000 * b / (x + b) <= b / 1000
  {
    AtMostFirst(x / 1000, x, b);
    FloorProduct(x, b);
    AtMostSecond(x / 1000 * b, x, b);
  }

  lemma NoWrapInCombined(speedTx: nat, thetaTx: nat, speedRx: nat, thetaRx: nat)
    requires speedTx <= 312 && speedRx <= 312 && thetaTx <= 999 && thetaRx <= 999
    ensures
      var x, b := speedTx * thetaTx, speedRx * thetaRx;
      && Mul(speedTx, thetaTx) == x <= 311_688 && Mul(speedRx, thetaRx) == b <= 311_688
      && Mul(Mul(Div(x, WIFI_THETA_ACCURACY), speedRx), thetaRx) == x / 1000 * b
      && Plus(x, b) == x + b
  {
    var x, b := speedTx * thetaTx, speedRx * thetaRx;
    ProductBound(speedTx, thetaTx, 312, 999);
    ProductBound(speedRx, thetaRx, 312, 999);
    var q := x / 1000;
    ProductBound(q, speedRx, 311, 312);
    ProductBound(q * speedRx, thetaRx, 311 * 312, 999);
    assert q * speedRx * thetaRx == q * (speedRx * thetaRx);
  }

  /**
   With rates up to 2503, not both below 8, and an MTU up to 22369: nothing wraps, the divisor is
   not zero, and the combined rate never exceeds the effective rate of either direction.
   */
  lemma CombinedWithinBoth(tx: nat, rx: nat, mtu: nat)
    requires tx <= LARGEST_EXACT_TX && rx <= LARGEST_EXACT_TX && (tx >= 8 || rx >= 8)
    requires MIN_MTU < mtu <= 22369
    ensures
      var sT, sR := tx / BITINBYTE, rx / BITINBYTE;
      var hT, hR := GetThetaByLinkSpeed(sT, mtu), GetThetaByLinkSpeed(sR, mtu);
      && Plus(Mul(sT, hT), Mul(sR, hR)) == sT * hT + sR * hR > 0
      && Combined(sT, hT, sR, hR) == sT * hT / 1000 * (sR * hR) / (sT * hT + sR * hR)
      && Combined(sT, hT, sR, hR) <= sT * hT / 1000 <= 311
      && Combined(sT, hT, sR, hR) <= sR * hR / 1000
  {
    var sT, sR := tx / BITINBYTE, rx / BITINBYTE;
    ThetaRange(sT, mtu);
    ThetaRange(sR, mtu);
    var hT, hR := GetThetaByLinkSpeed(sT, mtu), GetThetaByLinkSpeed(sR, mtu);
    NoWrapInCombined(sT, hT, sR, hR);
    PositiveSum(sT, hT, sR, hR);
    HarmonicBound(sT * hT, sR * hR);
  }

  lemma PositiveSum(a: nat, x: nat, b: nat, y: nat)
    requires x >= 1 && y >= 1 && (a >= 1 || b >= 1)
    ensures a * x + b * y > 0
  {
    ProductBound(a, 1, a, x);
    ProductBound(b, 1, b, y);
  }

  /** When both rates are below 8 both speeds are zero, and so is the divisor. */
  lemma ZeroDivisor(tx: nat, rx: nat, thetaTx: nat, thetaRx: nat)
    requires tx < 8 && rx < 8
    ensures Plus(Mul(tx / BITINBYTE, thetaTx), Mul(rx / BITINBYTE, thetaRx)) == 0
  {
  }

  // ---------------------------------------------------------------- the two entry points

  datatype Rate = Failed | Rate(value: nat)

  predicate RateValid(rate: nat) {
    rate != 0 && rate <= MAX_WIFI_NEGO_RATE
  }

  function AtLeast(x: nat, least: nat): (r: nat)
    ensures r >= x && r >= least && (r == x || r == least)
  {
    if x < least then least else x
  }

  /** Packets per five milliseconds; the result is stored in 16 bits. */
  function PacketRate(rate: nat, mtu: nat): nat {
    Div(Mul(Div(Mul(rate, MB_SIZE), Plus(mtu, PROTOCOL_HEAD)), DATA_FRAME_SEND_INTERVAL_MS), MS_NUM_PER_SECOND)
  }

  function SpeedRx(tx: nat, rx: nat): nat {
    if rx == 0 then tx / BITINBYTE else rx / BITINBYTE
  }

  function GetWlanConngestSendRate(tx: nat, rx: nat, mtu: nat): Rate {
    if !RateValid(rx) then Failed
    else
      var sT, sR := tx / BITINBYTE, SpeedRx(tx, rx);
      var ori := Combined(sT, GetThetaByLinkSpeed(sT, mtu), sR, GetThetaByLinkSpeed(sR, mtu));
      Rate(AtLeast(PacketRate(ori, mtu) % 0x1_0000, NSTACKX_LEAST_SENDRATE))
  }

  function GetWlanConngestSendRateDMsg(tx: nat, rx: nat, mtu: nat): Rate {
    if !RateValid(tx) || !RateValid(rx) then Failed
    else
      var sT, sR := tx / BITINBYTE, rx / BITINBYTE;
      Rate(AtLeast(Combined(sT, GetThetaByLinkSpeed(sT, mtu), sR, GetThetaByLinkSpeed(sR, mtu)),
                   NSTACKX_LEAST_SENDRATE_DMSG))
  }

  /** The packet rate is exact: no product wraps and the cast to 16 bits loses nothing. */
  lemma PacketRateFits(rate: nat, mtu: nat)
    requires rate <= 311 && MIN_MTU < mtu <= MAX_MTU
    ensures PacketRate(rate, mtu) == rate * MB_SIZE / (mtu + PROTOCOL_HEAD) * 5 / 1000 < 0x1_0000
  {
    var bytes := rate * MB_SIZE;
    var packets := bytes / (mtu + PROTOCOL_HEAD);
    ProductBound(100, 4_000_000, mtu + PROTOCOL_HEAD, 4_000_000);
    MulMono(4_000_000, 4_000_001, mtu + PROTOCOL_HEAD);
    assert 4_000_000 * (mtu + PROTOCOL_HEAD) < 4_000_001 * (mtu + PROTOCOL_HEAD);
    QuotientAtMost(bytes, mtu + PROTOCOL_HEAD, 4_000_000);
    DivBound(bytes, mtu + PROTOCOL_HEAD);
  }

  /** The effective rate of a direction: speed and theta of a rate. */
  ghost predicate Direction(rate: nat, mtu: nat, speed: nat, theta: nat) {
    speed == rate / BITINBYTE && theta == GetThetaByLinkSpeed(speed, mtu)
  }

  /** The value the code stores for a combined rate, and the value meant. */
  function Stored(ori: nat, mtu: nat): nat {
    AtLeast(PacketRate(ori, mtu) % 0x1_0000, NSTACKX_LEAST_SENDRATE)
  }

  function Meant(ori: nat, mtu: nat): nat {
    AtLeast(Div(ori * MB_SIZE, mtu + PROTOCOL_HEAD) * 5 / 1000, NSTACKX_LEAST_SENDRATE)
  }

  lemma StoredIsMeant(ori: nat, mtu: nat)
    requires ori <= 311 && MIN_MTU < mtu <= MAX_MTU
    ensures Stored(ori, mtu) == Meant(ori, mtu)
  {
    PacketRateFits(ori, mtu);
  }

  lemma WlanRate(tx: nat, rx: nat, mtu: nat, sT: nat, hT: nat, sR: nat, hR: nat)
    requires RateValid(rx) && Direction(tx, mtu, sT, hT) && Direction(rx, mtu, sR, hR)
    ensures GetWlanConngestSendRate(tx, rx, mtu) == Rate(Stored(Combined(sT, hT, sR, hR), mtu))
    ensures GetWlanConngestSendRateDMsg(tx, rx, mtu) ==
      if RateValid(tx) then Rate(AtLeast(Combined(sT, hT, sR, hR), NSTACKX_LEAST_SENDRATE_DMSG)) else Failed
  {
  }

  /** A thousand times the effective rate of a direction, on unbounded numbers. */
  function Effective(speed: nat, theta: nat): nat {
    speed * theta
  }

  /** The combination of two such rates, on unbounded numbers. */
  function Exact(x: nat, b: nat): nat {
    Div(x / 1000 * b, x + b)
  }

  /** The packets assembled and theta, on unbounded numbers. */
  function TrueAssembled(speed: nat): nat {
    if 8 * speed < 200 then 8 else 8 * (8 * speed / 100)
  }

  function TrueTheta(speed: nat, mtu: nat): nat {
    var a := TrueAssembled(speed);
    Div(WIFI_THETA_ACCURACY * (mtu * a), TrueSize(speed, mtu, a))
  }

  lemma AssembledIsTrue(s: nat)
    requires s <= 313
    ensures GetAssembleNumByBitrate(Mul(s, BITINBYTE)) == TrueAssembled(s)
  {
    AssembleExact(8 * s, 8 * s / 100);
  }

  /** Which rates are refused: the receive rate by both functions, the transmit rate by one. */
  lemma RateCodes(tx: nat, rx: nat, mtu: nat)
    ensures GetWlanConngestSendRate(tx, rx, mtu) == Failed <==> rx == 0 || rx > 2500
    ensures GetWlanConngestSendRateDMsg(tx, rx, mtu) == Failed <==> tx == 0 || tx > 2500 || rx == 0 || rx > 2500
  {
  }

  lemma ThetaIsTrue(s: nat, mtu: nat)
    requires s <= 312 && MIN_MTU < mtu <= 22369
    ensures GetThetaByLinkSpeed(s, mtu) == TrueTheta(s, mtu)
  {
    LargestSafeMtu(s, mtu);
    ThetaExact(s, mtu);
    AssembledIsTrue(s);
  }

  lemma CombinedSmall(tx: nat, rx: nat, mtu: nat, sT: nat, hT: nat, sR: nat, hR: nat)
    requires tx <= LARGEST_EXACT_TX && RateValid(rx) && (tx >= 8 || rx >= 8) && MIN_MTU < mtu <= 22369
    requires Direction(tx, mtu, sT, hT) && Direction(rx, mtu, sR, hR)
    ensures
      var eT, eR, ori := Effective(sT, hT), Effective(sR, hR), Combined(sT, hT, sR, hR);
      eT + eR > 0 && ori == Exact(eT, eR) && ori <= eT / 1000 <= 311 && ori <= eR / 1000
  {
    CombinedWithinBoth(tx, rx, mtu);
  }

  /** A thousand times the effective rate behind a negotiated one, on unbounded numbers. */
  function TrueRate(rate: nat, mtu: nat): nat {
    Effective(rate / BITINBYTE, TrueTheta(rate / BITINBYTE, mtu))
  }

  /**
   Both rate functions on the safe range: the divisor is not zero, every result is that of unbounded
   arithmetic, and before the floor it exceeds neither direction's effective rate.
   */
  lemma SendRateExact(tx: nat, rx: nat, mtu: nat) returns (eT: nat, eR: nat)
    requires tx <= LARGEST_EXACT_TX && RateValid(rx) && (tx >= 8 || rx >= 8) && MIN_MTU < mtu <= 22369
    ensures eT == TrueRate(tx, mtu) && eR == TrueRate(rx, mtu)
    ensures eT + eR > 0 && Exact(eT, eR) <= eT / 1000 && Exact(eT, eR) <= eR / 1000
    ensures GetWlanConngestSendRate(tx, rx, mtu) == Rate(Meant(Exact(eT, eR), mtu))
    ensures GetWlanConngestSendRateDMsg(tx, rx, mtu) ==
      if RateValid(tx) then Rate(AtLeast(Exact(eT, eR), NSTACKX_LEAST_SENDRATE_DMSG)) else Failed
  {
    var sT, sR := tx / BITINBYTE, rx / BITINBYTE;
    var hT, hR := GetThetaByLinkSpeed(sT, mtu), GetThetaByLinkSpeed(sR, mtu);
    ThetaIsTrue(sT, mtu);
    ThetaIsTrue(sR, mtu);
    eT, eR := Effective(sT, hT), Effective(sR, hR);
    CombinedSmall(tx, rx, mtu, sT, hT, sR, hR);
    WlanRate(tx, rx, mtu, sT, hT, sR, hR);
    StoredIsMeant(Combined(sT, hT, sR, hR), mtu);
  }

  lemma ThetaAt313()
    ensures GetThetaByLinkSpeed(313, 22369) == 39 && TrueTheta(313, 22369) == 979
    ensures GetThetaByLinkSpeed(312, 22369) == TrueTheta(312, 22369) == 978
  {
    assert GetAssembleNumByBitrate(Mul(313, BITINBYTE)) == 200;
    assert GetAssembleNumByBitrate(Mul(312, BITINBYTE)) == 192;
    assert TrueAssembled(313) == 200 && TrueAssembled(312) == 192;
  }

  /**
   The WLAN path does not check the transmit rate, and the next one up is not exact for every
   admitted mtu: it yields three packets where thirty-five are meant.
   */
  lemma LargestExactTx()
    ensures GetWlanConngestSendRate(LARGEST_EXACT_TX + 1, MAX_WIFI_NEGO_RATE, 22369) == Rate(3)
    ensures Meant(Exact(TrueRate(LARGEST_EXACT_TX + 1, 22369), TrueRate(MAX_WIFI_NEGO_RATE, 22369)), 22369) == 35
  {
    ThetaAt313();
    assert Combined(313, 39, 312, 978) == 11;
    assert Exact(306427, 305136) == 152;
  }
}
