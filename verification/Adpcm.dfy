/** The GC-ADPCM decoder: streaming, and when its 32-bit filter sum is exact. */
module Adpcm {
  import opened Words

  const FRAME_LEN := 8
  const SAMPLES_PER_FRAME := 14

  type Octet = b: int | 0 <= b < 256
  type Sample = s: int | -32768 <= s <= 32767

  /** The two samples before the next one. */
  datatype History = History(yn1: Sample, yn2: Sample)

  /** Both channels of a slot. */
  datatype Stereo = Stereo(left: Sample, right: Sample)

  function Both(s: Sample): Stereo { Stereo(s, s) }

  /** The coefficients: eight pairs, with eleven fractional bits. */
  type Coefficients = c: seq<Sample> | |c| == 16 witness seq(16, _ => 0)

  function Clamp(x: int): Sample { if x < -32768 then -32768 else if x > 32767 then 32767 else x }

  function SignedNibble(n: nat): (r: int)
    requires n < 16
    ensures -8 <= r <= 7
  {
    if n < 8 then n else n - 16
  }

  /** What an octet's frame header selects. */
  datatype Setting = Setting(scale: nat, c1: Sample, c2: Sample)

  function Select(header: Octet, coeff: Coefficients): Setting {
    var idx := header / 16 % 8;
    Setting(PowerOfTwo(header % 16), coeff[idx * 2], coeff[idx * 2 + 1])
  }

  /** How the next sample comes from a nibble, the frame's setting and the two samples before it. */
  type Filter = (int, Setting, History) -> Sample

  function Advance(h: History, s: Sample): History { History(s, h.yn1) }

  datatype Decoded = Decoded(out: seq<Stereo>, history: History)

  function DecodeOctet(b: Octet, f: Setting, h: History, next: Filter): (d: Decoded)
    ensures |d.out| == 2
  {
    var s1 := next(SignedNibble(b / 16), f, h);
    var h1 := Advance(h, s1);
    var s2 := next(SignedNibble(b % 16), f, h1);
    Decoded([Both(s1), Both(s2)], Advance(h1, s2))
  }

  function Then(d: Decoded, e: Decoded): Decoded { Decoded(d.out + e.out, e.history) }

  function DecodeOctets(bs: seq<Octet>, f: Setting, h: History, next: Filter): (d: Decoded)
    ensures |d.out| == 2 * |bs|
    decreases bs
  {
    if bs == [] then Decoded([], h)
    else
      var d := DecodeOctet(bs[0], f, h, next);
      Then(d, DecodeOctets(bs[1..], f, d.history, next))
  }

  /** How many octets the decoder reads for this many samples. */
  function Needed(n: nat): nat {
    if n == 0 then 0
    else if n <= SAMPLES_PER_FRAME then 1 + (n + 1) / 2
    else FRAME_LEN + Needed(n - SAMPLES_PER_FRAME)
  }

  /** A frame of at most fourteen samples. */
  function DecodeFrame(data: seq<Octet>, n: nat, coeff: Coefficients, h: History, next: Filter): (d: Decoded)
    requires n <= SAMPLES_PER_FRAME && 1 + (n + 1) / 2 <= |data|
    ensures |d.out| == n + n % 2
  {
    DecodeOctets(data[1..1 + (n + 1) / 2], Select(data[0], coeff), h, next)
  }

  function Decode(data: seq<Octet>, n: nat, coeff: Coefficients, h: History, next: Filter): (d: Decoded)
    requires Needed(n) <= |data|
    ensures |d.out| == n + n % 2
    decreases n
  {
    if n == 0 then Decoded([], h)
    else if n <= SAMPLES_PER_FRAME then DecodeFrame(data, n, coeff, h, next)
    else
      var d := DecodeFrame(data, SAMPLES_PER_FRAME, coeff, h, next);
      Then(d, Decode(data[FRAME_LEN..], n - SAMPLES_PER_FRAME, coeff, d.history, next))
  }

  // ----- Streaming -----

  lemma ThenAssoc(c: Decoded, d: Decoded, e: Decoded)
    ensures Then(c, Then(d, e)) == Then(Then(c, d), e)
  {
    assert c.out + (d.out + e.out) == (c.out + d.out) + e.out;
  }

  lemma Drops(s: seq<Octet>, a: nat, b: nat)
    requires a + b <= |s|
    ensures s[a..][b..] == s[a + b..]
  {
  }

  lemma {:induction false} NeededSplit(frames: nat, n: nat)
    requires frames * SAMPLES_PER_FRAME <= n
    ensures Needed(n) == FRAME_LEN * frames + Needed(n - frames * SAMPLES_PER_FRAME)
    ensures Needed(frames * SAMPLES_PER_FRAME) == FRAME_LEN * frames
  {
    if frames == 1 {
      assert n > SAMPLES_PER_FRAME || n == SAMPLES_PER_FRAME;
    } else if frames > 1 {
      NeededSplit(frames - 1, n - SAMPLES_PER_FRAME);
    }
  }

  /** Decoding some frames and then the rest, from the history the first call leaves, is decoding all of it at once. */
  lemma {:induction false} Streaming(data: seq<Octet>, frames: nat, n: nat, coeff: Coefficients, h: History, next: Filter)
    requires frames * SAMPLES_PER_FRAME <= n && Needed(n) <= |data|
    ensures Needed(frames * SAMPLES_PER_FRAME) <= FRAME_LEN * frames <= |data|
    ensures Needed(n - frames * SAMPLES_PER_FRAME) <= |data| - FRAME_LEN * frames
    ensures var first := Decode(data, frames * SAMPLES_PER_FRAME, coeff, h, next);
            var rest := Decode(data[FRAME_LEN * frames..], n - frames * SAMPLES_PER_FRAME, coeff, first.history, next);
            Decode(data, n, coeff, h, next) == Then(first, rest)
    decreases frames
  {
    hide DecodeFrame, Then, Decode, Needed;
    NeededSplit(frames, n);
    if frames == 0 {
      NothingFirst(data, n, coeff, h, next);
    } else {
      var rest, m := data[FRAME_LEN..], n - frames * SAMPLES_PER_FRAME;
      OneFrame(data, n, coeff, h, next);
      OneFrame(data, frames * SAMPLES_PER_FRAME, coeff, h, next);
      var d := DecodeFrame(data, SAMPLES_PER_FRAME, coeff, h, next);
      Streaming(rest, frames - 1, n - SAMPLES_PER_FRAME, coeff, d.history, next);
      var middle := Decode(rest, (frames - 1) * SAMPLES_PER_FRAME, coeff, d.history, next);
      Drops(data, FRAME_LEN, FRAME_LEN * (frames - 1));
      ThenHistory(d, middle);
      ThenAssoc(d, middle, Decode(data[FRAME_LEN * frames..], m, coeff, middle.history, next));
    }
  }

  lemma NothingFirst(data: seq<Octet>, n: nat, coeff: Coefficients, h: History, next: Filter)
    requires Needed(n) <= |data|
    ensures Decode(data, 0, coeff, h, next).history == h && data[0..] == data
    ensures Then(Decode(data, 0, coeff, h, next), Decode(data, n, coeff, h, next)) == Decode(data, n, coeff, h, next)
  {
    var d := Decode(data, n, coeff, h, next);
    assert [] + d.out == d.out;
  }

  lemma ThenHistory(d: Decoded, e: Decoded)
    ensures Then(d, e).history == e.history
  {
  }

  /** A whole frame, with any number of samples after it. */
  lemma OneFrame(data: seq<Octet>, n: nat, coeff: Coefficients, h: History, next: Filter)
    requires n >= SAMPLES_PER_FRAME && Needed(n) <= |data|
    ensures FRAME_LEN <= |data| && Needed(n - SAMPLES_PER_FRAME) <= |data| - FRAME_LEN
    ensures var d := DecodeFrame(data, SAMPLES_PER_FRAME, coeff, h, next);
            Decode(data, n, coeff, h, next)
            == Then(d, Decode(data[FRAME_LEN..], n - SAMPLES_PER_FRAME, coeff, d.history, next))
  {
    if n == SAMPLES_PER_FRAME {
      var d := DecodeFrame(data, SAMPLES_PER_FRAME, coeff, h, next);
      assert d.out + [] == d.out;
    }
  }

  // ----- When the 32-bit filter is exact -----

  /** The filter sum in eleven-bit fixed point, before it is shifted back. */
  function FilterSum(nibble: int, f: Setting, h: History): int {
    nibble * f.scale * 2048 + 0x400 + f.c1 * h.yn1 + f.c2 * h.yn2
  }

  function Ideal(nibble: int, f: Setting, h: History): Sample { Clamp(FilterSum(nibble, f, h) / 2048) }

  /** The same with the sum made of three 32-bit additions. */
  function Narrow(nibble: int, f: Setting, h: History): Sample {
    Clamp(Wrap32(Wrap32(Wrap32(nibble * f.scale * 2048 + 0x400) + f.c1 * h.yn1) + f.c2 * h.yn2) / 2048)
  }

  /** The largest that a coefficient times a sample can be, and the largest that its negation can be. */
  function High(c: Sample): int { if c > 0 then 32767 * c else -32768 * c }
  function Low(c: Sample): int { if c > 0 then 32768 * c else -32767 * c }

  /** What a pair of coefficients must satisfy. */
  predicate Tame(c1: Sample, c2: Sample) { High(c1) + High(c2) <= 1677720575 && Low(c1) + Low(c2) <= 1610613760 }

  lemma Grows(a: int, b: int, c: int)
    requires a <= b && c >= 0
    ensures a * c <= b * c
  {
  }

  lemma ProductBounds(c: Sample, y: Sample)
    ensures -Low(c) <= c * y <= High(c) <= 0x4000_0000 && Low(c) <= 0x4000_0000
  {
    var n: int := if c > 0 then c else 0 - c;
    Grows(y, 32767, n);
    Grows(-32768, y, n);
    assert c * y == if c > 0 then y * n else -(y * n);
  }

  lemma InputBounds(nibble: int, scale: int)
    requires -8 <= nibble <= 7 && 1 <= scale <= 32768
    ensures -8 * 32768 <= nibble * scale <= 7 * 32768
  {
    Grows(nibble, 7, scale);
    Grows(-8, nibble, scale);
  }

  lemma {:induction false} PowersGrow(j: nat, k: nat)
    requires j <= k
    ensures PowerOfTwo(j) <= PowerOfTwo(k)
  {
    if j < k {
      PowersGrow(j, k - 1);
    }
  }

  lemma ScaleBound(k: nat)
    requires k < 16
    ensures 1 <= PowerOfTwo(k) <= 32768 == PowerOfTwo(15)
  {
    assert PowerOfTwo(5) == 32;
    assert PowerOfTwo(10) == 32 * 32;
    assert PowerOfTwo(15) == 32 * 32 * 32;
    PowersGrow(k, 15);
  }

  /** A sample comes out right exactly when the whole sum is a 32-bit number: otherwise it is clamped to the wrong end. */
  lemma SampleExactly(nibble: int, f: Setting, h: History)
    requires -8 <= nibble <= 7 && 1 <= f.scale <= 32768
    ensures Narrow(nibble, f, h) == Ideal(nibble, f, h) <==> Int32(FilterSum(nibble, f, h))
    ensures !Int32(FilterSum(nibble, f, h)) ==> Narrow(nibble, f, h) == if FilterSum(nibble, f, h) >= TWO_31 then -32768 else 32767
  {
    InputBounds(nibble, f.scale);
    ProductBounds(f.c1, h.yn1);
    ProductBounds(f.c2, h.yn2);
    Clamped(nibble * f.scale, f.c1 * h.yn1, f.c2 * h.yn2);
  }

  lemma Clamped(x: int, p: int, q: int)
    requires -8 * 32768 <= x <= 7 * 32768 && -0x4000_0000 <= p <= 0x4000_0000 && -0x4000_0000 <= q <= 0x4000_0000
    ensures var sum := x * 2048 + 0x400 + p + q;
            var narrow := Clamp(Wrap32(Wrap32(Wrap32(x * 2048 + 0x400) + p) + q) / 2048);
            && (narrow == Clamp(sum / 2048) <==> Int32(sum))
            && (!Int32(sum) ==> narrow == if sum >= TWO_31 then -32768 else 32767)
  {
    var sum := x * 2048 + 0x400 + p + q;
    assert Int32(x * 2048 + 0x400) && Int32(x * 2048 + 0x400 + p);
    if sum >= TWO_31 {
      assert Wrap32(sum) == sum - TWO_32;
    } else if sum < -TWO_31 {
      assert Wrap32(sum) == sum + TWO_32;
    }
  }

  /** A pair of coefficients never goes wrong, whatever the nibble, the scale and the history are. */
  ghost predicate AlwaysRight(c1: Sample, c2: Sample) {
    forall nibble, k: nat, h | -8 <= nibble <= 7 && k < 16 ::
      Narrow(nibble, Setting(PowerOfTwo(k), c1, c2), h) == Ideal(nibble, Setting(PowerOfTwo(k), c1, c2), h)
  }

  lemma PairExactly(c1: Sample, c2: Sample)
    ensures AlwaysRight(c1, c2) <==> Tame(c1, c2)
  {
    hide Narrow, Ideal, PowerOfTwo;
    ScaleBound(15);
    var f := Setting(32768, c1, c2);
    var up := History(if c1 > 0 then 32767 else -32768, if c2 > 0 then 32767 else -32768);
    var down := History(if c1 > 0 then -32768 else 32767, if c2 > 0 then -32768 else 32767);
    SampleExactly(7, f, up);
    SampleExactly(-8, f, down);
    assert FilterSum(7, f, up) == 469763072 + High(c1) + High(c2);
    assert FilterSum(-8, f, down) == -536869888 - Low(c1) - Low(c2);
    if Tame(c1, c2) {
      forall nibble, k: nat, h | -8 <= nibble <= 7 && k < 16
        ensures Narrow(nibble, Setting(PowerOfTwo(k), c1, c2), h) == Ideal(nibble, Setting(PowerOfTwo(k), c1, c2), h)
      {
        TamePair(nibble, k, c1, c2, h);
      }
    } else {
      assert Setting(PowerOfTwo(15), c1, c2) == f;
    }
  }

  lemma TamePair(nibble: int, k: nat, c1: Sample, c2: Sample, h: History)
    requires Tame(c1, c2) && -8 <= nibble <= 7 && k < 16
    ensures Narrow(nibble, Setting(PowerOfTwo(k), c1, c2), h) == Ideal(nibble, Setting(PowerOfTwo(k), c1, c2), h)
  {
    hide Narrow, Ideal, PowerOfTwo;
    ScaleBound(k);
    InputBounds(nibble, PowerOfTwo(k));
    ProductBounds(c1, h.yn1);
    ProductBounds(c2, h.yn2);
    SampleExactly(nibble, Setting(PowerOfTwo(k), c1, c2), h);
  }

  function Abs(x: int): nat { if x < 0 then -x else x }

  /** A bound a caller can check at a glance; it is the largest of its kind. */
  lemma SmallCoefficients(c1: Sample, c2: Sample)
    ensures Abs(c1) + Abs(c2) <= 49152 ==> Tame(c1, c2)
    ensures !Tame(32767, 16386)
  {
  }

  /** Every pair of coefficients is tame. */
  predicate AllTame(coeff: Coefficients) { forall i {:trigger coeff[i * 2]} :: 0 <= i < 8 ==> Tame(coeff[i * 2], coeff[i * 2 + 1]) }

  lemma {:induction false} OctetsAgree(bs: seq<Octet>, k: nat, c1: Sample, c2: Sample, h: History)
    requires Tame(c1, c2) && k < 16
    ensures var f := Setting(PowerOfTwo(k), c1, c2); DecodeOctets(bs, f, h, Narrow) == DecodeOctets(bs, f, h, Ideal)
    decreases bs
  {
    hide Narrow, Ideal, PowerOfTwo;
    if bs != [] {
      var f := Setting(PowerOfTwo(k), c1, c2);
      var n1, n2 := SignedNibble(bs[0] / 16), SignedNibble(bs[0] % 16);
      TamePair(n1, k, c1, c2, h);
      TamePair(n2, k, c1, c2, Advance(h, Ideal(n1, f, h)));
      OctetsAgree(bs[1..], k, c1, c2, DecodeOctet(bs[0], f, h, Ideal).history);
    }
  }

  lemma FrameAgrees(data: seq<Octet>, n: nat, coeff: Coefficients, h: History)
    requires AllTame(coeff) && n <= SAMPLES_PER_FRAME && 1 + (n + 1) / 2 <= |data|
    ensures DecodeFrame(data, n, coeff, h, Narrow) == DecodeFrame(data, n, coeff, h, Ideal)
  {
    hide Narrow, Ideal, PowerOfTwo, DecodeOctets, Tame;
    var i := data[0] / 16 % 8;
    assert Tame(coeff[i * 2], coeff[i * 2 + 1]);
    OctetsAgree(data[1..1 + (n + 1) / 2], data[0] % 16, coeff[i * 2], coeff[i * 2 + 1], h);
  }

  lemma {:induction false} StreamAgrees(data: seq<Octet>, n: nat, coeff: Coefficients, h: History)
    requires AllTame(coeff) && Needed(n) <= |data|
    ensures Decode(data, n, coeff, h, Narrow) == Decode(data, n, coeff, h, Ideal)
    decreases n
  {
    hide Narrow, Ideal, DecodeFrame, AllTame;
    if 0 < n <= SAMPLES_PER_FRAME {
      FrameAgrees(data, n, coeff, h);
    } else if n > SAMPLES_PER_FRAME {
      FrameAgrees(data, SAMPLES_PER_FRAME, coeff, h);
      var d := DecodeFrame(data, SAMPLES_PER_FRAME, coeff, h, Ideal);
      StreamAgrees(data[FRAME_LEN..], n - SAMPLES_PER_FRAME, coeff, d.history);
    }
  }

  /** One sample, in a frame whose header and nibble are chosen. */
  lemma OneSample(i: nat, k: nat, nibble: int, coeff: Coefficients, h: History, next: Filter)
    requires i < 8 && k < 16 && -8 <= nibble <= 7
    ensures var data: seq<Octet> := [i * 16 + k, nibble % 16 * 16];
            Needed(1) <= |data| && Decode(data, 1, coeff, h, next).out[0]
                                   == Both(next(nibble, Setting(PowerOfTwo(k), coeff[i * 2], coeff[i * 2 + 1]), h))
  {
    var data: seq<Octet> := [i * 16 + k, nibble % 16 * 16];
    assert data[1..2] == [data[1]];
    assert SignedNibble(nibble % 16) == nibble;
    assert (i * 16 + k) / 16 % 8 == i && (i * 16 + k) % 16 == k;
  }

  /** No stream ever decodes differently from the ideal filter exactly when every pair of coefficients is tame. */
  lemma StreamExactly(coeff: Coefficients)
    ensures (forall data: seq<Octet>, n: nat, h | Needed(n) <= |data| ::
              Decode(data, n, coeff, h, Narrow) == Decode(data, n, coeff, h, Ideal))
       <==> AllTame(coeff)
  {
    hide Narrow, Ideal, Decode, Needed;
    if AllTame(coeff) {
      forall data: seq<Octet>, n: nat, h | Needed(n) <= |data|
        ensures Decode(data, n, coeff, h, Narrow) == Decode(data, n, coeff, h, Ideal)
      {
        StreamAgrees(data, n, coeff, h);
      }
    } else {
      var i: nat :| i < 8 && !Tame(coeff[i * 2], coeff[i * 2 + 1]);
      PairExactly(coeff[i * 2], coeff[i * 2 + 1]);
      var nibble, k: nat, h :| -8 <= nibble <= 7 && k < 16 &&
        Narrow(nibble, Setting(PowerOfTwo(k), coeff[i * 2], coeff[i * 2 + 1]), h)
        != Ideal(nibble, Setting(PowerOfTwo(k), coeff[i * 2], coeff[i * 2 + 1]), h);
      OneSample(i, k, nibble, coeff, h, Narrow);
      OneSample(i, k, nibble, coeff, h, Ideal);
    }
  }

  // ----- The filter equation -----

  /** The samples in their order in time: the two before the first, then those of the slots. */
  function Signal(h: History, out: seq<Stereo>): (y: seq<Sample>)
    ensures |y| == |out| + 2 && y[0] == h.yn2 && y[1] == h.yn1
    ensures forall i {:trigger out[i]} :: 0 <= i < |out| ==> y[i + 2] == out[i].left
  {
    [h.yn2, h.yn1] + seq(|out|, i requires 0 <= i < |out| => out[i].left)
  }

  /** The sample after `y1` and `y2` that a frame's header and one half of an octet ask for. */
  function Equation(header: Octet, b: Octet, high: bool, coeff: Coefficients, y1: Sample, y2: Sample): Sample {
    var half := if high then b / 16 else b % 16;
    var nibble := if half < 8 then half else half - 16;
    var idx := header / 16 % 8;
    var sum := nibble * PowerOfTwo(header % 16) * 2048 + 0x400 + coeff[idx * 2] * y1 + coeff[idx * 2 + 1] * y2;
    var v := ((sum + TWO_31) % TWO_32 - TWO_31) / 2048;
    if v < -32768 then -32768 else if v > 32767 then 32767 else v
  }

  /** The octets of the sample in slot `i`. */
  function HeaderAt(i: nat): nat { 8 * (i / 14) }
  function OctetAt(i: nat): nat { 8 * (i / 14) + 1 + i % 14 / 2 }

  lemma FrameLater(i: nat)
    requires i >= SAMPLES_PER_FRAME
    ensures HeaderAt(i) == FRAME_LEN + HeaderAt(i - SAMPLES_PER_FRAME) && OctetAt(i) == FRAME_LEN + OctetAt(i - SAMPLES_PER_FRAME)
    ensures i % 14 == (i - 14) % 14
  {
  }

  /** Every slot holds, in both channels, what the filter equation makes of the two samples before it. */
  predicate Solves(data: seq<Octet>, coeff: Coefficients, h: History, out: seq<Stereo>) {
    var y := Signal(h, out);
    forall i: nat {:trigger out[i]} :: i < |out| ==>
      && OctetAt(i) < |data| && out[i].right == out[i].left
      && out[i].left == Equation(data[HeaderAt(i)], data[OctetAt(i)], i % 14 % 2 == 0, coeff, y[i + 1], y[i])
  }

  lemma NarrowIs(header: Octet, b: Octet, high: bool, coeff: Coefficients, h: History)
    ensures Narrow(SignedNibble(if high then b / 16 else b % 16), Select(header, coeff), h)
         == Equation(header, b, high, coeff, h.yn1, h.yn2)
  {
    hide PowerOfTwo;
    var f := Select(header, coeff);
    var x := SignedNibble(if high then b / 16 else b % 16) * f.scale * 2048 + 0x400;
    WrapSums(x, f.c1 * h.yn1, f.c2 * h.yn2);
  }

  lemma WrapSums(x: int, p: int, q: int)
    ensures Wrap32(Wrap32(Wrap32(x) + p) + q) == (x + p + q + TWO_31) % TWO_32 - TWO_31
  {
  }

  /** The same for the octets of one frame, or the first of them. */
  predicate Follows(header: Octet, bs: seq<Octet>, coeff: Coefficients, h: History, d: Decoded) {
    var y := Signal(h, d.out);
    && |d.out| == 2 * |bs| && d.history == History(y[|y| - 1], y[|y| - 2])
    && forall i: nat {:trigger d.out[i]} :: i < |d.out| ==>
         && d.out[i].right == d.out[i].left
         && d.out[i].left == Equation(header, bs[i / 2], i % 2 == 0, coeff, y[i + 1], y[i])
  }

  lemma OctetFollows(header: Octet, b: Octet, coeff: Coefficients, h: History)
    ensures Follows(header, [b], coeff, h, DecodeOctet(b, Select(header, coeff), h, Narrow))
  {
    hide Narrow, Equation, SignedNibble, Select;
    var d := DecodeOctet(b, Select(header, coeff), h, Narrow);
    NarrowIs(header, b, true, coeff, h);
    NarrowIs(header, b, false, coeff, History(d.out[0].left, h.yn1));
  }

  lemma {:induction false} OctetsFollow(header: Octet, bs: seq<Octet>, coeff: Coefficients, h: History)
    ensures Follows(header, bs, coeff, h, DecodeOctets(bs, Select(header, coeff), h, Narrow))
    decreases bs
  {
    hide Narrow, Equation, DecodeOctet, Select, Follows;
    if bs == [] {
      NothingFollows(header, coeff, h);
    } else {
      var d := DecodeOctet(bs[0], Select(header, coeff), h, Narrow);
      OctetFollows(header, bs[0], coeff, h);
      OctetsFollow(header, bs[1..], coeff, d.history);
      FollowsJoin(header, bs, coeff, h, d, DecodeOctets(bs[1..], Select(header, coeff), d.history, Narrow));
    }
  }

  lemma NothingFollows(header: Octet, coeff: Coefficients, h: History)
    ensures Follows(header, [], coeff, h, Decoded([], h))
  {
  }

  lemma FollowsJoin(header: Octet, bs: seq<Octet>, coeff: Coefficients, h: History, d: Decoded, e: Decoded)
    requires bs != [] && Follows(header, [bs[0]], coeff, h, d) && Follows(header, bs[1..], coeff, d.history, e)
    ensures Follows(header, bs, coeff, h, Then(d, e))
  {
    hide Equation, Signal;
    SignalJoin(h, d.out, d.history, e.out);
    var out, y, z := d.out + e.out, Signal(h, d.out + e.out), Signal(d.history, e.out);
    assert y[|y| - 2] == z[|z| - 2] && y[|y| - 1] == z[|z| - 1];
    forall i: nat | i < |out|
      ensures out[i].right == out[i].left
      ensures out[i].left == Equation(header, bs[i / 2], i % 2 == 0, coeff, y[i + 1], y[i])
    {
      if i < 2 {
        assert out[i] == d.out[i] && bs[i / 2] == [bs[0]][i / 2];
        assert y[..4][i] == y[i] && y[..4][i + 1] == y[i + 1];
      } else {
        assert out[i] == e.out[i - 2] && bs[i / 2] == bs[1..][(i - 2) / 2];
        assert y[2..][i - 2] == y[i] && y[2..][i - 1] == y[i + 1];
      }
    }
  }

  lemma SignalJoin(h: History, out: seq<Stereo>, g: History, more: seq<Stereo>)
    requires var y := Signal(h, out); g == History(y[|y| - 1], y[|y| - 2])
    ensures var y, z, whole := Signal(h, out), Signal(g, more), Signal(h, out + more);
            whole[..|y|] == y && whole[|out|..] == z
  {
    var y, z, whole := Signal(h, out), Signal(g, more), Signal(h, out + more);
    forall i | 0 <= i < |y| ensures whole[i] == y[i] {
      if i >= 2 {
        assert (out + more)[i - 2] == out[i - 2];
      }
    }
    forall i | 0 <= i < |z| ensures whole[|out| + i] == z[i] {
      if i >= 2 {
        assert (out + more)[|out| + i - 2] == more[i - 2];
      } else {
        assert whole[|out| + i] == y[|out| + i];
      }
    }
  }

  lemma FrameSolves(data: seq<Octet>, n: nat, coeff: Coefficients, h: History)
    requires 0 < n <= SAMPLES_PER_FRAME && Needed(n) <= |data|
    ensures var d := DecodeFrame(data, n, coeff, h, Narrow); var y := Signal(h, d.out);
            Solves(data, coeff, h, d.out) && d.history == History(y[|y| - 1], y[|y| - 2])
  {
    hide Narrow, Equation, DecodeOctets, Signal;
    var bs := data[1..1 + (n + 1) / 2];
    OctetsFollow(data[0], bs, coeff, h);
    var d := DecodeFrame(data, n, coeff, h, Narrow);
    forall i: nat | i < |d.out| ensures HeaderAt(i) == 0 && OctetAt(i) < |data| && data[OctetAt(i)] == bs[i / 2] {
    }
  }

  /**
   * The decoder solves the filter equation slot by slot, from the two samples of the incoming state on, and the history it
   * leaves is the last two samples.
   */
  lemma {:induction false} DecodeSolves(data: seq<Octet>, n: nat, coeff: Coefficients, h: History)
    requires Needed(n) <= |data|
    ensures var d := Decode(data, n, coeff, h, Narrow); var y := Signal(h, d.out);
            Solves(data, coeff, h, d.out) && d.history == History(y[|y| - 1], y[|y| - 2])
    decreases n
  {
    hide Narrow, Equation, DecodeFrame, Signal;
    if 0 < n <= SAMPLES_PER_FRAME {
      FrameSolves(data, n, coeff, h);
    } else if n > SAMPLES_PER_FRAME {
      var d := DecodeFrame(data, SAMPLES_PER_FRAME, coeff, h, Narrow);
      FrameSolves(data, SAMPLES_PER_FRAME, coeff, h);
      var rest, e := data[FRAME_LEN..], Decode(data[FRAME_LEN..], n - SAMPLES_PER_FRAME, coeff, d.history, Narrow);
      DecodeSolves(rest, n - SAMPLES_PER_FRAME, coeff, d.history);
      SolvesJoin(data, coeff, h, d, e.out);
    }
  }

  lemma SolvesJoin(data: seq<Octet>, coeff: Coefficients, h: History, d: Decoded, more: seq<Stereo>)
    requires |data| >= FRAME_LEN && |d.out| == SAMPLES_PER_FRAME && Solves(data, coeff, h, d.out)
    requires var y := Signal(h, d.out); d.history == History(y[|y| - 1], y[|y| - 2])
    requires Solves(data[FRAME_LEN..], coeff, d.history, more)
    ensures Solves(data, coeff, h, d.out + more)
    ensures var y, z := Signal(h, d.out + more), Signal(d.history, more); y[|y| - 2..] == z[|z| - 2..]
  {
    hide Equation, Signal;
    SignalJoin(h, d.out, d.history, more);
    var out, y, z := d.out + more, Signal(h, d.out + more), Signal(d.history, more);
    forall i: nat | i < |out|
      ensures OctetAt(i) < |data| && out[i].right == out[i].left
      ensures out[i].left == Equation(data[HeaderAt(i)], data[OctetAt(i)], i % 14 % 2 == 0, coeff, y[i + 1], y[i])
    {
      if i < SAMPLES_PER_FRAME {
        assert out[i] == d.out[i];
        assert y[..|d.out| + 2][i] == y[i] && y[..|d.out| + 2][i + 1] == y[i + 1];
      } else {
        var j := i - SAMPLES_PER_FRAME;
        assert out[i] == more[j];
        FrameLater(i);
        assert y[|d.out|..][j] == y[i] && y[|d.out|..][j + 1] == y[i + 1];
      }
    }
  }

  // ----- The decoder's loops -----

  lemma {:induction false} OctetsSnoc(bs: seq<Octet>, b: Octet, f: Setting, h: History, next: Filter)
    ensures var d := DecodeOctets(bs, f, h, next);
            DecodeOctets(bs + [b], f, h, next) == Then(d, DecodeOctet(b, f, d.history, next))
    decreases bs
  {
    if bs == [] {
      assert [b][1..] == [];
      var d := DecodeOctet(b, f, h, next);
      assert d.out + [] == d.out && [] + d.out == d.out;
      assert [] + [b] == [b];
    } else {
      var d := DecodeOctet(bs[0], f, h, next);
      OctetsSnoc(bs[1..], b, f, d.history, next);
      assert (bs + [b])[1..] == bs[1..] + [b];
      var e := DecodeOctets(bs[1..], f, d.history, next);
      ThenAssoc(d, e, DecodeOctet(b, f, e.history, next));
    }
  }

  class State {
    var yn1: Sample
    var yn2: Sample

    ghost function Value(): History
      reads this
    {
      History(yn1, yn2)
    }
  }

  function Min(a: nat, b: nat): nat { if a < b then a else b }

  /** The number of samples in the first `f` frames of `n` samples. */
  function Upto(f: nat, n: nat): nat { Min(f * SAMPLES_PER_FRAME, n) }

  /** One more frame. */
  lemma NextFrame(data: seq<Octet>, f: nat, n: nat, coeff: Coefficients, h: History, next: Filter)
    requires f * SAMPLES_PER_FRAME < n && Needed(n) <= |data|
    ensures var m := Upto(f + 1, n) - f * SAMPLES_PER_FRAME;
            && 1 <= m <= SAMPLES_PER_FRAME && FRAME_LEN * f + 1 + (m + 1) / 2 <= |data|
            && Needed(Upto(f, n)) <= |data| && Needed(Upto(f + 1, n)) <= |data|
            && var d := Decode(data, Upto(f, n), coeff, h, next);
            Decode(data, Upto(f + 1, n), coeff, h, next)
            == Then(d, DecodeFrame(data[FRAME_LEN * f..], m, coeff, d.history, next))
  {
    hide Decode, DecodeFrame, Needed, Then;
    var m := Upto(f + 1, n) - f * SAMPLES_PER_FRAME;
    NeededSplit(f, n);
    NeededOne(m);
    NeededSplit(f, Upto(f + 1, n));
    NeededGrows(m, n - f * SAMPLES_PER_FRAME);
    Streaming(data, f, Upto(f + 1, n), coeff, h, next);
    LastFrame(data[FRAME_LEN * f..], m, coeff, Decode(data, Upto(f, n), coeff, h, next).history, next);
  }

  lemma LastFrame(data: seq<Octet>, m: nat, coeff: Coefficients, h: History, next: Filter)
    requires 1 <= m <= SAMPLES_PER_FRAME && Needed(m) <= |data|
    ensures Decode(data, m, coeff, h, next) == DecodeFrame(data, m, coeff, h, next)
  {
  }

  lemma NeededOne(m: nat)
    requires 1 <= m <= SAMPLES_PER_FRAME
    ensures Needed(m) == 1 + (m + 1) / 2
  {
  }

  lemma NeededGrows(m: nat, n: nat)
    requires m <= n && m <= SAMPLES_PER_FRAME
    ensures Needed(m) <= Needed(n)
  {
    if n > SAMPLES_PER_FRAME {
      assert Needed(n) >= FRAME_LEN;
    }
  }

  /** The first `n` slots, each once. */
  predicate InOrder(order: seq<nat>, n: nat) { |order| == n && forall k :: 0 <= k < n ==> order[k] == k }

  /** The two samples of an octet. `order` lists the slots written, as they are written. */
  method PutTwo(ret: array<Stereo>, at: nat, b: Octet, f: Setting, h: History, ghost order: seq<nat>)
    returns (h': History, ghost order': seq<nat>)
    requires at + 2 <= ret.Length && InOrder(order, at)
    modifies ret
    ensures var d := DecodeOctet(b, f, h, Narrow); ret[..at + 2] == old(ret[..at]) + d.out && h' == d.history
    ensures InOrder(order', at + 2)
  {
    hide Narrow;
    var outputi := at;
    var sample1 := Narrow(SignedNibble(b / 16), f, h);
    h' := Advance(h, sample1);
    ret[outputi] := Both(sample1);
    order' := order + [outputi];
    outputi := outputi + 1;

    var sample2 := Narrow(SignedNibble(b % 16), f, h');
    h' := Advance(h', sample2);
    ret[outputi] := Both(sample2);
    order' := order' + [outputi];
    assert ret[..at + 2] == old(ret[..at]) + [Both(sample1), Both(sample2)];
  }

  lemma NoOctets(data: seq<Octet>, at: nat, f: Setting, h: History, next: Filter)
    requires at <= |data|
    ensures DecodeOctets(data[at..at], f, h, next) == Decoded([], h)
  {
  }

  lemma OneMoreOctet(out: seq<Stereo>, data: seq<Octet>, first: nat, datai: nat, f: Setting, h: History, next: Filter)
    requires first <= datai < |data|
    ensures var d := DecodeOctets(data[first..datai], f, h, next);
            var e := DecodeOctet(data[datai], f, d.history, next);
            var more := DecodeOctets(data[first..datai + 1], f, h, next);
            more.history == e.history && (out + d.out) + e.out == out + more.out
  {
    hide DecodeOctet, DecodeOctets;
    assert data[first..datai + 1] == data[first..datai] + [data[datai]];
    OctetsSnoc(data[first..datai], data[datai], f, h, next);
  }

  /** The loop over a frame's octets. */
  method PutOctets(ret: array<Stereo>, data: seq<Octet>, first: nat, start: nat, n: nat, f: Setting, h: History,
                   ghost order: seq<nat>)
    returns (h': History, ghost order': seq<nat>)
    requires start < n && ret.Length == n + n % 2 && start % 2 == 0
    requires first + Octets(n - start) <= |data| && InOrder(order, start)
    modifies ret
    ensures var k := Octets(n - start);
            var d := DecodeOctets(data[first..first + k], f, h, Narrow);
            && start + 2 * k <= ret.Length && ret[..start + 2 * k] == old(ret[..start]) + d.out && h' == d.history
            && InOrder(order', start + 2 * k)
  {
    hide Narrow, DecodeOctet, DecodeOctets, InOrder, Octets;
    NoOctets(data, first, f, h, Narrow);
    var outputi, datai := start, first;
    h', order' := h, order;
    var i := 0;
    ghost var k := 0;
    OctetsLeft(n - start, 0);
    while i < SAMPLES_PER_FRAME && outputi < n
      invariant i == 2 * k && k <= Octets(n - start) && outputi == start + i && datai == first + k
      invariant i < SAMPLES_PER_FRAME && outputi < n <==> k < Octets(n - start)
      invariant outputi <= ret.Length
      invariant var d := DecodeOctets(data[first..datai], f, h, Narrow);
                ret[..outputi] == old(ret[..start]) + d.out && h' == d.history
      invariant InOrder(order', outputi)
    {
      OneMoreOctet(old(ret[..start]), data, first, datai, f, h, Narrow);
      h', order' := PutTwo(ret, outputi, data[datai], f, h', order');
      outputi := outputi + 2;
      datai := datai + 1;
      i := i + 2;
      k := k + 1;
      OctetsLeft(n - start, k);
    }
  }

  /** The octets of a frame when so many samples are left. */
  function Octets(left: nat): nat { (Min(SAMPLES_PER_FRAME, left) + 1) / 2 }

  lemma OctetsLeft(left: nat, k: nat)
    ensures 2 * k < SAMPLES_PER_FRAME && 2 * k < left <==> k < Octets(left)
  {
  }

  /** What has been decoded after some frames of a call that began with history `h0`. */
  ghost predicate Reached(ret: array<Stereo>, f: nat, n: nat, data: seq<Octet>, coeff: Coefficients, h0: History, h: History)
    reads ret
    requires Needed(Upto(f, n)) <= |data|
  {
    var d := Decode(data, Upto(f, n), coeff, h0, Narrow);
    |d.out| <= ret.Length && ret[..|d.out|] == d.out && h == d.history
  }

  /** One frame. */
  method PutFrame(ret: array<Stereo>, data: seq<Octet>, framei: nat, n: nat, coeff: Coefficients, h: History,
                  ghost h0: History, ghost order: seq<nat>)
    returns (h': History, ghost order': seq<nat>)
    requires framei * SAMPLES_PER_FRAME < n && ret.Length == n + n % 2 && Needed(n) <= |data|
    requires Needed(Upto(framei, n)) <= |data| && Reached(ret, framei, n, data, coeff, h0, h)
    requires InOrder(order, Even(Upto(framei, n)))
    modifies ret
    ensures Needed(Upto(framei + 1, n)) <= |data| && Reached(ret, framei + 1, n, data, coeff, h0, h')
    ensures InOrder(order', Even(Upto(framei + 1, n)))
  {
    hide Narrow, DecodeOctets, Decode, Select, InOrder, Needed, Upto, Even, Min, Octets;
    NextFrame(data, framei, n, coeff, h0, Narrow);
    EvenFrame(framei, n);
    var f := Select(data[framei * FRAME_LEN], coeff);
    var outputi := framei * SAMPLES_PER_FRAME;
    var datai := framei * FRAME_LEN + 1;
    ghost var m := Upto(framei + 1, n) - outputi;
    Slice(data, framei * FRAME_LEN, 1 + (m + 1) / 2);
    h', order' := PutOctets(ret, data, datai, outputi, n, f, h, order);
  }

  function Even(n: nat): nat { n + n % 2 }

  lemma EvenFrame(f: nat, n: nat)
    requires f * SAMPLES_PER_FRAME < n
    ensures var start := f * SAMPLES_PER_FRAME; var m := Upto(f + 1, n) - start;
            && start % 2 == 0 && Octets(n - start) == (m + 1) / 2 && Upto(f, n) == Even(Upto(f, n)) == start
            && Even(Upto(f + 1, n)) == start + 2 * ((m + 1) / 2) <= n + n % 2 && Even(m) == 2 * ((m + 1) / 2)
  {
    var start := f * SAMPLES_PER_FRAME;
    var m := Upto(f + 1, n) - start;
    assert m == Min(SAMPLES_PER_FRAME, n - start);
    assert start == 2 * (7 * f);
    EvenSum(7 * f, m);
    if m < SAMPLES_PER_FRAME {
      assert start + m == n;
    }
  }

  lemma EvenSum(half: nat, m: nat)
    ensures Even(2 * half) == 2 * half && Even(2 * half + m) == 2 * half + Even(m) && Even(m) == 2 * ((m + 1) / 2)
  {
  }

  lemma Slice(data: seq<Octet>, a: nat, b: nat)
    requires 1 <= b && a + b <= |data|
    ensures data[a..][1..b] == data[a + 1..a + b] && data[a..][0] == data[a]
  {
  }

  lemma DecodesNothing(data: seq<Octet>, coeff: Coefficients, h: History, next: Filter)
    ensures Needed(0) == 0 && Decode(data, 0, coeff, h, next) == Decoded([], h) && InOrder([], 0)
  {
  }

  /**
   * Decodes `n` samples and leaves the last two in the state. Every slot of the result, with the extra one of an odd count,
   * is written once, in order.
   */
  method DecodeADPCM(data: seq<Octet>, n: nat, coeff: Coefficients, state: State)
    returns (ret: array<Stereo>, ghost order: seq<nat>)
    requires Needed(n) <= |data|
    modifies state
    ensures fresh(ret) && Decoded(ret[..], state.Value()) == Decode(data, n, coeff, old(state.Value()), Narrow)
    ensures InOrder(order, ret.Length) && ret.Length == n + n % 2
    ensures Solves(data, coeff, old(state.Value()), ret[..])
    ensures var y := Signal(old(state.Value()), ret[..]); state.yn1 == y[|y| - 1] && state.yn2 == y[|y| - 2]
  {
    hide Narrow, Decode, Needed, InOrder, Solves;
    ghost var h0 := state.Value();
    DecodeSolves(data, n, coeff, h0);
    ret := new Stereo[if n % 2 == 0 then n else n + 1](_ => Both(0));
    var h := History(state.yn1, state.yn2);
    order := [];
    var frames := (n + (SAMPLES_PER_FRAME - 1)) / SAMPLES_PER_FRAME;
    DecodesNothing(data, coeff, h0, Narrow);
    for framei := 0 to frames
      invariant fresh(ret) && Needed(Upto(framei, n)) <= |data| && Reached(ret, framei, n, data, coeff, h0, h)
      invariant InOrder(order, Even(Upto(framei, n)))
    {
      h, order := PutFrame(ret, data, framei, n, coeff, h, h0, order);
    }
    assert Upto(frames, n) == n;
    state.yn1 := h.yn1;
    state.yn2 := h.yn2;
  }
}
