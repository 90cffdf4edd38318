/**
 * IdGuidGenerator (src/FlakeGen/IdGuidGenerator.cs): a k-ordered 128-bit id
 * engine. Each call advances a (last tick, sequence) clock state from a fresh
 * clock reading and packs the ticks since the epoch, six worker bytes and the
 * 16-bit sequence into the eleven arguments of a Guid constructor.
 *
 * Ticks are DateTime ticks of 100 ns. The clock is not read here: every call
 * receives the reading it would have taken, and, for a clock that went
 * backward, the reading taken once the spin-wait has let it through.
 */
module IdGuid {
  import opened Common
  import opened Ordering

  /** IdGuidGenerator.DefaultEpoch (1970-01-01T00:00:00Z) in DateTime ticks. */
  const DefaultEpochTicks: int := 621_355_968_000_000_000

  /** DateTime.MaxValue.Ticks: every DateTime reading lies in [0, MaxTicks]. */
  const MaxTicks: int := 3_155_378_975_999_999_999

  type Ticks = t: int | 0 <= t <= MaxTicks

  /** The largest sequence number the Debug.Assert in HandleTime admits. */
  const MaxSequence: int := 0xFFFF

  /** The eleven arguments of `new Guid(int a, short b, short c, byte d, ..., byte k)`. */
  datatype Guid = Guid(a: int32, b: int16, c: int16,
                       d: byte, e: byte, f: byte, g: byte, h: byte, i: byte,
                       j: byte, k: byte)

  /** The fields _identifier0 .. _identifier5; b0 is the least significant byte. */
  datatype Worker = Worker(b0: byte, b1: byte, b2: byte, b3: byte, b4: byte, b5: byte)

  /** The clock/sequence pair the engine owns: _lastTicks and _sequence. */
  datatype ClockState = ClockState(lastTicks: Ticks, sequence: nat)

  /**
   * What one call learns from the clock: `now` is the reading HandleTime takes
   * first; `resumed` is the reading it takes after SpinUntil has returned,
   * used only when `now` is behind the last tick.
   */
  datatype Reading = Reading(now: Ticks, resumed: Ticks)

  // ---------------------------------------------------------------------------
  // Guid order

  /** The fields as unsigned numbers, in the order the comparison visits them. */
  function UnsignedFields(x: Guid): seq<int>
  {
    [x.a % 0x1_0000_0000, x.b % 0x1_0000, x.c % 0x1_0000]
      + [x.d, x.e, x.f, x.g, x.h, x.i]
      + [x.j, x.k]
  }

  /** Guid order: field by field, each compared unsigned. */
  predicate GuidLess(x: Guid, y: Guid)
  {
    LexLess(UnsignedFields(x), UnsignedFields(y), IntLess)
  }

  // ---------------------------------------------------------------------------
  // Worker bytes

  function Pow256(k: nat): (p: nat)
    ensures p >= 1
  {
    if k == 0 then 1 else 256 * Pow256(k - 1)
  }

  /**
   * `(byte)(identifier >> (8 * k) & 0xff)`: bits 8k to 8k+7, that is the
   * low 8(k+1) bits with the low 8k bits dropped.
   */
  function ByteAt(x: int, k: nat): (b: byte)
    ensures b == (x % Pow256(k + 1)) / Pow256(k)
  {
    var b := (x / Pow256(k)) % 256;
    ModMul(x, Pow256(k), 256);
    assert Pow256(k) * 256 == Pow256(k + 1);
    DivModUnique(x % Pow256(k + 1), Pow256(k), b, x % Pow256(k));
    b
  }

  function WorkerBytes(w: Worker): seq<byte>
  {
    [w.b0, w.b1, w.b2, w.b3, w.b4, w.b5]
  }

  /** The 48-bit number the worker bytes stand for, b0 least significant. */
  function WorkerValue(w: Worker): int
  {
    w.b0 + 0x100 * (w.b1 + 0x100 * (w.b2 + 0x100 * (w.b3 + 0x100 * (w.b4 + 0x100 * w.b5))))
  }

  /**
   * The worker bytes the `long` constructor keeps: byte k is bits 8k..8k+7
   * of the identifier, so together they are the identifier modulo 2^48;
   * bytes 6 and 7 are discarded.
   */
  function WorkerFromLong(identifier: int64): (w: Worker)
    ensures WorkerValue(w) == identifier % 0x1_0000_0000_0000
  {
    var w := Worker(ByteAt(identifier, 0), ByteAt(identifier, 1), ByteAt(identifier, 2),
                    ByteAt(identifier, 3), ByteAt(identifier, 4), ByteAt(identifier, 5));
    assert WorkerValue(w) == identifier % 0x1_0000_0000_0000 by {
      var x := identifier;
      assert Pow256(1) == 0x100 && Pow256(2) == 0x1_0000 && Pow256(3) == 0x100_0000;
      assert Pow256(4) == 0x1_0000_0000 && Pow256(5) == 0x100_0000_0000;
      ModMul(x, 1, 256);
      ModMul(x, 0x100, 256);
      ModMul(x, 0x1_0000, 256);
      ModMul(x, 0x100_0000, 256);
      ModMul(x, 0x1_0000_0000, 256);
      ModMul(x, 0x100_0000_0000, 256);
    }
    w
  }

  // ---------------------------------------------------------------------------
  // Packing (NextId)

  /**
   * The Guid NextId builds: a, b, c are bits 63-32, 31-16 and 15-0 of the
   * timestamp cast to int and short; d..i are _identifier5 .. _identifier0;
   * j and k are the high and low byte of the sequence.
   */
  function Pack(timestamp: int64, w: Worker, sequence: int): (x: Guid)
    ensures UnsignedFields(x) == TimestampFields(timestamp) + WorkerFields(w) + SequenceFields(sequence)
    ensures WorkerOf(x) == w
    ensures SequenceOf(x) == sequence % 0x1_0000
  {
    CastBack(timestamp);
    ModMul(sequence, 0x100, 0x100);
    Guid(ToInt32((timestamp / 0x1_0000_0000) % 0x1_0000_0000),
         ToInt16((timestamp / 0x1_0000) % 0x1_0000),
         ToInt16(timestamp % 0x1_0000),
         w.b5, w.b4, w.b3, w.b2, w.b1, w.b0,
         (sequence / 0x100) % 0x100, sequence % 0x100)
  }

  /** The inverse of Pack: the timestamp a, b, c spell as a two's complement long. */
  function TimestampOf(x: Guid): int64
  {
    ToInt64((x.a % 0x1_0000_0000) * 0x1_0000_0000 + (x.b % 0x1_0000) * 0x1_0000 + x.c % 0x1_0000)
  }

  function WorkerOf(x: Guid): Worker
  {
    Worker(x.i, x.h, x.g, x.f, x.e, x.d)
  }

  function SequenceOf(x: Guid): int
  {
    x.j * 0x100 + x.k
  }

  /** The three timestamp fields as unsigned numbers. */
  function TimestampFields(timestamp: int): seq<int>
  {
    [(timestamp / 0x1_0000_0000) % 0x1_0000_0000, (timestamp / 0x1_0000) % 0x1_0000, timestamp % 0x1_0000]
  }

  /** The timestamp fields spell the timestamp modulo 2^64. */
  lemma TimestampFieldsValue(timestamp: int)
    ensures var f := TimestampFields(timestamp);
      f[0] * 0x1_0000_0000 + f[1] * 0x1_0000 + f[2] == timestamp % 0x1_0000_0000_0000_0000
  {
    var f := TimestampFields(timestamp);
    var t := timestamp;
    assert t % 0x1_0000_0000 == f[1] * 0x1_0000 + f[2] by {
      ModMul(t, 0x1_0000, 0x1_0000);
    }
    ModMul(t, 0x1_0000_0000, 0x1_0000_0000);
  }

  /** Two longs with the same low 64 bits are the same long. */
  lemma SameLong(r: int64, t: int64)
    requires r % 0x1_0000_0000_0000_0000 == t % 0x1_0000_0000_0000_0000
    ensures r == t
  {
  }

  /** The casts of the timestamp fields keep their low bits. */
  lemma CastBack(timestamp: int)
    ensures var f := TimestampFields(timestamp);
      ToInt32(f[0]) % 0x1_0000_0000 == f[0] && ToInt16(f[1]) % 0x1_0000 == f[1] && ToInt16(f[2]) % 0x1_0000 == f[2]
  {
  }

  /** Fields that spell a long's low 64 bits decode to that long. */
  lemma LongOfFields(x: Guid, timestamp: int64)
    requires (x.a % 0x1_0000_0000) * 0x1_0000_0000 + (x.b % 0x1_0000) * 0x1_0000 + x.c % 0x1_0000
          == timestamp % 0x1_0000_0000_0000_0000
    ensures TimestampOf(x) == timestamp
  {
    var u := (x.a % 0x1_0000_0000) * 0x1_0000_0000 + (x.b % 0x1_0000) * 0x1_0000 + x.c % 0x1_0000;
    SameLong(ToInt64(u), timestamp);
  }

  /** The timestamp fields Pack writes spell the timestamp back. */
  lemma TimestampRoundTrip(timestamp: int64, w: Worker, sequence: int)
    ensures TimestampOf(Pack(timestamp, w, sequence)) == timestamp
  {
    var x := Pack(timestamp, w, sequence);
    var f := TimestampFields(timestamp);
    CastBack(timestamp);
    TimestampFieldsValue(timestamp);
    assert x.a % 0x1_0000_0000 == f[0] && x.b % 0x1_0000 == f[1] && x.c % 0x1_0000 == f[2];
    LongOfFields(x, timestamp);
  }

  /** Packing is exact: the timestamp, the worker and the sequence come back out. */
  lemma PackRoundTrip(timestamp: int64, w: Worker, sequence: int)
    requires 0 <= sequence <= MaxSequence
    ensures TimestampOf(Pack(timestamp, w, sequence)) == timestamp
    ensures WorkerOf(Pack(timestamp, w, sequence)) == w
    ensures SequenceOf(Pack(timestamp, w, sequence)) == sequence
  {
    TimestampRoundTrip(timestamp, w, sequence);
  }

  // ---------------------------------------------------------------------------
  // Order of packed ids

  /** The worker fields in the order NextId writes them: _identifier5 first. */
  function WorkerFields(w: Worker): seq<int>
  {
    [w.b5, w.b4, w.b3, w.b2, w.b1, w.b0]
  }

  /** The two sequence fields: high byte, then low byte. */
  function SequenceFields(sequence: int): seq<int>
  {
    [(sequence / 0x100) % 0x100, sequence % 0x100]
  }

  lemma Lex2(x: seq<int>, y: seq<int>)
    requires |x| == |y| == 2
    ensures LexLess(x, y, IntLess) <==> x[0] < y[0] || (x[0] == y[0] && x[1] < y[1])
  {
    var x', y' := x[1..], y[1..];
    assert !LexLess(x'[1..], y'[1..], IntLess) by {
      assert x'[1..] == [];
    }
    assert LexLess(x', y', IntLess) <==> x'[0] < y'[0];
  }

  lemma Lex3(x: seq<int>, y: seq<int>)
    requires |x| == |y| == 3
    ensures LexLess(x, y, IntLess)
        <==> x[0] < y[0] || (x[0] == y[0] && (x[1] < y[1] || (x[1] == y[1] && x[2] < y[2])))
  {
    Lex2(x[1..], y[1..]);
  }

  /** Two-digit numbers in radix 2^16 compare digit by digit. */
  lemma Horner16(a: int, x: int, b: int, y: int)
    requires 0 <= x < 0x1_0000 && 0 <= y < 0x1_0000
    ensures a * 0x1_0000 + x < b * 0x1_0000 + y <==> a < b || (a == b && x < y)
    ensures a * 0x1_0000 + x == b * 0x1_0000 + y <==> a == b && x == y
  {
  }

  /** For a non-negative long, the timestamp fields compare as the timestamp does. */
  lemma TimestampFieldsOrder(t1: int64, t2: int64)
    requires 0 <= t1 && 0 <= t2
    ensures LexLess(TimestampFields(t1), TimestampFields(t2), IntLess) <==> t1 < t2
    ensures TimestampFields(t1) == TimestampFields(t2) <==> t1 == t2
  {
    var f1, f2 := TimestampFields(t1), TimestampFields(t2);
    TimestampFieldsValue(t1);
    TimestampFieldsValue(t2);
    DivModUnique(t1, 0x1_0000_0000_0000_0000, 0, t1);
    DivModUnique(t2, 0x1_0000_0000_0000_0000, 0, t2);
    var h1, h2 := f1[0] * 0x1_0000 + f1[1], f2[0] * 0x1_0000 + f2[1];
    assert t1 == h1 * 0x1_0000 + f1[2];
    assert t2 == h2 * 0x1_0000 + f2[2];
    Horner16(h1, f1[2], h2, f2[2]);
    Horner16(f1[0], f1[1], f2[0], f2[1]);
    Lex3(f1, f2);
  }

  /** For a 16-bit sequence, the two sequence bytes compare as the sequence does. */
  lemma SequenceFieldsOrder(s1: int, s2: int)
    requires 0 <= s1 <= MaxSequence && 0 <= s2 <= MaxSequence
    ensures LexLess(SequenceFields(s1), SequenceFields(s2), IntLess) <==> s1 < s2
    ensures SequenceFields(s1) == SequenceFields(s2) <==> s1 == s2
  {
    Lex2(SequenceFields(s1), SequenceFields(s2));
  }

  /**
   * The layout is k-ordered: for ids of one worker with non-negative
   * timestamps and 16-bit sequences, Guid order is timestamp order, and
   * within one timestamp, sequence order.
   */
  lemma PackOrder(t1: int64, t2: int64, w: Worker, s1: int, s2: int)
    requires 0 <= t1 && 0 <= t2
    requires 0 <= s1 <= MaxSequence && 0 <= s2 <= MaxSequence
    ensures GuidLess(Pack(t1, w, s1), Pack(t2, w, s2)) <==> t1 < t2 || (t1 == t2 && s1 < s2)
  {
    var a1, a2 := TimestampFields(t1), TimestampFields(t2);
    var b := WorkerFields(w);
    var c1, c2 := SequenceFields(s1), SequenceFields(s2);
    LexLessAppend(a1 + b, c1, a2 + b, c2, IntLess);
    LexLessAppend(a1, b, a2, b, IntLess);
    LexLessIrreflexive(b, IntLess);
    assert a1 + b == a2 + b <==> a1 == a2 by {
      if a1 + b == a2 + b {
        assert a1 == (a1 + b)[..3] && a2 == (a2 + b)[..3];
      }
    }
    TimestampFieldsOrder(t1, t2);
    SequenceFieldsOrder(s1, s2);
  }

  /** Guid order is a strict order. */
  lemma GuidLessStrict()
    ensures forall x :: !GuidLess(x, x)
    ensures forall x, y :: GuidLess(x, y) ==> !GuidLess(y, x)
  {
    forall x {
      LexLessIrreflexive(UnsignedFields(x), IntLess);
    }
    forall x, y {
      LexLessAsymmetric(UnsignedFields(x), UnsignedFields(y), IntLess);
    }
  }

  /** Guid order meets the laws OrderBy relies on. */
  lemma GuidLessIsStrictWeakOrder()
    ensures StrictWeakOrder(GuidLess)
  {
    LexLessStrictWeak(IntLess);
  }

  // ---------------------------------------------------------------------------
  // The clock state machine (HandleTime)

  /** State s comes strictly before state t: a later tick, or the same tick and a later sequence. */
  predicate KeyLess(s: ClockState, t: ClockState)
  {
    s.lastTicks < t.lastTicks || (s.lastTicks == t.lastTicks && s.sequence < t.sequence)
  }

  /**
   * The reading moves the state forward: the clock has not gone backward,
   * or the reading taken after the spin-wait is strictly past the last tick.
   */
  predicate Advances(s: ClockState, r: Reading)
  {
    s.lastTicks <= r.now || s.lastTicks < r.resumed
  }

  /**
   * The reading taken after the spin-wait satisfies the wait's condition
   * `_lastTicks <= now` (it is a second clock read, so a clock stepping back
   * again during the wait could break this).
   */
  predicate SpinSatisfied(s: ClockState, r: Reading)
  {
    r.now < s.lastTicks ==> s.lastTicks <= r.resumed
  }

  /**
   * One HandleTime call as written: a later reading starts a new tick with
   * sequence 0; the same reading bumps the sequence; an earlier reading
   * waits for the clock and takes the resumed reading with sequence 0.
   */
  function Step(s: ClockState, r: Reading): (t: ClockState)
    ensures s.lastTicks <= t.lastTicks <==> SpinSatisfied(s, r)
    ensures t.lastTicks == (if s.lastTicks <= r.now then r.now else r.resumed)
    ensures t.sequence == s.sequence + 1 <==> r.now == s.lastTicks
    ensures t.sequence != s.sequence + 1 ==> t.sequence == 0
    ensures KeyLess(s, t) <==> Advances(s, r)
    ensures Advances(s, r) ==> r.now <= t.lastTicks
  {
    if s.lastTicks < r.now then ClockState(r.now, 0)
    else if s.lastTicks == r.now then ClockState(s.lastTicks, s.sequence + 1)
    else ClockState(r.resumed, 0)
  }

  /**
   * HandleTime with the backward branch corrected: once the clock is back,
   * a reading still at (or behind) the last tick continues that tick's
   * sequence instead of restarting it at 0.
   */
  function StepFixed(s: ClockState, r: Reading): (t: ClockState)
    ensures KeyLess(s, t)
    ensures r.now <= t.lastTicks
    ensures t.lastTicks == (if s.lastTicks <= r.now then r.now else if s.lastTicks < r.resumed then r.resumed else s.lastTicks)
  {
    if s.lastTicks < r.now then ClockState(r.now, 0)
    else if s.lastTicks == r.now || r.resumed <= s.lastTicks then ClockState(s.lastTicks, s.sequence + 1)
    else ClockState(r.resumed, 0)
  }

  /** The states a sequence of calls passes through, one per call. */
  function Run(step: (ClockState, Reading) -> ClockState, s: ClockState, rs: seq<Reading>): (states: seq<ClockState>)
    ensures |states| == |rs|
    decreases |rs|
  {
    if rs == [] then [] else
      var t := step(s, rs[0]);
      [t] + Run(step, t, rs[1..])
  }

  /** The state a sequence of calls ends in. */
  function Final(step: (ClockState, Reading) -> ClockState, s: ClockState, rs: seq<Reading>): (t: ClockState)
    ensures rs != [] ==> t == Run(step, s, rs)[|rs| - 1]
    decreases |rs|
  {
    if rs == [] then s else Final(step, step(s, rs[0]), rs[1..])
  }

  /** The id NextId returns in state `st`. */
  function IdOf(epoch: Ticks, w: Worker, st: ClockState): Guid
  {
    Pack(st.lastTicks - epoch, w, st.sequence)
  }

  function IdsOf(epoch: Ticks, w: Worker, states: seq<ClockState>): (ids: seq<Guid>)
    ensures |ids| == |states|
    ensures forall i :: 0 <= i < |states| ==> ids[i] == IdOf(epoch, w, states[i])
  {
    seq(|states|, i requires 0 <= i < |states| => IdOf(epoch, w, states[i]))
  }

  /**
   * Every step of the run moves forward, lands at or after the epoch and
   * keeps the sequence within 16 bits (the Debug.Assert in HandleTime).
   */
  predicate StaysInOrder(step: (ClockState, Reading) -> ClockState, epoch: Ticks, s: ClockState, rs: seq<Reading>)
    decreases |rs|
  {
    rs == [] ||
      var t := step(s, rs[0]);
      KeyLess(s, t) && epoch <= t.lastTicks && t.sequence <= MaxSequence
        && StaysInOrder(step, epoch, t, rs[1..])
  }

  lemma {:induction false} RunIncreases(step: (ClockState, Reading) -> ClockState, epoch: Ticks, s: ClockState, rs: seq<Reading>)
    requires StaysInOrder(step, epoch, s, rs)
    ensures forall i :: 0 <= i < |rs| ==> KeyLess(s, Run(step, s, rs)[i])
    ensures forall i :: 0 <= i < |rs| ==> epoch <= Run(step, s, rs)[i].lastTicks && Run(step, s, rs)[i].sequence <= MaxSequence
    ensures forall i, j :: 0 <= i < j < |rs| ==> KeyLess(Run(step, s, rs)[i], Run(step, s, rs)[j])
    decreases |rs|
  {
    if rs != [] {
      var t := step(s, rs[0]);
      assert KeyLess(s, t) && epoch <= t.lastTicks && t.sequence <= MaxSequence;
      RunIncreases(step, epoch, t, rs[1..]);
      var run, tail := Run(step, s, rs), Run(step, t, rs[1..]);
      assert run == [t] + tail;
      forall i | 0 <= i < |run|
        ensures KeyLess(s, run[i]) && epoch <= run[i].lastTicks && run[i].sequence <= MaxSequence
      {
        if i > 0 {
          assert run[i] == tail[i - 1];
        }
      }
      forall i, j | 0 <= i < j < |run|
        ensures KeyLess(run[i], run[j])
      {
        assert run[j] == tail[j - 1];
        if i > 0 {
          assert run[i] == tail[i - 1];
        }
      }
    }
  }

  /** The ids of a run that stays in order strictly increase. */
  lemma RunIdsIncrease(step: (ClockState, Reading) -> ClockState, epoch: Ticks, w: Worker, s: ClockState, rs: seq<Reading>)
    requires StaysInOrder(step, epoch, s, rs)
    ensures forall i, j :: 0 <= i < j < |rs| ==> GuidLess(IdsOf(epoch, w, Run(step, s, rs))[i], IdsOf(epoch, w, Run(step, s, rs))[j])
  {
    var run := Run(step, s, rs);
    var ids := IdsOf(epoch, w, run);
    RunIncreases(step, epoch, s, rs);
    forall i, j | 0 <= i < j < |ids|
      ensures GuidLess(ids[i], ids[j])
    {
      var a, b := run[i], run[j];
      assert KeyLess(a, b) && epoch <= a.lastTicks && epoch <= b.lastTicks;
      PackOrder(a.lastTicks - epoch, b.lastTicks - epoch, w, a.sequence, b.sequence);
    }
  }

  /**
   * The ids of a run that stays in order are sorted and unique in the sense
   * of AssertUtil.AreSorted and AssertUtil.AreUnique.
   */
  lemma RunIdsSortedAndUnique(step: (ClockState, Reading) -> ClockState, epoch: Ticks, w: Worker, s: ClockState, rs: seq<Reading>)
    requires StaysInOrder(step, epoch, s, rs)
    ensures AreSorted(IdsOf(epoch, w, Run(step, s, rs)), GuidLess)
    ensures AreUnique(IdsOf(epoch, w, Run(step, s, rs)))
    ensures SortedCopy(IdsOf(epoch, w, Run(step, s, rs)), GuidLess) == IdsOf(epoch, w, Run(step, s, rs))
  {
    RunIdsIncrease(step, epoch, w, s, rs);
    GuidLessStrict();
    IncreasingIsSortedAndUnique(IdsOf(epoch, w, Run(step, s, rs)), GuidLess);
    SortedIsItsSortedCopy(IdsOf(epoch, w, Run(step, s, rs)), GuidLess);
  }

  /** Along the run, every backward reading resumes strictly past the last tick. */
  predicate ResumesLater(s: ClockState, rs: seq<Reading>)
    decreases |rs|
  {
    rs == [] || (Advances(s, rs[0]) && ResumesLater(Step(s, rs[0]), rs[1..]))
  }

  /** Along the run, no tick issues more than 65536 ids. */
  predicate NoOverflow(step: (ClockState, Reading) -> ClockState, s: ClockState, rs: seq<Reading>)
    decreases |rs|
  {
    rs == [] || (step(s, rs[0]).sequence <= MaxSequence && NoOverflow(step, step(s, rs[0]), rs[1..]))
  }

  /**
   * Why NoOverflow is needed: the sequence bytes keep only 16 bits, so a
   * sequence 65536 higher on the same tick issues the same id again.
   */
  lemma SequenceOverflowRepeatsId(epoch: Ticks, w: Worker, t: Ticks, k: nat)
    ensures IdOf(epoch, w, ClockState(t, k + 0x1_0000)) == IdOf(epoch, w, ClockState(t, k))
  {
    DivModUnique(k + 0x1_0000, 0x100, k / 0x100 + 0x100, k % 0x100);
    DivModUnique(k / 0x100 + 0x100, 0x100, k / 0x100 / 0x100 + 1, (k / 0x100) % 0x100);
  }

  /**
   * HandleTime as written keeps a run in order when the clock reads at or
   * after the epoch, the sequence stays within 16 bits, and every backward
   * reading resumes strictly past the last tick.
   */
  lemma {:induction false} StepStaysInOrder(epoch: Ticks, s: ClockState, rs: seq<Reading>)
    requires forall i :: 0 <= i < |rs| ==> epoch <= rs[i].now
    requires ResumesLater(s, rs) && NoOverflow(Step, s, rs)
    ensures StaysInOrder(Step, epoch, s, rs)
    decreases |rs|
  {
    if rs != [] {
      StepStaysInOrder(epoch, Step(s, rs[0]), rs[1..]);
    }
  }

  /**
   * The corrected HandleTime keeps a run in order with no hypothesis on the
   * backward readings.
   */
  lemma {:induction false} StepFixedStaysInOrder(epoch: Ticks, s: ClockState, rs: seq<Reading>)
    requires forall i :: 0 <= i < |rs| ==> epoch <= rs[i].now
    requires NoOverflow(StepFixed, s, rs)
    ensures StaysInOrder(StepFixed, epoch, s, rs)
    decreases |rs|
  {
    if rs != [] {
      StepFixedStaysInOrder(epoch, StepFixed(s, rs[0]), rs[1..]);
    }
  }

  /**
   * As written, a clock that goes back and then resumes exactly at the last
   * tick restarts that tick's sequence at 0 and repeats an id: the first
   * call takes tick t with sequence 0, the second reads t - 1, waits, reads
   * t again and sets the sequence back to 0.
   */
  lemma ResumeAtLastTickRepeatsId(epoch: Ticks, w: Worker, t: Ticks)
    requires 0 < t
    ensures var ids := IdsOf(epoch, w, Run(Step, ClockState(0, 0), [Reading(t, t), Reading(t - 1, t)]));
      ids[0] == ids[1]
  {
  }

  /** The corrected step issues distinct, increasing ids on that same input. */
  lemma ResumeAtLastTickFixed(epoch: Ticks, w: Worker, t: Ticks)
    requires epoch < t
    ensures var ids := IdsOf(epoch, w, Run(StepFixed, ClockState(0, 0), [Reading(t, t), Reading(t - 1, t)]));
      GuidLess(ids[0], ids[1])
  {
    var rs := [Reading(t, t), Reading(t - 1, t)];
    StepFixedStaysInOrder(epoch, ClockState(0, 0), rs);
    RunIdsIncrease(StepFixed, epoch, w, ClockState(0, 0), rs);
  }

  // ---------------------------------------------------------------------------
  // The generator object

  /** The epoch a constructor settles on: 0 stands for DefaultEpoch. */
  function EffectiveEpoch(epoch: Ticks): (e: Ticks)
    ensures e != 0
    ensures epoch == 0 ==> e == DefaultEpochTicks
    ensures epoch != 0 ==> e == epoch
  {
    if epoch == 0 then DefaultEpochTicks else epoch
  }

  class IdGuidGenerator {
    var lastTicks: Ticks
    var sequence: nat
    const epoch: Ticks
    const identifier0: byte
    const identifier1: byte
    const identifier2: byte
    const identifier3: byte
    const identifier4: byte
    const identifier5: byte

    function State(): ClockState
      reads this
    {
      ClockState(lastTicks, sequence)
    }

    function WorkerId(): Worker
    {
      Worker(identifier0, identifier1, identifier2, identifier3, identifier4, identifier5)
    }

    /** The id NextId returns once HandleTime has brought the state here. */
    function CurrentId(): Guid
      reads this
    {
      IdOf(epoch, WorkerId(), State())
    }

    /** The private `long` constructor: keeps the six low-order bytes of the identifier. */
    constructor FromLong(identifier: int64, epoch: Ticks)
      ensures WorkerId() == WorkerFromLong(identifier)
      ensures WorkerValue(WorkerId()) == identifier % 0x1_0000_0000_0000
      ensures this.epoch == EffectiveEpoch(epoch)
      ensures State() == ClockState(0, 0)
    {
      identifier0 := ByteAt(identifier, 0);
      identifier1 := ByteAt(identifier, 1);
      identifier2 := ByteAt(identifier, 2);
      identifier3 := ByteAt(identifier, 3);
      identifier4 := ByteAt(identifier, 4);
      identifier5 := ByteAt(identifier, 5);
      this.epoch := EffectiveEpoch(epoch);
      lastTicks := 0;
      sequence := 0;
    }

    /** The private `byte[]` constructor once its argument checks have passed: keeps the first six bytes. */
    constructor FromBytes(identifier: seq<byte>, epoch: Ticks)
      requires 6 <= |identifier|
      ensures WorkerBytes(WorkerId()) == identifier[..6]
      ensures this.epoch == EffectiveEpoch(epoch)
      ensures State() == ClockState(0, 0)
    {
      identifier0 := identifier[0];
      identifier1 := identifier[1];
      identifier2 := identifier[2];
      identifier3 := identifier[3];
      identifier4 := identifier[4];
      identifier5 := identifier[5];
      this.epoch := EffectiveEpoch(epoch);
      lastTicks := 0;
      sequence := 0;
    }

    /**
     * The private `byte[]` constructor with its checks: a null identifier
     * throws ArgumentNullException and one shorter than six bytes throws
     * ArgumentException, both naming "identifier".
     */
    static method Create(identifier: Option<seq<byte>>, epoch: Ticks) returns (r: Result<IdGuidGenerator>)
      ensures identifier.None? ==> r == Failure(ArgumentNull("identifier"))
      ensures identifier.Some? && |identifier.value| < 6 ==> r == Failure(Argument("identifier"))
      ensures identifier.Some? && 6 <= |identifier.value| ==>
        r.Success? && fresh(r.value) && WorkerBytes(r.value.WorkerId()) == identifier.value[..6]
        && r.value.epoch == EffectiveEpoch(epoch) && r.value.State() == ClockState(0, 0)
    {
      if identifier.None? {
        return Failure(ArgumentNull("identifier"));
      }
      if |identifier.value| < 6 {
        return Failure(Argument("identifier"));
      }
      var g := new IdGuidGenerator.FromBytes(identifier.value, epoch);
      return Success(g);
    }

    /** HandleTime: advances the clock state by one reading. */
    method HandleTime(reading: Reading)
      modifies this
      ensures State() == Step(old(State()), reading)
      ensures old(lastTicks) <= lastTicks <==> SpinSatisfied(old(State()), reading)
      ensures KeyLess(old(State()), State()) <==> Advances(old(State()), reading)
    {
      var ticks := reading.now;
      if lastTicks < ticks {
        lastTicks := ticks;
        sequence := 0;
      } else if lastTicks == ticks {
        sequence := sequence + 1;
      } else {
        lastTicks := reading.resumed;
        sequence := 0;
      }
    }

    /**
     * NextId: runs HandleTime and packs the new state. When the previous
     * id had a timestamp at or after the epoch, the reading moves the state
     * forward and the sequence stays within 16 bits, the new id is above the
     * previous one.
     */
    method NextId(reading: Reading) returns (id: Guid)
      modifies this
      ensures State() == Step(old(State()), reading)
      ensures id == CurrentId()
      ensures (epoch <= old(lastTicks) && old(sequence) <= MaxSequence && Advances(old(State()), reading)
               && sequence <= MaxSequence) ==> GuidLess(old(CurrentId()), id)
    {
      ghost var before := State();
      HandleTime(reading);
      var timestamp := lastTicks - epoch;
      id := Guid(ToInt32((timestamp / 0x1_0000_0000) % 0x1_0000_0000),
                 ToInt16((timestamp / 0x1_0000) % 0x1_0000),
                 ToInt16(timestamp % 0x1_0000),
                 identifier5, identifier4, identifier3, identifier2, identifier1, identifier0,
                 (sequence / 0x100) % 0x100, sequence % 0x100);
      if epoch <= before.lastTicks && before.sequence <= MaxSequence && Advances(before, reading) && sequence <= MaxSequence {
        PackOrder(before.lastTicks - epoch, lastTicks - epoch, WorkerId(), before.sequence, sequence);
      }
    }

    /** GenerateId: NextId under the generator's lock. */
    method GenerateId(reading: Reading) returns (id: Guid)
      modifies this
      ensures State() == Step(old(State()), reading)
      ensures id == CurrentId()
      ensures (epoch <= old(lastTicks) && old(sequence) <= MaxSequence && Advances(old(State()), reading)
               && sequence <= MaxSequence) ==> GuidLess(old(CurrentId()), id)
    {
      id := NextId(reading);
    }

    /**
     * `Take(n).ToArray()` over the generator's enumerator: one GenerateId per
     * reading. The ids are those of the run from the starting state.
     */
    method Take(readings: seq<Reading>) returns (ids: seq<Guid>)
      modifies this
      ensures ids == IdsOf(epoch, WorkerId(), Run(Step, old(State()), readings))
      ensures State() == Final(Step, old(State()), readings)
      ensures StaysInOrder(Step, epoch, old(State()), readings) ==> AreSorted(ids, GuidLess) && AreUnique(ids)
    {
      ids := [];
      ghost var start := State();
      ghost var w := WorkerId();
      var i := 0;
      while i < |readings|
        invariant 0 <= i <= |readings|
        invariant ids + IdsOf(epoch, w, Run(Step, State(), readings[i..])) == IdsOf(epoch, w, Run(Step, start, readings))
        invariant Final(Step, State(), readings[i..]) == Final(Step, start, readings)
      {
        ghost var s := State();
        RunCons(Step, epoch, w, s, readings[i..]);
        assert readings[i..][1..] == readings[i + 1..];
        var id := GenerateId(readings[i]);
        ids := ids + [id];
        i := i + 1;
      }
      if StaysInOrder(Step, epoch, start, readings) {
        RunIdsSortedAndUnique(Step, epoch, w, start, readings);
      }
    }
  }

  /** Unfolds one step of a run and of its ids. */
  lemma RunCons(step: (ClockState, Reading) -> ClockState, epoch: Ticks, w: Worker, s: ClockState, rs: seq<Reading>)
    requires rs != []
    ensures Run(step, s, rs) == [step(s, rs[0])] + Run(step, step(s, rs[0]), rs[1..])
    ensures IdsOf(epoch, w, Run(step, s, rs))
         == [IdOf(epoch, w, step(s, rs[0]))] + IdsOf(epoch, w, Run(step, step(s, rs[0]), rs[1..]))
  {
    var t := step(s, rs[0]);
    var tail := Run(step, t, rs[1..]);
    assert Run(step, s, rs) == [t] + tail;
    var ids, rest := IdsOf(epoch, w, [t] + tail), IdsOf(epoch, w, tail);
    forall i | 0 <= i < |ids| ensures ids[i] == ([IdOf(epoch, w, t)] + rest)[i] {
      if i > 0 { assert ([t] + tail)[i] == tail[i - 1]; }
    }
  }

  /** The six low-order bytes of 0x0123456789abcdef, least significant first. */
  lemma ExampleWorkerBytes(identifier: int64)
    requires identifier == 0x0123456789abcdef
    ensures WorkerFromLong(identifier) == Worker(0xEF, 0xCD, 0xAB, 0x89, 0x67, 0x45)
  {
    assert Pow256(1) == 0x100 && Pow256(2) == 0x1_0000 && Pow256(3) == 0x100_0000;
    assert Pow256(4) == 0x1_0000_0000 && Pow256(5) == 0x100_0000_0000;
    DivModUnique(identifier, 1, identifier, 0);
    DivModUnique(identifier, 0x100, 0x01_2345_6789_abcd, 0xef);
    DivModUnique(identifier, 0x1_0000, 0x0123_4567_89ab, 0xcdef);
    DivModUnique(identifier, 0x100_0000, 0x01_2345_6789, 0xab_cdef);
    DivModUnique(identifier, 0x1_0000_0000, 0x0123_4567, 0x89ab_cdef);
    DivModUnique(identifier, 0x100_0000_0000, 0x01_2345, 0x67_89ab_cdef);
    DivModUnique(identifier, 256, 0x01_2345_6789_abcd, 0xef);
    DivModUnique(0x01_2345_6789_abcd, 256, 0x0123_4567_89ab, 0xcd);
    DivModUnique(0x0123_4567_89ab, 256, 0x01_2345_6789, 0xab);
    DivModUnique(0x01_2345_6789, 256, 0x0123_4567, 0x89);
    DivModUnique(0x0123_4567, 256, 0x01_2345, 0x67);
    DivModUnique(0x01_2345, 256, 0x0123, 0x45);
  }

  /**
   * IdGuidGeneratorTest.IdentiferUsesLowOrderBytesOfInt64: with identifier
   * 0x0123456789abcdef, bytes 8 to 13 of the id (fields d to i) are
   * 45 67 89 AB CD EF.
   */
  method IdentifierUsesLowOrderBytes(reading: Reading) returns (id: Guid)
    ensures [id.d, id.e, id.f, id.g, id.h, id.i] == [0x45, 0x67, 0x89, 0xAB, 0xCD, 0xEF]
  {
    var identifier: int64 := 0x0123456789abcdef;
    var generator := new IdGuidGenerator.FromLong(identifier, 0);
    id := generator.GenerateId(reading);
    ExampleWorkerBytes(identifier);
  }
}
