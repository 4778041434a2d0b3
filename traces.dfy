/**
 * Specifications of the register-access traces the driver produces, the
 * observers that read a trace back (bytes written to one register, number of
 * reads of one register), and what those observers see in each trace.
 */
module Traces {
  import opened Registers
  import opened Mmio

  /** `n` reads of the status register. */
  function Polls(n: nat): (t: seq<Access>)
    ensures |t| == n
  {
    if n == 0 then [] else Polls(n - 1) + [Read(Spsr)]
  }

  /**
   * One byte round trip: push `b`, poll the status register until the reply
   * has landed (`latency` empty answers, then one non-empty), pop the reply.
   */
  function RoundTrip(b: bv8, latency: nat): seq<Access> {
    [Write(Fifo, b)] + Polls(latency + 1) + [Read(Fifo)]
  }

  /** Round trips for `bytes`, one after the other, in order. */
  function RoundTrips(bytes: seq<bv8>, latency: nat): seq<Access>
    decreases |bytes|
  {
    if bytes == [] then []
    else RoundTrips(bytes[..|bytes| - 1], latency) + RoundTrip(bytes[|bytes| - 1], latency)
  }

  lemma RoundTripsSnoc(bytes: seq<bv8>, b: bv8, latency: nat)
    ensures RoundTrips(bytes + [b], latency) == RoundTrips(bytes, latency) + RoundTrip(b, latency)
  {
    assert (bytes + [b])[..|bytes|] == bytes;
  }

  /** One more round trip of a prefix of `bytes`, as a loop over `bytes` takes it. */
  lemma RoundTripsPrefixStep(bytes: seq<bv8>, i: nat, latency: nat)
    requires i < |bytes|
    ensures RoundTrips(bytes[..i + 1], latency) == RoundTrips(bytes[..i], latency) + RoundTrip(bytes[i], latency)
  {
    assert bytes[..i + 1] == bytes[..i] + [bytes[i]];
    RoundTripsSnoc(bytes[..i], bytes[i], latency);
  }

  lemma RoundTripsConcat(a: seq<bv8>, b: seq<bv8>, latency: nat)
    ensures RoundTrips(a + b, latency) == RoundTrips(a, latency) + RoundTrips(b, latency)
    decreases |b|
  {
    if b != [] {
      var b' := b[..|b| - 1];
      assert (a + b)[..|a + b| - 1] == a + b';
      RoundTripsConcat(a, b', latency);
    } else {
      assert a + b == a;
    }
  }

  /** One transaction that clocks `sent` onto the bus: assert CS0, round trips, release CS0. */
  function TransactionTrace(sent: seq<bv8>, latency: nat): seq<Access> {
    [Write(SoftCs, SoftCsAssert)] + RoundTrips(sent, latency) + [Write(SoftCs, SoftCsDeassert)]
  }

  /** A transaction's trace appended to `before`, as its two phases produce it. */
  lemma TransactionSplit(before: seq<Access>, front: seq<Access>, back: seq<Access>)
    ensures before + [Write(SoftCs, SoftCsAssert)] + front + back + [Write(SoftCs, SoftCsDeassert)]
      == before + ([Write(SoftCs, SoftCsAssert)] + (front + back) + [Write(SoftCs, SoftCsDeassert)])
  {
  }

  /** Transactions one after the other. */
  function Session(sents: seq<seq<bv8>>, latency: nat): seq<Access>
    decreases |sents|
  {
    if sents == [] then []
    else Session(sents[..|sents| - 1], latency) + TransactionTrace(sents[|sents| - 1], latency)
  }

  /** The drain loop of init popping `pops` stale bytes: a status read before each pop and one after the last. */
  function DrainTrace(pops: nat): seq<Access> {
    if pops == 0 then [Read(Spsr)] else DrainTrace(pops - 1) + DrainStep()
  }

  /** One iteration of the drain loop: pop a stale byte, poll the status register again. */
  function DrainStep(): seq<Access> {
    [Read(Fifo), Read(Spsr)]
  }

  /** One more iteration of the drain loop after `pops` pops, as the loop performs it: a pop, then a poll. */
  lemma DrainTraceStep(before: seq<Access>, pops: nat)
    ensures before + DrainTrace(pops) + [Read(Fifo)] + [Read(Spsr)] == before + DrainTrace(pops + 1)
  {
    assert DrainStep() == [Read(Fifo)] + [Read(Spsr)];
  }

  /** A read-modify-write of register `off` that stores `v`. */
  function Rmw(off: nat, v: bv8): seq<Access> {
    [Read(off), Write(off, v)]
  }

  /** The register accesses of init before the drain: the read-engine check, the CS0 release, the two read-modify-writes. */
  function SetupTrace(spcr: bv8, sfcp: bv8): seq<Access> {
    [Read(Sfcp)] + [Write(SoftCs, SoftCsDeassert)]
    + Rmw(Spcr, Bits.SetBits(spcr, SpcrEnable))
    + Rmw(Sfcp, Bits.ClearBits(sfcp, SfcpMemEn))
  }

  /**
   * The register accesses of a successful init, given the old SPCR and SFCP
   * contents: the read-engine check, the CS0 release, the two
   * read-modify-writes, the drain.
   */
  function InitTrace(spcr: bv8, sfcp: bv8, pops: nat): seq<Access> {
    SetupTrace(spcr, sfcp) + DrainTrace(pops)
  }

  /** The bytes written to register `off`, in order. */
  function Written(t: seq<Access>, off: nat): seq<bv8>
    decreases |t|
  {
    if t == [] then []
    else
      Written(t[..|t| - 1], off)
      + (match t[|t| - 1]
         case Write(o, v) => if o == off then [v] else []
         case Read(_) => [])
  }

  /** The number of reads of register `off`. */
  function Reads(t: seq<Access>, off: nat): nat
    decreases |t|
  {
    if t == [] then 0
    else Reads(t[..|t| - 1], off) + (if t[|t| - 1] == Read(off) then 1 else 0)
  }

  /** The transmitter never runs ahead: at every point at most one pushed byte is not yet popped. */
  ghost predicate InLockstep(t: seq<Access>) {
    forall j :: 0 <= j <= |t| ==>
      Reads(t[..j], Fifo) <= |Written(t[..j], Fifo)| <= Reads(t[..j], Fifo) + 1
  }

  /** The i-th chip-select write alternates between assert and release, starting with assert. */
  ghost predicate Alternating(cs: seq<bv8>) {
    |cs| % 2 == 0 &&
    forall i :: 0 <= i < |cs| ==> cs[i] == if i % 2 == 0 then SoftCsAssert else SoftCsDeassert
  }

  // ---- observers distribute over concatenation ----

  lemma {:induction false} WrittenAppend(a: seq<Access>, b: seq<Access>, off: nat)
    ensures Written(a + b, off) == Written(a, off) + Written(b, off)
    decreases |b|
  {
    if b == [] {
      assert a + b == a;
    } else {
      var b' := b[..|b| - 1];
      assert (a + b)[..|a + b| - 1] == a + b';
      WrittenAppend(a, b', off);
    }
  }

  lemma {:induction false} ReadsAppend(a: seq<Access>, b: seq<Access>, off: nat)
    ensures Reads(a + b, off) == Reads(a, off) + Reads(b, off)
    decreases |b|
  {
    if b == [] {
      assert a + b == a;
    } else {
      var b' := b[..|b| - 1];
      assert (a + b)[..|a + b| - 1] == a + b';
      ReadsAppend(a, b', off);
    }
  }

  lemma SingleObserved(e: Access, off: nat)
    ensures Written([e], off) == if e.Write? && e.off == off then [e.val] else []
    ensures Reads([e], off) == if e == Read(off) then 1 else 0
  {
    assert [e][..0] == [];
  }

  lemma RmwObserved(reg: nat, v: bv8, off: nat)
    ensures Written(Rmw(reg, v), off) == if off == reg then [v] else []
    ensures Reads(Rmw(reg, v), off) == if off == reg then 1 else 0
  {
    SingleObserved(Read(reg), off);
    SingleObserved(Write(reg, v), off);
    WrittenAppend([Read(reg)], [Write(reg, v)], off);
    ReadsAppend([Read(reg)], [Write(reg, v)], off);
  }

  lemma {:induction false} PollsObserved(n: nat, off: nat)
    ensures Written(Polls(n), off) == []
    ensures Reads(Polls(n), off) == if off == Spsr then n else 0
  {
    if n > 0 {
      PollsObserved(n - 1, off);
      SingleObserved(Read(Spsr), off);
      WrittenAppend(Polls(n - 1), [Read(Spsr)], off);
      ReadsAppend(Polls(n - 1), [Read(Spsr)], off);
    }
  }

  lemma {:induction false} PollsPrefix(n: nat, k: nat)
    requires k <= n
    ensures Polls(n)[..k] == Polls(k)
  {
    if k < n {
      PollsPrefix(n - 1, k);
      assert Polls(n)[..k] == Polls(n - 1)[..k];
    }
  }

  lemma LastSplit(bytes: seq<bv8>)
    requires bytes != []
    ensures bytes[..|bytes| - 1] + [bytes[|bytes| - 1]] == bytes
  {
  }

  /** One round trip pushes its byte and writes nothing else. */
  lemma RoundTripWritten(b: bv8, latency: nat, off: nat)
    ensures Written(RoundTrip(b, latency), off) == if off == Fifo then [b] else []
  {
    var push, polls, pop := [Write(Fifo, b)], Polls(latency + 1), [Read(Fifo)];
    assert RoundTrip(b, latency) == (push + polls) + pop;
    PollsObserved(latency + 1, off);
    SingleObserved(Write(Fifo, b), off);
    SingleObserved(Read(Fifo), off);
    WrittenAppend(push, polls, off);
    WrittenAppend(push + polls, pop, off);
    assert Written(push + polls, off) == Written(push, off);
  }

  /** One round trip pops once and polls the status register `latency + 1` times. */
  lemma RoundTripReads(b: bv8, latency: nat, off: nat)
    ensures Reads(RoundTrip(b, latency), off) ==
      if off == Fifo then 1 else if off == Spsr then latency + 1 else 0
  {
    var push, polls, pop := [Write(Fifo, b)], Polls(latency + 1), [Read(Fifo)];
    assert RoundTrip(b, latency) == (push + polls) + pop;
    PollsObserved(latency + 1, off);
    SingleObserved(Write(Fifo, b), off);
    SingleObserved(Read(Fifo), off);
    ReadsAppend(push, polls, off);
    ReadsAppend(push + polls, pop, off);
  }

  /** Round trips push exactly `bytes`, in order, and write no other register. */
  lemma {:induction false} RoundTripsWritten(bytes: seq<bv8>, latency: nat, off: nat)
    ensures Written(RoundTrips(bytes, latency), off) == if off == Fifo then bytes else []
    decreases |bytes|
  {
    if bytes != [] {
      var init, last := bytes[..|bytes| - 1], bytes[|bytes| - 1];
      var front, back := RoundTrips(init, latency), RoundTrip(last, latency);
      assert RoundTrips(bytes, latency) == front + back;
      RoundTripsWritten(init, latency, off);
      RoundTripWritten(last, latency, off);
      WrittenAppend(front, back, off);
      LastSplit(bytes);
    }
  }

  /** Round trips pop once per byte and read no register other than the FIFO and the status. */
  lemma {:induction false} RoundTripsPops(bytes: seq<bv8>, latency: nat, off: nat)
    requires off != Spsr
    ensures Reads(RoundTrips(bytes, latency), off) == if off == Fifo then |bytes| else 0
    decreases |bytes|
  {
    if bytes != [] {
      var init, last := bytes[..|bytes| - 1], bytes[|bytes| - 1];
      var front, back := RoundTrips(init, latency), RoundTrip(last, latency);
      assert RoundTrips(bytes, latency) == front + back;
      RoundTripsPops(init, latency, off);
      RoundTripReads(last, latency, off);
      ReadsAppend(front, back, off);
    }
  }

  /** A proper non-empty prefix of a round trip: the push and the first polls. */
  lemma RoundTripTake(b: bv8, latency: nat, m: nat)
    requires 1 <= m <= latency + 2
    ensures RoundTrip(b, latency)[..m] == [Write(Fifo, b)] + Polls(m - 1)
  {
    var push, polls, pop := [Write(Fifo, b)], Polls(latency + 1), [Read(Fifo)];
    PollsPrefix(latency + 1, m - 1);
    assert (push + polls + pop)[..m] == push + polls[..m - 1];
  }

  /** Within one round trip the push comes first: every non-empty prefix holds it. */
  lemma RoundTripPrefixPushes(b: bv8, latency: nat, m: nat)
    requires m <= latency + 3
    ensures |Written(RoundTrip(b, latency)[..m], Fifo)| == if m == 0 then 0 else 1
  {
    var t := RoundTrip(b, latency);
    if m == 0 {
      assert t[..m] == [];
    } else if m == latency + 3 {
      assert t[..m] == t;
      RoundTripWritten(b, latency, Fifo);
    } else {
      RoundTripTake(b, latency, m);
      PollsObserved(m - 1, Fifo);
      SingleObserved(Write(Fifo, b), Fifo);
      WrittenAppend([Write(Fifo, b)], Polls(m - 1), Fifo);
    }
  }

  /** Within one round trip the pop comes last: only the whole round trip holds it. */
  lemma RoundTripPrefixPops(b: bv8, latency: nat, m: nat)
    requires m <= latency + 3
    ensures Reads(RoundTrip(b, latency)[..m], Fifo) == if m == latency + 3 then 1 else 0
  {
    var t := RoundTrip(b, latency);
    if m == 0 {
      assert t[..m] == [];
    } else if m == latency + 3 {
      assert t[..m] == t;
      RoundTripReads(b, latency, Fifo);
    } else {
      RoundTripTake(b, latency, m);
      PollsObserved(m - 1, Fifo);
      SingleObserved(Write(Fifo, b), Fifo);
      ReadsAppend([Write(Fifo, b)], Polls(m - 1), Fifo);
    }
  }

  /** Round trips never pipeline: each byte is popped before the next is pushed. */
  lemma {:induction false} RoundTripsInLockstep(bytes: seq<bv8>, latency: nat)
    ensures InLockstep(RoundTrips(bytes, latency))
    decreases |bytes|
  {
    var t := RoundTrips(bytes, latency);
    if bytes == [] {
      forall j | 0 <= j <= |t|
        ensures Reads(t[..j], Fifo) <= |Written(t[..j], Fifo)| <= Reads(t[..j], Fifo) + 1
      {
        assert t[..j] == [];
      }
    } else {
      var init, last := bytes[..|bytes| - 1], bytes[|bytes| - 1];
      var a, b := RoundTrips(init, latency), RoundTrip(last, latency);
      assert t == a + b;
      assert |b| == latency + 3;
      RoundTripsInLockstep(init, latency);
      RoundTripsWritten(init, latency, Fifo);
      RoundTripsPops(init, latency, Fifo);
      forall j | 0 <= j <= |t|
        ensures Reads(t[..j], Fifo) <= |Written(t[..j], Fifo)| <= Reads(t[..j], Fifo) + 1
      {
        if j <= |a| {
          assert t[..j] == a[..j];
        } else {
          var m := j - |a|;
          assert t[..j] == a + b[..m];
          WrittenAppend(a, b[..m], Fifo);
          ReadsAppend(a, b[..m], Fifo);
          RoundTripPrefixPushes(last, latency, m);
          RoundTripPrefixPops(last, latency, m);
        }
      }
    }
  }

  /** A transaction writes chip-select twice (assert, release), pushes exactly `sent`, and writes nothing else. */
  lemma TransactionWrittenAt(sent: seq<bv8>, latency: nat, off: nat)
    ensures Written(TransactionTrace(sent, latency), off) ==
      if off == SoftCs then [SoftCsAssert, SoftCsDeassert] else if off == Fifo then sent else []
  {
    var pre, mid, post := [Write(SoftCs, SoftCsAssert)], RoundTrips(sent, latency), [Write(SoftCs, SoftCsDeassert)];
    WrittenAppend(pre, mid, off);
    WrittenAppend(pre + mid, post, off);
    SingleObserved(pre[0], off);
    SingleObserved(post[0], off);
    RoundTripsWritten(sent, latency, off);
  }

  /** A transaction pops once per pushed byte. */
  lemma TransactionPopsAt(sent: seq<bv8>, latency: nat, off: nat)
    requires off != Spsr
    ensures Reads(TransactionTrace(sent, latency), off) == if off == Fifo then |sent| else 0
  {
    var pre, mid, post := [Write(SoftCs, SoftCsAssert)], RoundTrips(sent, latency), [Write(SoftCs, SoftCsDeassert)];
    ReadsAppend(pre, mid, off);
    ReadsAppend(pre + mid, post, off);
    SingleObserved(pre[0], off);
    SingleObserved(post[0], off);
    RoundTripsPops(sent, latency, off);
  }

  /**
   * What one transaction does to the registers: it starts by asserting CS0
   * and ends by releasing it, writes chip-select exactly those two times,
   * pushes exactly `sent` in order, pops once per pushed byte, and writes no
   * other register.
   */
  lemma TransactionObserved(sent: seq<bv8>, latency: nat)
    ensures var t := TransactionTrace(sent, latency);
      && t[0] == Write(SoftCs, SoftCsAssert)
      && t[|t| - 1] == Write(SoftCs, SoftCsDeassert)
      && Written(t, SoftCs) == [SoftCsAssert, SoftCsDeassert]
      && Written(t, Fifo) == sent
      && Reads(t, Fifo) == |sent|
      && Written(t, Spcr) == [] && Written(t, Sfcp) == []
  {
    TransactionWrittenAt(sent, latency, SoftCs);
    TransactionWrittenAt(sent, latency, Fifo);
    TransactionWrittenAt(sent, latency, Spcr);
    TransactionWrittenAt(sent, latency, Sfcp);
    TransactionPopsAt(sent, latency, Fifo);
  }

  /** A transaction never pipelines: each pushed byte is popped before the next push. */
  lemma TransactionInLockstep(sent: seq<bv8>, latency: nat)
    ensures InLockstep(TransactionTrace(sent, latency))
  {
    var pre, mid, post := [Write(SoftCs, SoftCsAssert)], RoundTrips(sent, latency), [Write(SoftCs, SoftCsDeassert)];
    var t := TransactionTrace(sent, latency);
    RoundTripsInLockstep(sent, latency);
    SingleObserved(pre[0], Fifo);
    SingleObserved(post[0], Fifo);
    forall j | 0 <= j <= |t|
      ensures Reads(t[..j], Fifo) <= |Written(t[..j], Fifo)| <= Reads(t[..j], Fifo) + 1
    {
      if j == 0 {
        assert t[..j] == [];
      } else if j <= |mid| + 1 {
        assert t[..j] == pre + mid[..j - 1];
        WrittenAppend(pre, mid[..j - 1], Fifo);
        ReadsAppend(pre, mid[..j - 1], Fifo);
      } else {
        assert t[..j] == (pre + mid) + post;
        RoundTripsWritten(sent, latency, Fifo);
        RoundTripsPops(sent, latency, Fifo);
        WrittenAppend(pre, mid, Fifo);
        ReadsAppend(pre, mid, Fifo);
        WrittenAppend(pre + mid, post, Fifo);
        ReadsAppend(pre + mid, post, Fifo);
      }
    }
  }

  lemma AlternatingSnoc(c: seq<bv8>)
    requires Alternating(c)
    ensures Alternating(c + [SoftCsAssert, SoftCsDeassert])
  {
    var c' := c + [SoftCsAssert, SoftCsDeassert];
    forall i | 0 <= i < |c'|
      ensures c'[i] == if i % 2 == 0 then SoftCsAssert else SoftCsDeassert
    {
      if i < |c| {
        assert c'[i] == c[i];
      }
    }
  }

  /**
   * Back-to-back transactions write chip-select strictly alternately: CS0 is
   * never asserted twice without a release in between, and every
   * transaction ends released.
   */
  lemma {:induction false} SessionAlternates(sents: seq<seq<bv8>>, latency: nat)
    ensures |Written(Session(sents, latency), SoftCs)| == 2 * |sents|
    ensures Alternating(Written(Session(sents, latency), SoftCs))
    decreases |sents|
  {
    if sents != [] {
      var init, last := sents[..|sents| - 1], sents[|sents| - 1];
      SessionAlternates(init, latency);
      TransactionWrittenAt(last, latency, SoftCs);
      WrittenAppend(Session(init, latency), TransactionTrace(last, latency), SoftCs);
      AlternatingSnoc(Written(Session(init, latency), SoftCs));
    }
  }

  lemma DrainStepObserved(off: nat)
    ensures Written(DrainStep(), off) == []
    ensures Reads(DrainStep(), off) == if off == Fifo || off == Spsr then 1 else 0
  {
    SingleObserved(Read(Fifo), off);
    SingleObserved(Read(Spsr), off);
    assert DrainStep() == [Read(Fifo)] + [Read(Spsr)];
    WrittenAppend([Read(Fifo)], [Read(Spsr)], off);
    ReadsAppend([Read(Fifo)], [Read(Spsr)], off);
  }

  /** The drain writes no register. */
  lemma {:induction false} DrainWritten(pops: nat, off: nat)
    ensures Written(DrainTrace(pops), off) == []
  {
    SingleObserved(Read(Spsr), off);
    if pops > 0 {
      DrainWritten(pops - 1, off);
      DrainStepObserved(off);
      WrittenAppend(DrainTrace(pops - 1), DrainStep(), off);
    }
  }

  /** Draining `pops` stale bytes pops exactly that many and polls once more than that. */
  lemma {:induction false} DrainReads(pops: nat, off: nat)
    ensures Reads(DrainTrace(pops), off) ==
      if off == Fifo then pops else if off == Spsr then pops + 1 else 0
  {
    SingleObserved(Read(Spsr), off);
    if pops > 0 {
      DrainReads(pops - 1, off);
      DrainStepObserved(off);
      ReadsAppend(DrainTrace(pops - 1), DrainStep(), off);
    }
  }

  lemma SetupWrittenAt(spcr: bv8, sfcp: bv8, off: nat)
    ensures Written(SetupTrace(spcr, sfcp), off) ==
      (if off == SoftCs then [SoftCsDeassert] else [])
      + (if off == Spcr then [Bits.SetBits(spcr, SpcrEnable)] else [])
      + (if off == Sfcp then [Bits.ClearBits(sfcp, SfcpMemEn)] else [])
  {
    var v1, v2 := Bits.SetBits(spcr, SpcrEnable), Bits.ClearBits(sfcp, SfcpMemEn);
    var check, release := [Read(Sfcp)], [Write(SoftCs, SoftCsDeassert)];
    var a := check + release;
    var b := a + Rmw(Spcr, v1);
    SingleObserved(check[0], off);
    SingleObserved(release[0], off);
    RmwObserved(Spcr, v1, off);
    RmwObserved(Sfcp, v2, off);
    WrittenAppend(check, release, off);
    WrittenAppend(a, Rmw(Spcr, v1), off);
    WrittenAppend(b, Rmw(Sfcp, v2), off);
  }

  lemma SetupPops(spcr: bv8, sfcp: bv8)
    ensures Reads(SetupTrace(spcr, sfcp), Fifo) == 0
  {
    var v1, v2 := Bits.SetBits(spcr, SpcrEnable), Bits.ClearBits(sfcp, SfcpMemEn);
    var check, release := [Read(Sfcp)], [Write(SoftCs, SoftCsDeassert)];
    var a := check + release;
    var b := a + Rmw(Spcr, v1);
    SingleObserved(check[0], Fifo);
    SingleObserved(release[0], Fifo);
    RmwObserved(Spcr, v1, Fifo);
    RmwObserved(Sfcp, v2, Fifo);
    ReadsAppend(check, release, Fifo);
    ReadsAppend(a, Rmw(Spcr, v1), Fifo);
    ReadsAppend(b, Rmw(Sfcp, v2), Fifo);
  }

  /**
   * Init releases CS0 once, writes SPCR and SFCP once each with their
   * updated values, and writes no other register: in particular it pushes
   * nothing onto the bus.
   */
  lemma InitWrittenAt(spcr: bv8, sfcp: bv8, pops: nat, off: nat)
    ensures Written(InitTrace(spcr, sfcp, pops), off) ==
      (if off == SoftCs then [SoftCsDeassert] else [])
      + (if off == Spcr then [Bits.SetBits(spcr, SpcrEnable)] else [])
      + (if off == Sfcp then [Bits.ClearBits(sfcp, SfcpMemEn)] else [])
  {
    SetupWrittenAt(spcr, sfcp, off);
    DrainWritten(pops, off);
    WrittenAppend(SetupTrace(spcr, sfcp), DrainTrace(pops), off);
  }

  /** Init pops exactly the stale bytes. */
  lemma InitPops(spcr: bv8, sfcp: bv8, pops: nat)
    ensures Reads(InitTrace(spcr, sfcp, pops), Fifo) == pops
  {
    SetupPops(spcr, sfcp);
    DrainReads(pops, Fifo);
    ReadsAppend(SetupTrace(spcr, sfcp), DrainTrace(pops), Fifo);
  }
}
