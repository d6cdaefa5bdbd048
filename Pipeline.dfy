/**
 * The controller loop of `main` in cnn_mnist.c as a pure state machine:
 * one call of `Next` is one pass of the `while (true)` poll loop, and
 * `Run` is a sequence of passes. The class in Firmware.dfy is proved to
 * follow `Next` exactly, so everything proved here about `Next` and `Run`
 * holds of it.
 */
module Pipeline {
  import opened Types
  import opened Quantize
  import opened Selector

  /** What the device makes visible: serial lines, display screens and engine calls. */
  datatype Event =
    | Serial(line: string)          // one `printf` line, without its newline
    | Screen(text: seq<string>)     // display cleared, these strings drawn, frame sent
    | Dot(x: int)                   // a progress '.' drawn at (x, 50) and sent
    | Invoked(input: seq<i8>)       // `tflm_invoke` called on this input tensor
    | ShowPrediction(digit: int)    // "PREDICAO:", the digit at (60, 25) and a border, sent

  /**
   * What the engine answers if it is invoked: the status `tflm_invoke`
   * returns (0 is success) and what it leaves in its output tensor.
   */
  datatype Reply = Reply(status: int, scores: seq<i8>)

  /** One pass of the poll loop: the outcome of the read, and the engine's answer should it be invoked. */
  datatype Tick = Tick(read: Option<byte>, reply: Reply)

  /**
   * The controller's state: whether it is parked after a failed
   * `tflm_init`, `buffer_index`, `raw_buffer`, the engine's input and
   * output tensors, and everything made visible so far.
   */
  datatype Ctl = Ctl(halted: bool, index: int, raw: seq<byte>, tensor: seq<i8>, scores: seq<i8>, trace: seq<Event>)
  {
    predicate Inv() {
      && |raw| == ImageSize && |tensor| == ImageSize && |scores| >= NumClasses
      && 0 <= index < ImageSize
      && (halted ==> index == 0)
    }
  }

  function DigitChar(d: int): char
    requires 0 <= d <= 9
  {
    ('0' as int + d) as char
  }

  /** A serial line read back as a report `Predito: <digit>`, if it is one. */
  function ParseReport(line: string): (r: Option<int>)
    ensures r.Some? ==> 0 <= r.value <= 9 && |line| == 10
  {
    if |line| == 10 && line[..9] == "Predito: " && '0' <= line[9] <= '9'
    then Some(line[9] as int - '0' as int)
    else None
  }

  /** The line `printf("Predito: %d\n", pred)` sends for a one-digit class. */
  function ReportLine(pred: int): (line: string)
    requires 0 <= pred <= 9
    ensures ParseReport(line) == Some(pred)
  {
    "Predito: " + [DigitChar(pred)]
  }

  /** Number of engine invocations recorded in a trace. */
  function Invocations(trace: seq<Event>): nat {
    if trace == [] then 0
    else Invocations(trace[..|trace| - 1]) + (if trace[|trace| - 1].Invoked? then 1 else 0)
  }

  /** The state after `main`'s set-up, for the status `tflm_init` returned. */
  function Start(initStatus: int, raw: seq<byte>, tensor: seq<i8>, scores: seq<i8>): (s: Ctl)
    requires |raw| == ImageSize && |tensor| == ImageSize && |scores| >= NumClasses
    ensures s.Inv() && s.index == 0
    ensures s.halted <==> initStatus != 0
    ensures forall e :: e in s.trace ==> !e.Invoked? && !e.Dot?
    ensures initStatus != 0 ==> Serial("Erro tflm_init") in s.trace && Screen(["ERRO TFLM"]) in s.trace
  {
    var banner := [Screen(["INICIANDO..."])];
    if initStatus != 0 then
      Ctl(true, 0, raw, tensor, scores, banner + [Serial("Erro tflm_init"), Screen(["ERRO TFLM"])])
    else
      Ctl(false, 0, raw, tensor, scores, banner + [Screen(["AGUARDANDO", "DADOS PC..."]), Serial("Aguardando dados...")])
  }

  /** The progress dot drawn once `buffer_index` has been advanced to `k`. */
  function Progress(k: int): seq<Event> {
    if k % 100 == 0 then [Dot((k / 100) * 8)] else []
  }

  /** What is shown after `tflm_invoke` returns. */
  function Outcome(reply: Reply): seq<Event>
    requires |reply.scores| >= NumClasses
  {
    if reply.status == 0 then
      var pred := ArgMax(reply.scores[..NumClasses]);
      [Serial(ReportLine(pred)), ShowPrediction(pred)]
    else
      [Serial("Erro IA"), Screen(["ERRO IA"])]
  }

  /**
   * A prediction is shown and a report line sent exactly when the engine
   * succeeded, and it names the lowest-index maximal score among the ten.
   */
  lemma OutcomeReports(reply: Reply)
    requires |reply.scores| >= NumClasses
    ensures (exists e :: e in Outcome(reply) && e.ShowPrediction?) <==> reply.status == 0
    ensures forall e :: e in Outcome(reply) && e.ShowPrediction? ==>
              e.digit == ArgMax(reply.scores[..NumClasses]) && 0 <= e.digit <= 9
    ensures forall e :: e in Outcome(reply) && e.Serial? && ParseReport(e.line).Some? ==>
              reply.status == 0 && ParseReport(e.line) == Some(ArgMax(reply.scores[..NumClasses]))
    ensures reply.status == 0 ==> Serial(ReportLine(ArgMax(reply.scores[..NumClasses]))) in Outcome(reply)
    ensures forall e :: e in Outcome(reply) ==> !e.Invoked?
    ensures reply.status != 0 ==> Serial("Erro IA") in Outcome(reply) && Screen(["ERRO IA"]) in Outcome(reply)
  {
    if reply.status == 0 {
      assert Outcome(reply)[1].ShowPrediction?;
    }
  }

  /** Everything shown once a frame is complete, given the quantized input `t`. */
  function CycleEvents(t: seq<i8>, reply: Reply): seq<Event>
    requires |reply.scores| >= NumClasses
  {
    [Serial("Recebido. Processando..."), Screen(["PROCESSANDO"]), Invoked(t)] + Outcome(reply)
  }

  /**
   * One pass of the poll loop. A parked controller never reads; a timed-out
   * read changes nothing; otherwise the byte is stored at `buffer_index`,
   * the index advanced, a dot drawn on multiples of 100, and when the index
   * reaches `IMAGE_SIZE` the frame is quantized, the engine invoked, its
   * answer reported and the index reset.
   */
  function Next(p: Params, s: Ctl, read: Option<byte>, reply: Reply): (r: Ctl)
    requires s.Inv() && |reply.scores| == |s.scores|
    ensures r.Inv() && r.halted == s.halted && |r.scores| == |s.scores|
    ensures s.halted || read.None? ==> r == s
    ensures !s.halted && read.Some? ==> r.raw == s.raw[s.index := read.value]
  {
    if s.halted || read.None? then s
    else if s.index + 1 >= ImageSize then Complete(p, s, read.value, reply)
    else Collect(s, read.value)
  }

  /** A byte that does not complete the frame: stored, index advanced, maybe a dot. */
  function Collect(s: Ctl, b: byte): Ctl
    requires s.Inv()
  {
    s.(index := s.index + 1, raw := s.raw[s.index := b], trace := s.trace + Progress(s.index + 1))
  }

  /** The byte that completes the frame: stored, frame quantized, engine invoked, answer shown, index reset. */
  function Complete(p: Params, s: Ctl, b: byte, reply: Reply): Ctl
    requires s.Inv() && |reply.scores| == |s.scores|
  {
    var raw := s.raw[s.index := b];
    var t := QuantizeFrame(p, raw);
    Ctl(false, 0, raw, t, reply.scores, s.trace + Progress(s.index + 1) + CycleEvents(t, reply))
  }

  /** Every engine answer in `ticks` fills the output tensor exactly. */
  predicate Fits(s: Ctl, ticks: seq<Tick>) {
    forall i :: 0 <= i < |ticks| ==> |ticks[i].reply.scores| == |s.scores|
  }

  /** The state after the passes `ticks`, in order. */
  function Run(p: Params, s: Ctl, ticks: seq<Tick>): (r: Ctl)
    requires s.Inv() && Fits(s, ticks)
    ensures r.Inv() && r.halted == s.halted && |r.scores| == |s.scores|
    decreases |ticks|
  {
    if ticks == [] then s
    else
      var last := ticks[|ticks| - 1];
      Next(p, Run(p, s, ticks[..|ticks| - 1]), last.read, last.reply)
  }

  /** Number of passes whose read delivered a byte. */
  function Accepted(ticks: seq<Tick>): nat {
    if ticks == [] then 0
    else Accepted(ticks[..|ticks| - 1]) + (if ticks[|ticks| - 1].read.Some? then 1 else 0)
  }

  /** The passes whose read delivered a byte, in order. */
  function WithoutTimeouts(ticks: seq<Tick>): (r: seq<Tick>)
    ensures forall i :: 0 <= i < |r| ==> r[i] in ticks && r[i].read.Some?
    ensures |r| == Accepted(ticks)
  {
    if ticks == [] then []
    else
      var rest := WithoutTimeouts(ticks[..|ticks| - 1]);
      if ticks[|ticks| - 1].read.Some? then rest + [ticks[|ticks| - 1]] else rest
  }

  /** The progress dots drawn while the first `k` bytes of a frame arrive. */
  function DotsUpTo(k: nat): seq<Event> {
    seq(k / 100, j => Dot((j + 1) * 8))
  }

  // ---------------------------------------------------------------------
  // Lemmas
  // ---------------------------------------------------------------------

  lemma {:induction false} InvocationsAppend(a: seq<Event>, b: seq<Event>)
    ensures Invocations(a + b) == Invocations(a) + Invocations(b)
    decreases |b|
  {
    if b == [] {
      assert a + b == a;
    } else {
      assert (a + b)[..|a + b| - 1] == a + b[..|b| - 1];
      InvocationsAppend(a, b[..|b| - 1]);
    }
  }

  lemma {:induction false} NoInvocations(trace: seq<Event>)
    requires forall e :: e in trace ==> !e.Invoked?
    ensures Invocations(trace) == 0
    decreases |trace|
  {
    if trace != [] {
      assert trace[|trace| - 1] in trace;
      NoInvocations(trace[..|trace| - 1]);
    }
  }

  /** A completed frame invokes the engine exactly once. */
  lemma CycleInvokesOnce(t: seq<i8>, reply: Reply)
    requires |reply.scores| >= NumClasses
    ensures Invocations(CycleEvents(t, reply)) == 1
  {
    var head := [Serial("Recebido. Processando..."), Screen(["PROCESSANDO"]), Invoked(t)];
    InvocationsAppend(head, Outcome(reply));
    OutcomeReports(reply);
    NoInvocations(Outcome(reply));
    assert head[..2] == [Serial("Recebido. Processando..."), Screen(["PROCESSANDO"])];
    NoInvocations(head[..2]);
  }

  /** Once parked after a failed `tflm_init`, no pass changes anything. */
  lemma {:induction false} RunHalted(p: Params, s: Ctl, ticks: seq<Tick>)
    requires s.Inv() && Fits(s, ticks) && s.halted
    ensures Run(p, s, ticks) == s
    decreases |ticks|
  {
    if ticks != [] {
      RunHalted(p, s, ticks[..|ticks| - 1]);
    }
  }

  /** A failed `tflm_init` is final: no byte is ever read and the engine is never invoked. */
  lemma InitFailureIsFinal(p: Params, initStatus: int, raw: seq<byte>, tensor: seq<i8>, scores: seq<i8>, ticks: seq<Tick>)
    requires initStatus != 0
    requires |raw| == ImageSize && |tensor| == ImageSize && |scores| >= NumClasses
    requires Fits(Start(initStatus, raw, tensor, scores), ticks)
    ensures Run(p, Start(initStatus, raw, tensor, scores), ticks) == Start(initStatus, raw, tensor, scores)
    ensures Invocations(Run(p, Start(initStatus, raw, tensor, scores), ticks).trace) == 0
  {
    var s := Start(initStatus, raw, tensor, scores);
    RunHalted(p, s, ticks);
    NoInvocations(s.trace);
  }

  /** Timed-out reads leave no mark: running with them is running without them. */
  lemma {:induction false} RunSkipsTimeouts(p: Params, s: Ctl, ticks: seq<Tick>)
    requires s.Inv() && Fits(s, ticks)
    ensures Fits(s, WithoutTimeouts(ticks))
    ensures Run(p, s, ticks) == Run(p, s, WithoutTimeouts(ticks))
    decreases |ticks|
  {
    if ticks != [] {
      var pre, last := ticks[..|ticks| - 1], ticks[|ticks| - 1];
      assert forall t :: t in pre ==> t in ticks;
      RunSkipsTimeouts(p, s, pre);
      var kept := WithoutTimeouts(pre);
      if last.read.Some? {
        assert (kept + [last])[..|kept + [last]| - 1] == kept;
      }
    }
  }

  lemma StepDivMod(n: nat)
    ensures (n % ImageSize + 1) % ImageSize == (n + 1) % ImageSize
    ensures n / ImageSize + (n % ImageSize + 1) / ImageSize == (n + 1) / ImageSize
  {
    if n % ImageSize + 1 == ImageSize {
      assert n + 1 == (n / ImageSize + 1) * ImageSize;
    } else {
      assert n + 1 == (n / ImageSize) * ImageSize + (n % ImageSize + 1);
    }
  }

  /** One pass advances the index modulo 784 and invokes the engine exactly when it wraps. */
  lemma NextCounts(p: Params, s: Ctl, read: Option<byte>, reply: Reply)
    requires s.Inv() && |reply.scores| == |s.scores| && !s.halted && read.Some?
    ensures Next(p, s, read, reply).index == (s.index + 1) % ImageSize
    ensures Invocations(Next(p, s, read, reply).trace) == Invocations(s.trace) + (s.index + 1) / ImageSize
  {
    var k := s.index + 1;
    InvocationsAppend(s.trace, Progress(k));
    NoInvocations(Progress(k));
    if k >= ImageSize {
      assert k == ImageSize;
      var t := QuantizeFrame(p, s.raw[s.index := read.value]);
      assert Next(p, s, read, reply).trace == s.trace + Progress(k) + CycleEvents(t, reply);
      InvocationsAppend(s.trace + Progress(k), CycleEvents(t, reply));
      CycleInvokesOnce(t, reply);
    } else {
      assert Next(p, s, read, reply) == Collect(s, read.value);
    }
  }

  /**
   * Exactly every `IMAGE_SIZE`-th accepted byte completes a frame: after
   * any passes, the index is the count of accepted bytes modulo 784 and the
   * engine has been invoked once per completed frame.
   */
  lemma {:induction false} RunCounts(p: Params, s: Ctl, ticks: seq<Tick>)
    requires s.Inv() && Fits(s, ticks) && !s.halted
    ensures Run(p, s, ticks).index == (s.index + Accepted(ticks)) % ImageSize
    ensures Invocations(Run(p, s, ticks).trace) == Invocations(s.trace) + (s.index + Accepted(ticks)) / ImageSize
    decreases |ticks|
  {
    if ticks != [] {
      var pre, last := ticks[..|ticks| - 1], ticks[|ticks| - 1];
      RunLast(p, s, ticks);
      RunCounts(p, s, pre);
      var r0 := Run(p, s, pre);
      var n := s.index + Accepted(pre);
      assert last in ticks;
      if last.read.Some? {
        assert Accepted(ticks) == Accepted(pre) + 1;
        NextCounts(p, r0, last.read, last.reply);
        StepDivMod(n);
      } else {
        assert Accepted(ticks) == Accepted(pre);
      }
    }
  }

  /** A pass that accepts a byte without completing the frame only stores it, advances the index and maybe draws a dot. */
  lemma NextCollecting(p: Params, s: Ctl, b: byte, reply: Reply)
    requires s.Inv() && |reply.scores| == |s.scores| && !s.halted && s.index + 1 < ImageSize
    ensures Next(p, s, Some(b), reply) == Collect(s, b)
  {
  }

  /**
   * The pass that accepts the last byte of a frame completes it: the byte
   * is stored, every cell of the input tensor is quantized from the full
   * buffer, the engine is called once, its answer is shown last, and the
   * index is back at 0.
   */
  lemma NextCompleting(p: Params, s: Ctl, b: byte, reply: Reply)
    requires s.Inv() && |reply.scores| == |s.scores| && !s.halted && s.index + 1 == ImageSize
    ensures Next(p, s, Some(b), reply) == Complete(p, s, b, reply)
    ensures Next(p, s, Some(b), reply).index == 0
    ensures Next(p, s, Some(b), reply).raw == s.raw[s.index := b]
    ensures Next(p, s, Some(b), reply).tensor == QuantizeFrame(p, s.raw[s.index := b])
    ensures Next(p, s, Some(b), reply).scores == reply.scores
    ensures Invocations(Next(p, s, Some(b), reply).trace) == Invocations(s.trace) + 1
    ensures |Next(p, s, Some(b), reply).trace| >= |s.trace| + |Outcome(reply)|
    ensures Next(p, s, Some(b), reply).trace[..|s.trace|] == s.trace
    ensures Next(p, s, Some(b), reply).trace[|Next(p, s, Some(b), reply).trace| - |Outcome(reply)|..] == Outcome(reply)
  {
    var t := QuantizeFrame(p, s.raw[s.index := b]);
    var r := Complete(p, s, b, reply);
    assert Progress(ImageSize) == [];
    assert r.trace == s.trace + CycleEvents(t, reply);
    InvocationsAppend(s.trace, CycleEvents(t, reply));
    CycleInvokesOnce(t, reply);
  }

  lemma RunLast(p: Params, s: Ctl, ticks: seq<Tick>)
    requires s.Inv() && Fits(s, ticks) && ticks != []
    ensures Fits(s, ticks[..|ticks| - 1])
    ensures Run(p, s, ticks) == Next(p, Run(p, s, ticks[..|ticks| - 1]), ticks[|ticks| - 1].read, ticks[|ticks| - 1].reply)
  {
  }

  lemma DotsStep(k: nat)
    ensures DotsUpTo(k) + Progress(k + 1) == DotsUpTo(k + 1)
  {
    if (k + 1) % 100 == 0 {
      assert (k + 1) / 100 == k / 100 + 1;
      assert DotsUpTo(k + 1) == DotsUpTo(k) + [Dot((k / 100 + 1) * 8)];
    } else {
      assert (k + 1) / 100 == k / 100;
    }
  }

  /** Every pass of `ticks` delivers the matching byte of `bytes`, without a timeout. */
  predicate Delivers(ticks: seq<Tick>, bytes: seq<byte>) {
    |ticks| == |bytes| && forall i :: 0 <= i < |ticks| ==> ticks[i].read == Some(bytes[i])
  }

  /** The state once the bytes `got` have been collected into an empty buffer. */
  function Collected(s: Ctl, got: seq<byte>): Ctl
    requires |got| <= |s.raw|
  {
    s.(index := |got|, raw := got + s.raw[|got|..], trace := s.trace + DotsUpTo(|got|))
  }

  lemma CollectStep(s: Ctl, bytes: seq<byte>, k: nat)
    requires k < |bytes| && k < |s.raw|
    ensures (bytes[..k] + s.raw[k..])[k := bytes[k]] == bytes[..k + 1] + s.raw[k + 1..]
    ensures s.trace + DotsUpTo(k) + Progress(k + 1) == s.trace + DotsUpTo(k + 1)
  {
    DotsStep(k);
  }

  /**
   * While a frame is being collected from an empty buffer, byte j lands in
   * cell j, later cells and both tensors are untouched, and a dot is drawn
   * for every hundredth byte.
   */
  lemma {:induction false} CollectingPrefix(p: Params, s: Ctl, ticks: seq<Tick>, bytes: seq<byte>, k: nat)
    requires s.Inv() && Fits(s, ticks) && !s.halted && s.index == 0
    requires Delivers(ticks, bytes)
    requires k <= |ticks| && k < ImageSize
    ensures Fits(s, ticks[..k])
    ensures Run(p, s, ticks[..k]) == Collected(s, bytes[..k])
    decreases k
  {
    if k == 0 {
      assert ticks[..0] == [];
      assert s.raw[0..] == s.raw;
      assert DotsUpTo(0) == [];
    } else {
      CollectingPrefix(p, s, ticks, bytes, k - 1);
      assert ticks[..k][..k - 1] == ticks[..k - 1];
      RunLast(p, s, ticks[..k]);
      var r0 := Run(p, s, ticks[..k - 1]);
      assert ticks[..k][k - 1] == ticks[k - 1];
      NextCollecting(p, r0, bytes[k - 1], ticks[k - 1].reply);
      CollectStep(s, bytes, k - 1);
      assert bytes[..k - 1 + 1] == bytes[..k];
    }
  }

  /** The seven dots a frame draws, at x = 8, 16, ..., 56. */
  function FrameDots(): seq<Event> {
    [Dot(8), Dot(16), Dot(24), Dot(32), Dot(40), Dot(48), Dot(56)]
  }

  /**
   * One whole frame from an empty buffer: 784 accepted bytes fill the raw
   * buffer in order, draw the seven dots, quantize every cell of the input
   * tensor from those bytes, invoke the engine once on it, report its
   * answer and leave the index at 0, whether the engine succeeded or not.
   */
  lemma FrameCycle(p: Params, s: Ctl, ticks: seq<Tick>, bytes: seq<byte>)
    requires s.Inv() && Fits(s, ticks) && !s.halted && s.index == 0
    requires |ticks| == ImageSize && Delivers(ticks, bytes)
    ensures Run(p, s, ticks) ==
              Ctl(false, 0, bytes, QuantizeFrame(p, bytes), ticks[ImageSize - 1].reply.scores,
                  s.trace + FrameDots() + CycleEvents(QuantizeFrame(p, bytes), ticks[ImageSize - 1].reply))
  {
    var last := ImageSize - 1;
    CollectingPrefix(p, s, ticks, bytes, last);
    RunLast(p, s, ticks);
    assert ticks[..last] == ticks[..|ticks| - 1];
    var r0 := Collected(s, bytes[..last]);
    assert Run(p, s, ticks) == Next(p, r0, ticks[last].read, ticks[last].reply);
    NextCompleting(p, r0, bytes[last], ticks[last].reply);
    CollectStep(s, bytes, last);
    FullFrame(s, bytes);
  }

  lemma FullFrame(s: Ctl, bytes: seq<byte>)
    requires |bytes| == ImageSize && |s.raw| == ImageSize
    ensures bytes[..ImageSize] + s.raw[ImageSize..] == bytes
    ensures DotsUpTo(ImageSize - 1) + Progress(ImageSize) == FrameDots()
  {
    assert DotsUpTo(ImageSize - 1) == FrameDots();
  }

  /** Running two stretches of passes is running the second from where the first ends. */
  lemma {:induction false} RunAppend(p: Params, s: Ctl, a: seq<Tick>, b: seq<Tick>)
    requires s.Inv() && Fits(s, a + b)
    ensures Fits(s, a) && Fits(Run(p, s, a), b)
    ensures Run(p, s, a + b) == Run(p, Run(p, s, a), b)
    decreases |b|
  {
    assert forall i :: 0 <= i < |a| ==> (a + b)[i] == a[i];
    assert forall i :: 0 <= i < |b| ==> (a + b)[|a| + i] == b[i];
    if b == [] {
      assert a + b == a;
    } else {
      var pre := b[..|b| - 1];
      assert (a + b)[..|a + b| - 1] == a + pre;
      RunLast(p, s, a + b);
      RunAppend(p, s, a, pre);
      RunLast(p, Run(p, s, a), b);
    }
  }

  /**
   * A failed invocation only discards its frame: after an error frame and
   * a good frame, the controller has reported the error, then the good
   * frame's prediction, and waits for the next frame.
   */
  lemma RecoversAfterInferenceError(p: Params, s: Ctl, bad: seq<Tick>, badBytes: seq<byte>, good: seq<Tick>, goodBytes: seq<byte>)
    requires s.Inv() && Fits(s, bad) && Fits(s, good) && !s.halted && s.index == 0
    requires |bad| == ImageSize && Delivers(bad, badBytes) && Delivers(good, goodBytes)
    requires |good| == ImageSize && good[ImageSize - 1].reply.status == 0
    requires bad[ImageSize - 1].reply.status != 0
    ensures Run(p, s, bad + good).index == 0
    ensures Run(p, s, bad + good).trace ==
              s.trace + FrameDots() + CycleEvents(QuantizeFrame(p, badBytes), bad[ImageSize - 1].reply)
                      + FrameDots() + CycleEvents(QuantizeFrame(p, goodBytes), good[ImageSize - 1].reply)
    ensures Serial("Erro IA") in Run(p, s, bad + good).trace
    ensures Serial(ReportLine(ArgMax(good[ImageSize - 1].reply.scores[..NumClasses]))) in Run(p, s, bad + good).trace
  {
    RunAppend(p, s, bad, good);
    var mid := Run(p, s, bad);
    FrameCycle(p, s, bad, badBytes);
    FrameCycle(p, mid, good, goodBytes);
    var badEvents := CycleEvents(QuantizeFrame(p, badBytes), bad[ImageSize - 1].reply);
    assert badEvents[3] == Serial("Erro IA");
    var goodEvents := CycleEvents(QuantizeFrame(p, goodBytes), good[ImageSize - 1].reply);
    var r := Run(p, s, bad + good);
    assert r.trace == (s.trace + FrameDots() + badEvents + FrameDots()) + goodEvents;
    assert Outcome(good[ImageSize - 1].reply) == goodEvents[3..];
    OutcomeReports(good[ImageSize - 1].reply);
  }
}
