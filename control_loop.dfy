/**
 * The controller as a state machine on values: start-up, one pass of the
 * UART poll loop, and a finite run of passes. The infinite loop of the
 * firmware is modelled by its finite prefixes; a panic is the absorbing
 * state `halted`, in which the panic handler spins and nothing changes.
 */
module ControlLoop {
  import opened Wrappers
  import opened Graphics
  import opened Commands
  import opened BufferedDisplay

  /** What one UART read returns: an error, or n bytes with byte0 the first when n > 0. */
  datatype ReadResult = Err | Ok(n: nat, byte0: bv8)

  /** The controller: its display, the one-byte receive buffer, and whether it has panicked. */
  datatype State = State(display: Surface, rx: bv8, halted: bool)

  /** A read that actually delivered a byte. */
  predicate Received(r: ReadResult)
  {
    r.Ok? && r.n > 0
  }

  function CountReceived(rs: seq<ReadResult>): nat
  {
    if rs == [] then 0 else (if Received(rs[0]) then 1 else 0) + CountReceived(rs[1..])
  }

  /** Flush and panic if the flush fails. */
  function Commit(s: State, f: Faults): State
  {
    s.(display := Flushed(s.display, f), halted := FlushFails(s.display, f))
  }

  /** The state after drawing t, panicking if the draw fails. */
  function DrawOrPanic(s: State, t: Text, f: Faults): State
  {
    s.(display := Drawn(s.display, t, f), halted := DrawFails(s.display, f))
  }

  /** Clear to On, draw what the byte in the receive buffer asks for, flush. */
  function Respond(s: State, f: Faults): State
  {
    var cleared := s.(display := Cleared(s.display, On));
    match Resolve(s.rx)
    case None => Commit(cleared, f)
    case Some(t) =>
      var drawn := DrawOrPanic(cleared, t, f);
      if drawn.halted then drawn else Commit(drawn, f)
  }

  /** One pass of the poll loop. */
  function Step(s: State, r: ReadResult, f: Faults): State
  {
    if s.halted then s
    else if Received(r) then Respond(s.(rx := r.byte0), f)
    else s
  }

  /** A finite prefix of the poll loop, one read per pass. */
  function Run(s: State, rs: seq<ReadResult>, f: Faults): State
    decreases |rs|
  {
    if rs == [] then s else Run(Step(s, rs[0], f), rs[1..], f)
  }

  /** Start-up: draw the two banner lines into the fresh buffer, then flush; panic on any failure. */
  function Boot(f: Faults): State
  {
    var s0 := State(Initial, 0, false);
    var s1 := DrawOrPanic(s0, HelloWorld, f);
    if s1.halted then s1
    else
      var s2 := DrawOrPanic(s1, HelloRust, f);
      if s2.halted then s2 else Commit(s2, f)
  }

  /**
   * Start-up as written, given that the exploratory MockDisplay code panics: the
   * square drawn into the mock display at main.rs:108-110 overlaps pixels that
   * main.rs:107 already set (pixel (10,10) lies in both the disc and the square),
   * and a MockDisplay panics on a pixel drawn twice unless overdraw is allowed.
   * The first banner line is drawn; the second draw and the flush never happen.
   */
  function BootAsWritten(f: Faults): State
  {
    DrawOrPanic(State(Initial, 0, false), HelloWorld, f).(halted := true)
  }

  /** With the overdraw panic, start-up never flushes and the loop never processes a read. */
  lemma {:induction false} BootAsWrittenNeverReachesLoop(f: Faults, rs: seq<ReadResult>)
    ensures BootAsWritten(f).halted
    ensures BootAsWritten(f).display.visible == None && BootAsWritten(f).display.flushCount == 0
    ensures Run(BootAsWritten(f), rs, f) == BootAsWritten(f)
  {
    HaltedIsFinal(BootAsWritten(f), rs, f);
  }

  /** The draw calls handling byte b makes. */
  function DrawCalls(b: bv8): seq<Call>
  {
    if Resolve(b).Some? then [DrawCall(Resolve(b).value)] else []
  }

  /** The oracle lets frame k through: its first draw and its flush succeed. */
  predicate FrameSucceeds(f: Faults, k: nat)
  {
    !f.drawFails(k, 0) && !f.flushFails(k)
  }

  /**
   * A received byte b: clear to On, then the draw b asks for (if any), then a
   * flush, in that order; the panel then shows exactly the bare On fill plus
   * that draw, and one more flush has happened.
   */
  lemma StepOnByte(s: State, n: nat, b: bv8, f: Faults)
    requires !s.halted && n > 0 && FrameSucceeds(f, s.display.flushCount)
    ensures var s' := Step(s, Ok(n, b), f);
      && !s'.halted && s'.rx == b
      && s'.display.fill == On && s'.display.pending == Draws(b)
      && s'.display.visible == Some(Frame(On, Draws(b)))
      && s'.display.flushCount == s.display.flushCount + 1
      && s'.display.trace == s.display.trace + [ClearCall(On)] + DrawCalls(b) + [FlushCall]
  {
  }

  /** A byte with no meaning still clears and flushes, so the panel shows the bare fill. */
  lemma UnknownByteBlanks(s: State, n: nat, b: bv8, f: Faults)
    requires !s.halted && n > 0 && b != 1 && b != 2 && b != 3 && !f.flushFails(s.display.flushCount)
    ensures Step(s, Ok(n, b), f).display.visible == Some(Frame(On, []))
    ensures Step(s, Ok(n, b), f).display.trace == s.display.trace + [ClearCall(On), FlushCall]
  {
  }

  /** A read error or an empty read changes nothing at all. */
  lemma NoByteNoChange(s: State, r: ReadResult, f: Faults)
    requires r.Err? || r.n == 0
    ensures Step(s, r, f) == s
  {
  }

  /** Only the first byte decides a pass: the byte count does not matter once it is positive. */
  lemma OnlyFirstByteMatters(s: State, n1: nat, n2: nat, b: bv8, f: Faults)
    requires n1 > 0 && n2 > 0
    ensures Step(s, Ok(n1, b), f) == Step(s, Ok(n2, b), f)
  {
  }

  /**
   * Because every pass starts with a clear, the panel after a pass that handled
   * b depends on b alone, not on anything earlier.
   */
  lemma VisibleDependsOnlyOnByte(s1: State, s2: State, n1: nat, n2: nat, b: bv8, f: Faults)
    requires !s1.halted && !s2.halted && n1 > 0 && n2 > 0
    requires !Step(s1, Ok(n1, b), f).halted && !Step(s2, Ok(n2, b), f).halted
    ensures Step(s1, Ok(n1, b), f).display.visible == Step(s2, Ok(n2, b), f).display.visible
  {
  }

  /** Sending the same byte twice shows the same frame after each flush. */
  lemma SameByteTwice(s: State, n: nat, m: nat, b: bv8, f: Faults)
    requires !s.halted && n > 0 && m > 0
    requires !Step(Step(s, Ok(n, b), f), Ok(m, b), f).halted
    ensures Step(Step(s, Ok(n, b), f), Ok(m, b), f).display.visible == Step(s, Ok(n, b), f).display.visible
  {
  }

  /** The loop clears to On, the same colour the text is drawn in, so no frame it shows is legible. */
  lemma CommandFramesIllegible(s: State, r: ReadResult, f: Faults)
    requires !s.halted && Received(r) && !Step(s, r, f).halted
    ensures Step(s, r, f).display.visible.Some?
    ensures !Legible(Step(s, r, f).display.visible.value)
  {
  }

  /** Once halted, a pass does nothing. */
  lemma {:induction false} HaltedIsFinal(s: State, rs: seq<ReadResult>, f: Faults)
    requires s.halted
    ensures Run(s, rs, f) == s
    decreases |rs|
  {
    if rs != [] {
      HaltedIsFinal(Step(s, rs[0], f), rs[1..], f);
    }
  }

  /** A run extended by one read is the run followed by one more pass. */
  lemma {:induction false} RunSnoc(s: State, rs: seq<ReadResult>, r: ReadResult, f: Faults)
    ensures Run(s, rs + [r], f) == Step(Run(s, rs, f), r, f)
    decreases |rs|
  {
    if rs == [] {
      assert [r][1..] == [];
    } else {
      assert (rs + [r])[1..] == rs[1..] + [r];
      RunSnoc(Step(s, rs[0], f), rs[1..], r, f);
    }
  }

  /**
   * Across a run, flushCount rises by at most the number of received bytes, and
   * by exactly that number when the run ends without a panic.
   */
  lemma {:induction false} RunFlushCount(s: State, rs: seq<ReadResult>, f: Faults)
    ensures Run(s, rs, f).display.flushCount <= s.display.flushCount + CountReceived(rs)
    ensures !Run(s, rs, f).halted ==> Run(s, rs, f).display.flushCount == s.display.flushCount + CountReceived(rs)
    decreases |rs|
  {
    if rs != [] {
      var s' := Step(s, rs[0], f);
      RunFlushCount(s', rs[1..], f);
      if s.halted {
        HaltedIsFinal(s, rs, f);
      } else if Received(rs[0]) && s'.halted {
        HaltedIsFinal(s', rs[1..], f);
      }
    }
  }

  /** Without faults the controller never panics. */
  lemma {:induction false} NoFaultsNeverHalt(s: State, rs: seq<ReadResult>)
    requires !s.halted
    ensures !Run(s, rs, NoFaults).halted
    decreases |rs|
  {
    if rs != [] {
      NoFaultsNeverHalt(Step(s, rs[0], NoFaults), rs[1..]);
    }
  }

  /**
   * A pass that receives a byte panics exactly when the draw the byte asks for
   * fails, or, that draw having succeeded or there being none, the flush fails.
   */
  lemma StepHaltsOnFault(s: State, r: ReadResult, f: Faults)
    requires !s.halted && Received(r)
    ensures var k := s.display.flushCount;
      var drawFails := Resolve(r.byte0).Some? && f.drawFails(k, 0);
      Step(s, r, f).halted <==> drawFails || (!drawFails && f.flushFails(k))
  {
  }

  /**
   * A pass that panics leaves the panel as it was and counts no flush; after it
   * no read is processed and no flush or other display call happens.
   */
  lemma {:induction false} PanicStopsDisplay(s: State, r: ReadResult, rs: seq<ReadResult>, f: Faults)
    requires !s.halted && Step(s, r, f).halted
    ensures Run(Step(s, r, f), rs, f).display == Step(s, r, f).display
    ensures Step(s, r, f).display.visible == s.display.visible
    ensures Step(s, r, f).display.flushCount == s.display.flushCount
  {
    HaltedIsFinal(Step(s, r, f), rs, f);
  }

  /** A pass that does not panic leaves the panel showing the bare On fill and the draw the byte asks for. */
  lemma RespondShowsByte(s: State, f: Faults)
    requires !Respond(s, f).halted
    ensures Respond(s, f).display.visible == Some(Frame(On, Draws(s.rx)))
  {
    match Resolve(s.rx)
    case None =>
    case Some(t) =>
      assert Draws(s.rx) == [t] == [] + [t];
  }

  /** Start-up leaves the display consistent. */
  lemma BootConsistent(f: Faults)
    ensures Consistent(Boot(f).display)
  {
    var s1 := DrawOrPanic(State(Initial, 0, false), HelloWorld, f);
    DrawKeepsConsistent(Initial, HelloWorld, f);
    DrawKeepsConsistent(s1.display, HelloRust, f);
    FlushKeepsConsistent(DrawOrPanic(s1, HelloRust, f).display, f);
  }

  /** Every pass of the loop keeps the display consistent. */
  lemma StepConsistent(s: State, r: ReadResult, f: Faults)
    requires Consistent(s.display)
    ensures Consistent(Step(s, r, f).display)
  {
    if !s.halted && Received(r) {
      var cleared := Cleared(s.display, On);
      ClearKeepsConsistent(s.display, On);
      match Resolve(r.byte0)
      case None =>
        FlushKeepsConsistent(cleared, f);
      case Some(t) =>
        DrawKeepsConsistent(cleared, t, f);
        FlushKeepsConsistent(Drawn(cleared, t, f), f);
    }
  }

  /** Every run of the loop keeps the display consistent. */
  lemma {:induction false} RunConsistent(s: State, rs: seq<ReadResult>, f: Faults)
    requires Consistent(s.display)
    ensures Consistent(Run(s, rs, f).display)
    decreases |rs|
  {
    if rs != [] {
      StepConsistent(s, rs[0], f);
      RunConsistent(Step(s, rs[0], f), rs[1..], f);
    }
  }

  /** If the last read of a run delivered b and nothing panicked, the panel shows what b asks for. */
  lemma {:induction false} RunShowsLastByte(s: State, rs: seq<ReadResult>, n: nat, b: bv8, f: Faults)
    requires n > 0 && !Run(s, rs + [Ok(n, b)], f).halted
    ensures Run(s, rs + [Ok(n, b)], f).display.visible == Some(Frame(On, Draws(b)))
  {
    RunSnoc(s, rs, Ok(n, b), f);
    var before := Run(s, rs, f);
    assert !before.halted;
    RespondShowsByte(before.(rx := b), f);
  }

  /**
   * Start-up panics exactly when one of its two draws or its flush fails;
   * otherwise one flush has happened and the panel shows both banner lines on
   * the fresh Off buffer.
   */
  lemma BootShowsBanner(f: Faults)
    ensures !Boot(f).halted <==> !f.drawFails(0, 0) && !f.drawFails(0, 1) && !f.flushFails(0)
    ensures !Boot(f).halted ==> Boot(f).display.visible == Some(Frame(Off, [HelloWorld, HelloRust]))
    ensures !Boot(f).halted ==> Boot(f).display.flushCount == 1
    ensures Boot(f).halted ==> Boot(f).display.visible == None && Boot(f).display.flushCount == 0
  {
    assert [] + [HelloWorld] + [HelloRust] == [HelloWorld, HelloRust];
  }

  /** The start-up frame, unlike the command frames, is legible. */
  lemma BootFrameLegible(f: Faults)
    requires !Boot(f).halted
    ensures Boot(f).display.visible.Some? && Legible(Boot(f).display.visible.value)
  {
    BootShowsBanner(f);
    assert Boot(f).display.visible.value.draws[0].style.color != Boot(f).display.visible.value.fill;
  }

  const Scenario := [Ok(1, 5), Ok(1, 1), Ok(1, 9), Ok(1, 2), Ok(1, 3)]

  /** Pass i of the scenario, fed byte b, shows what b asks for. */
  lemma ScenarioStep(s0: State, i: nat, b: bv8)
    requires !s0.halted && i < |Scenario| && Scenario[i] == Ok(1, b)
    ensures Run(s0, Scenario[..i + 1], NoFaults).display.visible == Some(Frame(On, Draws(b)))
  {
    assert Scenario[..i + 1] == Scenario[..i] + [Ok(1, b)];
    NoFaultsNeverHalt(s0, Scenario[..i + 1]);
    RunShowsLastByte(s0, Scenario[..i], 1, b, NoFaults);
  }

  /**
   * Feeding bytes 5, 1, 9, 2, 3 after a fault-free start-up shows blank,
   * "Hello!", blank, "World!", "ESP32 + Rust!" in turn, with five more flushes.
   */
  lemma ScenarioFiveBytes()
    ensures var s0 := Boot(NoFaults);
      && Run(s0, Scenario[..1], NoFaults).display.visible == Some(Frame(On, []))
      && Run(s0, Scenario[..2], NoFaults).display.visible == Some(Frame(On, [Text("Hello!", Origin, Style, Top)]))
      && Run(s0, Scenario[..3], NoFaults).display.visible == Some(Frame(On, []))
      && Run(s0, Scenario[..4], NoFaults).display.visible == Some(Frame(On, [Text("World!", Origin, Style, Top)]))
      && Run(s0, Scenario, NoFaults).display.visible == Some(Frame(On, [Text("ESP32 + Rust!", Origin, Style, Top)]))
      && Run(s0, Scenario, NoFaults).display.flushCount == s0.display.flushCount + 5
  {
    var s0 := Boot(NoFaults);
    BootShowsBanner(NoFaults);
    NoFaultsNeverHalt(s0, Scenario);
    RunFlushCount(s0, Scenario, NoFaults);
    assert CountReceived(Scenario) == 5;
    ScenarioStep(s0, 0, 5);
    ScenarioStep(s0, 1, 1);
    ScenarioStep(s0, 2, 9);
    ScenarioStep(s0, 3, 2);
    ScenarioStep(s0, 4, 3);
    assert Scenario[..5] == Scenario;
  }
}
