/**
 * The firmware's main function as an object: it owns the buffered display and
 * the one-byte receive buffer, runs the start-up draw and flush, and then
 * handles one UART read per pass. Every state change is tied to the value
 * model in ControlLoop.
 */
module Firmware {
  import opened Wrappers
  import opened Graphics
  import opened Commands
  import opened BufferedDisplay
  import opened ControlLoop

  class Controller {
    const display: Display
    const buf: array<bv8>
    var halted: bool

    /** The receive buffer holds one byte. */
    ghost predicate Valid()
      reads this
    {
      buf.Length == 1
    }

    function Model(): State
      reads this, display, buf
      requires Valid()
    {
      State(display.Model(), buf[0], halted)
    }

    /** Start-up: draw both banner lines, flush, and panic on the first failure. */
    constructor (faults: Faults)
      ensures Valid() && fresh(display) && fresh(buf)
      ensures display.faults == faults
      ensures Model() == Boot(faults)
    {
      display := new Display(faults);
      buf := new bv8[1](_ => 0);
      halted := false;
      new;
      var ok := display.DrawText(HelloWorld);
      if ok {
        ok := display.DrawText(HelloRust);
      }
      if ok {
        ok := display.Flush();
      }
      halted := !ok;
    }

    /** One pass of the poll loop with the given read outcome. */
    method Step(r: ReadResult)
      requires Valid()
      modifies this, display, buf
      ensures Valid()
      ensures Model() == ControlLoop.Step(old(Model()), r, display.faults)
    {
      if halted {
        return;
      }
      if r.Ok? && r.n > 0 {
        buf[0] := r.byte0;
        var byte := buf[0];
        display.Clear(On);
        match Resolve(byte) {
          case None =>
          case Some(t) =>
            var drawn := display.DrawText(t);
            if !drawn {
              halted := true;
              return;
            }
        }
        var flushed := display.Flush();
        halted := !flushed;
      }
    }

    /** The poll loop over a finite sequence of read outcomes. */
    method Run(rs: seq<ReadResult>)
      requires Valid()
      modifies this, display, buf
      ensures Valid()
      ensures Model() == ControlLoop.Run(old(Model()), rs, display.faults)
      ensures display.flushCount <= old(display.flushCount) + CountReceived(rs)
      ensures !halted ==> display.flushCount == old(display.flushCount) + CountReceived(rs)
    {
      for i := 0 to |rs|
        invariant Valid()
        invariant Model() == ControlLoop.Run(old(Model()), rs[..i], display.faults)
      {
        RunSnoc(old(Model()), rs[..i], rs[i], display.faults);
        assert rs[..i + 1] == rs[..i] + [rs[i]];
        Step(rs[i]);
      }
      assert rs[..|rs|] == rs;
      RunFlushCount(old(Model()), rs, display.faults);
    }
  }
}
