/**
 * The buffered SSD1306 display as the firmware sees it: an in-memory frame
 * (the colour of the last clear and the texts drawn since) that a flush copies
 * to the panel. Whether a draw or a flush fails is decided by a fault oracle
 * fixed when the display is created, indexed by how far the display has got.
 */
module BufferedDisplay {
  import opened Wrappers
  import opened Graphics

  /** One call the firmware makes on the display, in the order it makes them. */
  datatype Call = ClearCall(color: Color) | DrawCall(text: Text) | FlushCall

  /**
   * The fault oracle. drawFails(k, j) says whether the draw that would become
   * text j of frame k (k = flushes done so far) fails; flushFails(k) whether
   * the flush that would be flush number k + 1 fails.
   */
  datatype Faults = Faults(drawFails: (nat, nat) -> bool, flushFails: nat -> bool)

  const NoFaults := Faults((k: nat, j: nat) => false, (k: nat) => false)

  /**
   * The display's state: fill and pending form the in-memory buffer, visible is
   * the frame the last successful flush sent (None before any), and trace lists
   * every call made on the display.
   */
  datatype Surface = Surface(fill: Color, pending: seq<Text>, visible: Option<Frame>, flushCount: nat, trace: seq<Call>)

  /** A freshly created buffered display: a zeroed (Off) buffer, nothing sent yet. */
  const Initial := Surface(Off, [], None, 0, [])

  /** The in-memory frame a flush would send. */
  function Buffer(s: Surface): Frame
  {
    Frame(s.fill, s.pending)
  }

  /** Every flush is counted, and a frame is visible exactly when one has happened. */
  predicate Consistent(s: Surface)
  {
    s.flushCount <= Flushes(s.trace) && (s.visible.None? <==> s.flushCount == 0)
  }

  function Flushes(trace: seq<Call>): nat
  {
    if trace == [] then 0 else Flushes(trace[..|trace| - 1]) + (if trace[|trace| - 1] == FlushCall then 1 else 0)
  }

  function Cleared(s: Surface, c: Color): Surface
  {
    s.(fill := c, pending := [], trace := s.trace + [ClearCall(c)])
  }

  predicate DrawFails(s: Surface, f: Faults)
  {
    f.drawFails(s.flushCount, |s.pending|)
  }

  function Drawn(s: Surface, t: Text, f: Faults): Surface
  {
    var called := s.(trace := s.trace + [DrawCall(t)]);
    if DrawFails(s, f) then called else called.(pending := s.pending + [t])
  }

  predicate FlushFails(s: Surface, f: Faults)
  {
    f.flushFails(s.flushCount)
  }

  function Flushed(s: Surface, f: Faults): Surface
  {
    var called := s.(trace := s.trace + [FlushCall]);
    if FlushFails(s, f) then called else called.(visible := Some(Buffer(s)), flushCount := s.flushCount + 1)
  }

  /** A clear leaves an empty buffer of the given colour and does not touch the panel. */
  lemma ClearedIsBare(s: Surface, c: Color)
    ensures Buffer(Cleared(s, c)) == Frame(c, [])
    ensures Cleared(s, c).visible == s.visible && Cleared(s, c).flushCount == s.flushCount
  {
  }

  /** A draw adds exactly its text to the buffer unless it fails, and never touches the panel. */
  lemma DrawnAppends(s: Surface, t: Text, f: Faults)
    ensures Buffer(Drawn(s, t, f)).draws == if DrawFails(s, f) then s.pending else s.pending + [t]
    ensures Drawn(s, t, f).fill == s.fill
    ensures Drawn(s, t, f).visible == s.visible && Drawn(s, t, f).flushCount == s.flushCount
  {
  }

  /** A successful flush makes the buffer visible and leaves the buffer as it was; a failed one changes neither. */
  lemma FlushedShowsBuffer(s: Surface, f: Faults)
    ensures !FlushFails(s, f) ==> Flushed(s, f).visible == Some(Buffer(s)) && Flushed(s, f).flushCount == s.flushCount + 1
    ensures FlushFails(s, f) ==> Flushed(s, f).visible == s.visible && Flushed(s, f).flushCount == s.flushCount
    ensures Buffer(Flushed(s, f)) == Buffer(s)
  {
  }

  lemma {:induction false} FlushesSnoc(trace: seq<Call>, c: Call)
    ensures Flushes(trace + [c]) == Flushes(trace) + (if c == FlushCall then 1 else 0)
  {
    assert (trace + [c])[..|trace + [c]| - 1] == trace;
  }

  /** A clear keeps the counters consistent with the trace and the panel. */
  lemma ClearKeepsConsistent(s: Surface, c: Color)
    requires Consistent(s)
    ensures Consistent(Cleared(s, c))
  {
    FlushesSnoc(s.trace, ClearCall(c));
  }

  /** A draw, failing or not, keeps the counters consistent with the trace and the panel. */
  lemma DrawKeepsConsistent(s: Surface, t: Text, f: Faults)
    requires Consistent(s)
    ensures Consistent(Drawn(s, t, f))
  {
    FlushesSnoc(s.trace, DrawCall(t));
  }

  /** A flush, failing or not, keeps the counters consistent with the trace and the panel. */
  lemma FlushKeepsConsistent(s: Surface, f: Faults)
    requires Consistent(s)
    ensures Consistent(Flushed(s, f))
  {
    FlushesSnoc(s.trace, FlushCall);
  }

  /** The display object, updated in place by the firmware. */
  class Display {
    const faults: Faults
    var fill: Color
    var pending: seq<Text>
    var visible: Option<Frame>
    var flushCount: nat
    var trace: seq<Call>

    function Model(): Surface
      reads this
    {
      Surface(fill, pending, visible, flushCount, trace)
    }

    constructor (faults: Faults)
      ensures this.faults == faults
      ensures Model() == Initial
    {
      this.faults := faults;
      fill, pending, visible, flushCount, trace := Off, [], None, 0, [];
    }

    /** Fill the whole buffer with c. Clearing a buffered display cannot fail. */
    method Clear(c: Color)
      modifies this
      ensures Model() == Cleared(old(Model()), c)
    {
      fill, pending := c, [];
      trace := trace + [ClearCall(c)];
    }

    /** Draw t into the buffer; ok is false when the oracle makes the draw fail. */
    method DrawText(t: Text) returns (ok: bool)
      modifies this
      ensures ok == !DrawFails(old(Model()), faults)
      ensures Model() == Drawn(old(Model()), t, faults)
    {
      ok := !faults.drawFails(flushCount, |pending|);
      trace := trace + [DrawCall(t)];
      if ok {
        pending := pending + [t];
      }
    }

    /** Send the buffer to the panel; ok is false when the oracle makes the bus transfer fail. */
    method Flush() returns (ok: bool)
      modifies this
      ensures ok == !FlushFails(old(Model()), faults)
      ensures Model() == Flushed(old(Model()), faults)
    {
      ok := !faults.flushFails(flushCount);
      trace := trace + [FlushCall];
      if ok {
        visible := Some(Frame(fill, pending));
        flushCount := flushCount + 1;
      }
    }
  }
}
