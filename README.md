# oled_connect: the command-driven display controller

This project models the firmware of an ESP32 board with a 128×64 SSD1306
OLED panel on I2C and a UART receiver. After start-up, the firmware draws a
two-line banner and flushes it. Then it polls the UART forever, one single-byte
read per pass. For every byte it receives, it clears the display's in-memory
buffer, draws at most one text chosen by the byte, and flushes the buffer.

The model has six modules:

- `Wrappers`: `Option`.
- `Graphics`: the symbolic drawing vocabulary. It has binary colours, points,
  baselines, the 6×13 monospace font as a glyph cell, text draws and frames.
  The model never rasterises pixels; a draw is the text, its anchor, its style
  and its baseline.
- `Commands`: the byte-to-text table (`Resolve`). It also holds the one text
  style (FONT_6X13 in `On`) and the two banner texts.
- `BufferedDisplay`: the buffered display, as a value (`Surface`) and as an
  object updated in place (`Display`). It keeps:
  - `fill`: the colour of the last clear;
  - `pending`: the draws made since that clear;
  - `visible`: the frame the last successful flush sent;
  - `flushCount`;
  - `trace`: every call made on the display, in order.

  Whether a draw or a flush fails is decided by a fault oracle (`Faults`) given
  when the display is created. The oracle is indexed by how far the display has
  got: the frame number, plus the draw's position in the frame.
- `ControlLoop`: the controller as a state machine on values. `Boot` is
  start-up, `Step` is one pass of the poll loop and `Run` is a finite sequence
  of passes. The lemmas about the firmware's behaviour are stated on these
  functions.
- `Firmware`: the `Controller` class. It owns the `Display` and the one-byte
  receive buffer `buf` (an `array<bv8>` of length 1). Its constructor runs
  start-up. `Step` and `Run` change the objects in place, and their
  postconditions tie the new state to `ControlLoop.Step` and `ControlLoop.Run`
  of the old state. `halted` is set when a draw or flush `unwrap()` panics.
  From then on the panic handler spins, so nothing changes any more.

A UART read outcome is `Err` or `Ok(n, byte0)`. `byte0` is what `uart.read`
leaves in `buf[0]` when `n > 0`.

Notes on the source:

- The loop clears to `BinaryColor::On`, the colour the text is drawn in. The
  model keeps this exactly as written, so a command frame is a fully lit panel
  whose text cannot be seen. `ControlLoop.CommandFramesIllegible` states this.
  `ControlLoop.BootFrameLegible` shows that the start-up frame, drawn on the
  Off buffer, can be read.
- A byte with no entry in the table "leaves the display blank". In the code,
  "blank" is the bare `On` fill: the panel is all lit, not dark.
- The result of `display.clear` is discarded (src/bin/main.rs:128 has no
  `unwrap`). Clearing a buffered display only writes memory, so `Clear` is
  modelled as infallible.
- The fresh buffer of the display is taken to be all `Off` (zeroed). Nothing
  has been flushed before start-up, so `visible` starts as `None`. The SSD1306
  driver is not part of this model.
- `display.init().unwrap()` (src/bin/main.rs:76) is assumed to succeed; the
  fault oracle has no entry for it.
- The MockDisplay code between the two banner lines (src/bin/main.rs:91-110)
  is assumed to return normally in `ControlLoop.Boot`. This is doubtful; see
  "## Findings". `ControlLoop.BootAsWritten` models the other reading, where
  that code panics.

## Model

| member | source | states |
|---|---|---|
| Commands.Resolve | src/bin/main.rs:130-144 | A byte yields a text exactly when it is 1, 2 or 3; every text is anchored at (0,0) with Top baseline in the FONT_6X13/On style |
| Commands.Draws | src/bin/main.rs:130-144 | Handling a byte draws at most one text; it draws none exactly when the byte has no table entry, and what it draws is the resolved text |
| Commands.ResolveTable | src/bin/main.rs:130-144 | Byte 1 is "Hello!", 2 is "World!", 3 is "ESP32 + Rust!", each at (0,0), Top, 6×13 font, colour On; every other byte is None |
| BufferedDisplay.ClearedIsBare | src/bin/main.rs:128 | A clear leaves an empty buffer of the given colour and leaves the panel and flushCount alone |
| BufferedDisplay.DrawnAppends | src/bin/main.rs:132-133 | A draw appends exactly its text to the buffer unless it fails; fill, panel and flushCount are unchanged |
| BufferedDisplay.FlushedShowsBuffer | src/bin/main.rs:146 | A successful flush makes the buffer the visible frame and adds one to flushCount; a failed one changes neither; the buffer is kept |
| BufferedDisplay.Cleared | src/bin/main.rs:128 | The value model of `display.clear`; its properties are in `ClearedIsBare` and `ClearKeepsConsistent` |
| BufferedDisplay.Drawn | src/bin/main.rs:132-141 | The value model of a text draw, failing as the oracle says; its properties are in `DrawnAppends` and `DrawKeepsConsistent` |
| BufferedDisplay.Flushed | src/bin/main.rs:146 | The value model of `display.flush`, failing as the oracle says; its properties are in `FlushedShowsBuffer` and `FlushKeepsConsistent` |
| BufferedDisplay.ClearKeepsConsistent | src/bin/main.rs:128 | A clear keeps flushCount at most the number of flush calls, and keeps a frame visible exactly when a flush has succeeded |
| BufferedDisplay.DrawKeepsConsistent | src/bin/main.rs:132-141 | A draw, failing or not, keeps that consistency |
| BufferedDisplay.FlushKeepsConsistent | src/bin/main.rs:146 | A flush, failing or not, keeps that consistency |
| BufferedDisplay.Display.constructor | src/bin/main.rs:71-75 | A new buffered display has a zeroed (Off) empty buffer, no visible frame, no flushes, no calls |
| BufferedDisplay.Display.Clear | src/bin/main.rs:128 | Clearing in place gives the state of the value model's clear |
| BufferedDisplay.Display.DrawText | src/bin/main.rs:132-133 | Drawing in place reports failure exactly when the oracle says so and gives the value model's draw |
| BufferedDisplay.Display.Flush | src/bin/main.rs:146 | Flushing in place reports failure exactly when the oracle says so and gives the value model's flush |
| ControlLoop.Respond | src/bin/main.rs:126-146 | The value model of handling a received byte: clear to On, the byte's draw if any (panic if it fails), flush (panic if it fails); properties in `StepOnByte`, `StepHaltsOnFault`, `RespondShowsByte` |
| ControlLoop.Step | src/bin/main.rs:124-152 | The value model of one pass of the poll loop; properties in `StepOnByte`, `NoByteNoChange`, `StepHaltsOnFault`, `PanicStopsDisplay`, `VisibleDependsOnlyOnByte` |
| ControlLoop.Run | src/bin/main.rs:123-153 | The value model of a finite prefix of the loop; properties in `RunSnoc`, `RunFlushCount`, `HaltedIsFinal`, `RunShowsLastByte`, `RunConsistent` |
| ControlLoop.Boot | src/bin/main.rs:83-119 | The value model of start-up with the MockDisplay code returning normally; properties in `BootShowsBanner`, `BootFrameLegible`, `BootConsistent` |
| ControlLoop.BootAsWritten | src/bin/main.rs:83-110 | The value model of start-up when the MockDisplay overdraw panics: the first banner line is drawn, then the controller halts |
| ControlLoop.BootAsWrittenNeverReachesLoop | src/bin/main.rs:83-119 | With that panic, start-up halts with nothing visible and no flush, and no later read changes anything |
| ControlLoop.StepHaltsOnFault | src/bin/main.rs:133-146 | A pass on a received byte panics exactly when the byte's draw fails, or the draw succeeded (or there was none) and the flush fails |
| ControlLoop.StepOnByte | src/bin/main.rs:125-146 | A received byte causes one clear to On, then the draw it asks for (if any), then one flush; the panel then shows the On fill plus that draw, and flushCount rises by one |
| ControlLoop.UnknownByteBlanks | src/bin/main.rs:128-146 | A byte other than 1, 2, 3 draws nothing but still clears and flushes, so the panel shows the bare On fill |
| ControlLoop.NoByteNoChange | src/bin/main.rs:148-151 | A read error or a read of zero bytes leaves the whole state unchanged: buffer, panel, flushCount and call trace |
| ControlLoop.OnlyFirstByteMatters | src/bin/main.rs:121-126 | A pass depends only on the first received byte, not on how many bytes the read reports |
| ControlLoop.VisibleDependsOnlyOnByte | src/bin/main.rs:128-146 | After a pass handling byte b completes, the visible frame is the same whatever the state before |
| ControlLoop.SameByteTwice | src/bin/main.rs:128-146 | Sending the same byte twice shows the same frame after each flush |
| ControlLoop.CommandFramesIllegible | src/bin/main.rs:128-141 | Every frame a command shows has all its text in the fill colour On, so nothing on it is legible |
| ControlLoop.HaltedIsFinal | src/bin/main.rs:16-19 | Once the controller has panicked, any further sequence of reads changes nothing |
| ControlLoop.RunSnoc | src/bin/main.rs:123-153 | Running the loop over one more read is the earlier run followed by one more pass |
| ControlLoop.RunFlushCount | src/bin/main.rs:123-153 | Over a run, flushCount rises by at most the number of reads that delivered a byte, and by exactly that number if the run ends without a panic |
| ControlLoop.NoFaultsNeverHalt | src/bin/main.rs:123-153 | With no draw or flush failures the loop never panics |
| ControlLoop.PanicStopsDisplay | src/bin/main.rs:133-146 | A pass that panics leaves the visible frame as it was and counts no flush; afterwards no read reaches the display: no flush and no other call |
| ControlLoop.RespondShowsByte | src/bin/main.rs:126-146 | A pass that does not panic leaves the On fill plus the byte's draw visible |
| ControlLoop.RunShowsLastByte | src/bin/main.rs:123-153 | If a run ends with a received byte b and no panic, the panel shows exactly what b asks for |
| ControlLoop.BootShowsBanner | src/bin/main.rs:83-119 | Start-up panics exactly when one of its two draws or its flush fails. Otherwise one flush has happened and the panel shows "Hello world!" at (0,0) and "Hello Rust!" at (0,16) on the Off buffer. After a panic nothing is visible |
| ControlLoop.BootFrameLegible | src/bin/main.rs:83-119 | The start-up frame has text in a colour other than its fill |
| ControlLoop.BootConsistent | src/bin/main.rs:83-119 | Start-up leaves the display's counters consistent with its calls |
| ControlLoop.StepConsistent | src/bin/main.rs:123-153 | Every pass keeps the display's counters consistent with its calls |
| ControlLoop.RunConsistent | src/bin/main.rs:123-153 | Every finite run of the loop keeps the display's counters consistent with its calls |
| ControlLoop.ScenarioFiveBytes | src/bin/main.rs:123-153 | After a fault-free start-up, bytes 5, 1, 9, 2, 3 show blank, "Hello!", blank, "World!", "ESP32 + Rust!" in turn, with exactly five more flushes |
| Firmware.Controller.constructor | src/bin/main.rs:78-119 | Start-up in place gives exactly the state `Boot` describes, with a one-byte zeroed receive buffer |
| Firmware.Controller.Step | src/bin/main.rs:124-152 | One pass in place gives exactly `ControlLoop.Step` of the old state and keeps the controller invariant |
| Firmware.Controller.Run | src/bin/main.rs:123-153 | A finite run of the loop gives `ControlLoop.Run` of the old state; flushCount rises by at most the number of received bytes, and by exactly that number if no panic occurred |

## Left out

- Clock, UART and I2C initialisation (src/bin/main.rs:45-68): one-time hardware setup through the HAL. Its only alternative outcome is a panic before the display exists.
- `display.init()` and the SSD1306/I2C driver internals (src/bin/main.rs:70-76): foreign library code. The display is the abstract buffer described above, and bus failures come from the fault oracle. `init()` is assumed to succeed.
- Glyph rasterisation and font metrics: draws are symbolic. "Legible" is judged from colours, not pixels.
- A partially transmitted frame: a failed flush leaves the modelled panel contents as they were.
- The pixels of the MockDisplay rectangle and circle (src/bin/main.rs:91-110): they go into throwaway buffers that are never flushed. Whether this code returns at all is modelled only as the two readings `Boot` and `BootAsWritten` (see "## Findings").
- The bootloader app descriptor (src/bin/main.rs:23) and the unused imports.
- The endless `loop {}` and the spinning panic handler: the loop is modelled by finite sequences of read outcomes, and the panic by the absorbing `halted` state.
- What `uart.read` does to `buf` on an error or a zero-byte read: the model leaves `buf` unchanged then. The byte is never used in those cases.

## Findings

| source | as written | input that shows it | evidently intended | confidence | as-written member | corrected member |
|---|---|---|---|---|---|---|
| src/bin/main.rs:106-110 | `display_circle` is built with every point of the 40-pixel disc at (0,0) already set. Then the filled square (10,10)-(59,59) is drawn into it without `set_allow_overdraw(true)`. MockDisplay panics when a pixel is drawn twice, so start-up panics before the second banner line and the flush | start-up itself, with no input: pixel (10,10) lies in both the disc and the square | the exploratory mock drawing returns normally: start-up shows both banner lines after one flush and enters the loop (`BootShowsBanner`) | not executed; rests on MockDisplay's documented overdraw check, which is library code outside this model | ControlLoop.BootAsWritten | ControlLoop.Boot |
