# Front-panel sniffer of the 34401A display, verified

lcd-pico listens to the serial link between the main board of an HP 34401A
multimeter and its front panel and redraws what the panel would show. This
project models that pipeline in Dafny, from clock edges to pictures on the
LCD, together with five self-contained algorithms of the same firmware, and
proves what they are there for. `dafny verify dfyconfig.toml` checks all of it.

## The model, stage by stage

- `Wire`, `SnifferRing` — the clock interrupt shifts one bit of each data line
  into a register and hands byte pairs to a 256-slot ring. `Wire` is what the
  interrupts alone determine, as functions over lists of edges; the class
  `Sniffer` is the handler over arrays and indices.
- `Frames`, `Messages`, `Panel` — the six-state frame machine, the assembly of
  a 16-byte message from control codes, and the state that the main loop owns,
  as functions with their invariants. `FrameLaws` says from the bytes
  what each kind of frame does; `PanelRuns` and `ShiftKey` reason about whole
  runs. `FrontPanelDecoder` is the same decoder updating its fields and
  arrays in place, each method proved against those functions.
- `MainLoop` — the main loop over an abstract queue, access by access. Lists of
  interrupts may arrive, and the clock may move on, before each access to shared
  state; the loop is a function of what arrives. The reset flag is up exactly if
  a reset came since it was last cleared, and every reset shown is one that came.
- `Decoder` — the same loop over the ring, the flag and the panel as they are,
  proved equal to that function for every schedule of interrupts; the ring and
  the panel state are related to all interrupts since power-on.
- `Regex`, `ReadingRecogniser`, `MenuRecogniser`, `Recognisers` — the three
  automata that re2c generated, run label by label, against regular
  expressions with an ordinary language semantics. They accept when some
  prefix of the string matches.
- `Cells`, `Display`, `Status` — folding punctuation into twelve cells, the
  cell cache over two frame buffers, and the 300 ms hold of doubtful texts.
- `EndToEnd` — from clock edges to the displayed text.
- `Core1` — the loop of the second core, which calls `display_status` when
  `new_data_counter` has moved or a timer is due; what is on the panel is traced
  back through the hold and the cells to what the decoder displayed.
- `Word32`, `CrcTable`, `Crc32`, `PersistentMemory` — the table-driven CRC-32
  and the memory block that survives a soft reset.
- `Spans`, `Bitmask`, `BitmaskRoundTrip` — masks as lists of ranges, printed
  into a fixed buffer and parsed again.
- `Power`, `Dhcp`, `I2c` — exponentiation by squaring, the rewriting of DHCP
  options (option layout in section 2 of RFC 2132, option 55 in section 9.8),
  and the two-phase polling of I2C sensors.

Time is a parameter of every operation, as are pin levels and sensor answers.
Bytes and 32-bit microsecond counters are bounded integers whose arithmetic
wraps explicitly; CRC words are bit-vectors. An interrupt runs to completion,
as on the single core that serves it.

Where a loop changes things in place the model is a method with invariants;
its contract names the new state by a function, and the theorems are about
those functions.

## What the code does where its own description says otherwise

The model follows the code in each case.

- The character classes of the generated `regex_in_menu` and
  `regex_text_display` are not those of `src/regex_34401a.re`. The lemmas
  `CompiledMenuDiffersFromWritten` and `CompiledTextDiffersFromWritten` give
  the exact set of texts on which they part, and `MenuDisagreementExamples`
  two of them.
- A pause in the middle of a byte is not noticed when the previous edge fell
  on time 0 of the wrapping counter (`ResyncAfterGap`, an equivalence;
  `EdgeAtTimeZero` reaches it from power-on).
- `process_reset` clears the flag last: a reset that arrives while one is being
  handled is acknowledged with it (`MainLoop.ResetHandled`).
- `uptime` is not cleared at boot, so a session that records none is credited
  with the previous one's (`StaleUptimeIsCreditedAgain`, an equivalence;
  `CreditedTwice` is a history of two sessions that shows it).
- The hook adds two to the 8-bit length of a DHCP option 55. That is right
  exactly for lists of at most 253 bytes (`AddedParses`, an equivalence), which
  every list is in a field of at most 255 bytes (`ShortFieldHasRoom`); the
  options field of the network stack is shorter by default.
- The cell walk can run to the end of the 16-byte text and looks one byte
  behind it. That byte is the first of `last_reading`, and in every reachable
  state it is no punctuation (`OverrunIsHarmless`); folding loses nothing
  exactly when the walk stays inside the text (`UnfoldParsed`), which a text of
  seven digits with a point after each makes it leave (`PointsCrowdTheText`).
- Numbers of three digits do not fit the sizes that `bitmask_to_str` passes to
  `snprintf`. `ParsingUndoesPrinting` says exactly which masks come back,
  `ThreeDigitsAreLost` gives one that does not.

## Model

| member | source | states |
|---|---|---|
| Wire.SentByte | src/decoder_34401a.c:357-366 | Eight edges within the gap limit store the byte pair they carry, whatever the registers held before |
| Wire.SentBytes | src/decoder_34401a.c:331-366 | Any list of pairs sent most significant bit first, with any pauses between bytes, is emitted exactly |
| Wire.ByteAfterReset | src/decoder_34401a.c:373-379 | A reset drops the fragment of a byte and the next byte arrives exactly |
| Wire.ResyncAfterGap | src/decoder_34401a.c:332-355 | After a partial byte a pause emits one frame-end pair and the next byte exactly, if and only if the last edge was not at time 0 |
| Wire.EdgeAtTimeZero | src/decoder_34401a.c:332 | When the first edge after power-on falls on time 0, the byte behind the pause after it is never decoded |
| Wire.ResyncedBytes | src/decoder_34401a.c:332-366 | After a partial byte and a pause, one frame-end pair and then a whole list of bytes arrive exactly |
| Wire.EmittedConcat | src/decoder_34401a.c:302-379 | What two batches of interrupts emit is what one batch emits: the registers are the only memory |
| SnifferRing.Sniffer.FifoAppend | src/decoder_34401a.c:258-276 | Stores the pair behind all others, or counts an overrun exactly when 255 are waiting; the registers are empty afterwards |
| SnifferRing.Sniffer.SckEdge | src/decoder_34401a.c:302-370 | The handler does to registers and ring what the edge function and a bounded queue say, and touches nothing of the main loop's |
| SnifferRing.ArrivalsEmit | src/decoder_34401a.c:258-276 | With nothing lost, the queue grows by exactly what the edges emitted, and nothing is lost while it fits in 255 |
| SnifferRing.Sniffer.ResetEdge | src/decoder_34401a.c:373-379 | Drops the partial byte and raises the reset flag |
| SnifferRing.Sniffer.AdvanceRead | src/decoder_34401a.c:404 | Consumes exactly the oldest pair |
| Decoder.DmmContext.TakePair | src/decoder_34401a.c:402-404 | With interrupts between the reads of the two halves and of the index, the pair taken is the oldest one stored, never half of one and half of another |
| Decoder.DmmContext.Drain | src/decoder_34401a.c:395-569 | Under every schedule of interrupts and clock readings the loop over ring, flag and arrays does exactly what the loop over the queue does |
| Decoder.DmmContext.Process | src/decoder_34401a.c:389-575 | One call does exactly what the abstract call does, and keeps ring, panel, flag and log consistent with all interrupts since power-on |
| MainLoop.OneCall | src/decoder_34401a.c:389-575 | Whatever arrives, a call consumes pairs oldest first, stamped with times of its own clock in order, and ends either by showing a reset found pending behind the guard, or at a look that found the ring empty and no reset; a reset pending at the start is shown at once, and none is shown that was not pending and did not come |
| MainLoop.QuietCall | src/decoder_34401a.c:389-575 | When nothing arrives, a pending reset is shown and the ring left as it is, otherwise the ring is emptied |
| MainLoop.ProcessedInv | src/decoder_34401a.c:238-256 | Every call keeps: the flag is up exactly if a reset came since it was cleared, and no more resets are shown than came |
| MainLoop.UnsentIsUnseen | src/decoder_34401a.c:373-379 | No resets sent, none shown |
| EndToEnd.ConsumedFromWire | src/decoder_34401a.c:258-276 | In every reachable state the consumed pairs are a prefix of the stored ones, at most 255 wait, attempts are consumed plus waiting plus overruns, and with no overrun the pairs are a prefix of what was on the wire |
| EndToEnd.WireToDisplay | src/decoder_34401a.c:302-575 | When only clock edges came, a message frame sent bit by bit is shown as the text of its body, however the main loop was interrupted |
| EndToEnd.FrameShows | src/decoder_34401a.c:420-499 | Header, body and frame end display the text of the body and leave the machine between frames |
| FrameLaws.MessageFrame | src/decoder_34401a.c:436-437 | A message frame that arrives whole displays its text with its own blinks, keeps a recognised reading as the last one, always counts as news and does nothing else |
| FrameLaws.MessageRecognised | src/decoder_34401a.c:453-468 | It is recognised exactly when printable and a reading, or a menu, and corrupt exactly when not printable or in none of the three languages |
| FrameLaws.MessageVerdict | src/decoder_34401a.c:449-499 | The same verdict, both ways, at the end of every undisturbed message frame of every run |
| FrameLaws.AnnunciatorFrame | src/decoder_34401a.c:148-160 | A frame headed by 7F or FF and 00 sets the annunciators to the two bytes that follow, low byte first, all but bit 11, and nothing else |
| FrameLaws.ShortAnnunciatorFrame | src/decoder_34401a.c:501-509 | With one byte only, the frame end supplies the high byte 00 |
| FrameLaws.EmptyAnnunciatorFrame | src/decoder_34401a.c:501-509 | With none, nothing changes |
| FrameLaws.ControlFrame | src/decoder_34401a.c:210-236 | Which of the twelve first bytes before 49 makes which character the only blinking one; any other such frame does nothing |
| FrameLaws.ButtonFrame | src/decoder_34401a.c:518-557 | Outputs 77 9D CF are a press of SHIFT, which opens or extends the window; any other code of three bytes closes it and clears bit 11; shorter frames do nothing |
| FrameLaws.ButtonCut | src/decoder_34401a.c:519-521 | A frame end in the middle of a key does nothing |
| FrameLaws.BeforeFirstEnd | src/decoder_34401a.c:420-425 | Until the first frame end nothing is taken for a frame |
| FrameLaws.FullBuffer | src/decoder_34401a.c:564-568 | The hundredth pair gives a frame up; of a message it adds its byte and leaves the message open |
| FrameLaws.ResetLaw | src/decoder_34401a.c:238-256 | What a reset shows and clears, and what it leaves |
| Frames.StaysFramed | src/decoder_34401a.c:412-569 | Between bytes the frame buffer holds at most 99 pairs and each frame state determines the header it holds |
| Frames.EofSynchronises | src/decoder_34401a.c:85-97 | From any framer state the frame-end pair leaves an empty buffer in the unknown state |
| PanelRuns.Synchronises | src/decoder_34401a.c:85-97 | After the frame-end pair two decoders with any histories agree on frame state and buffer for ever on the same bytes, whatever resets and clock looks either sees |
| FrontPanelDecoder.FrontPanel.ConsumeByte | src/decoder_34401a.c:415-569 | The in-place drain step over buffers and flags computes exactly the step function of the panel |
| FrontPanelDecoder.FrontPanel.MessageByte | src/decoder_34401a.c:162-208 | A body byte clears the old message if due, maps control codes, sets blinking and appends |
| FrontPanelDecoder.FrontPanel.JudgeMessage | src/decoder_34401a.c:453-468 | The three recognisers run on the C string in the buffer give the verdict of the specification |
| FrontPanelDecoder.FrontPanel.ProcessReset | src/decoder_34401a.c:238-256 | Reset shows the notice and clears flags and annunciators, but neither the frame buffer nor the frame state |
| FrontPanelDecoder.FrontPanel.DecodeControlFrame | src/decoder_34401a.c:210-236 | Each of the twelve blink codes makes its one character the only blinking one and counts as news; every other frame changes nothing |
| Messages.AssembledIsPure | src/decoder_34401a.c:67-78 | The byte-by-byte assembly into the 16-byte buffer equals a closed form of the body: codes mapped, dropped, cut at 15, padded to 14 |
| Messages.BodyByte | src/decoder_34401a.c:176-207 | Which character code each control code stands for, and which bytes stand for nothing |
| Messages.CodesConcat | src/decoder_34401a.c:162-208 | The codes of a body in two parts are those of its parts |
| Messages.TextReads | src/decoder_34401a.c:67-78 | The displayed string, character by character: printable codes as they are, others as spaces, cut at fifteen, filled up to fourteen |
| Messages.BlinksAre | src/decoder_34401a.c:185-190 | A character blinks if and only if a byte 8D came when it was the last one in the buffer |
| Messages.VerdictIs | src/decoder_34401a.c:453-468 | The verdict on an assembled message in terms of the three languages, both ways |
| Messages.AddByteInv | src/decoder_34401a.c:162-208 | Every body byte keeps the buffer terminated, printable, 14 or 15 long, and clears the old verdicts |
| Messages.JudgedInv | src/decoder_34401a.c:453-468 | At most one of corrupt, menu and valid stands after a message, and each stands for its language |
| Panel.StepInv | src/decoder_34401a.c:389-575 | Every event keeps the invariant of the whole panel state |
| Panel.ReachableInv | src/decoder_34401a.c:283-299 | In every run the text buffers are well formed, the verdicts exclude each other, and the last reading is empty or a reading |
| PanelRuns.DisplayedText | src/decoder_34401a.c:449-499 | In every run, with resets and overflows, the text on display is the text of the bytes fed since the buffer was last closed; empty frames repeat it, overflowed ones run on |
| PanelRuns.PublishedTextIsPure | src/decoder_34401a.c:449-499 | Without reset or overflow the published text, blink mask and garbling are a function of the frame's own body |
| Panel.VerdictIsOnMain | src/decoder_34401a.c:449-479 | In every reachable state a standing verdict is one on the displayed text |
| Panel.ChangesAreCounted | src/decoder_34401a.h:60 | A step changes displayed text, last reading, annunciators or blink mask only if it moves new_data_counter, by one |
| Panel.UnchangedCounter | src/decoder_34401a.h:60 | Over any run of fewer than 2^32 events an unchanged counter means an unchanged display |
| ShiftKey.ShiftFollowsKey | src/decoder_34401a.c:99-117 | In every run annunciator bit 11 is an abstract key that counts presses without bound |
| ShiftKey.ShiftBitChanges | src/decoder_34401a.c:518-557 | Bit 11 changes if and only if a window closes on an odd count, or it was set and another key or a reset came |
| ShiftKey.WindowParity | src/decoder_34401a.c:99-117 | Presses that belong together toggle SHIFT once if their number is odd and not at all if even |
| ShiftKey.PressesThenLook | src/decoder_34401a.c:105-116 | Every press extends the window: only a look more than 300 ms after the last press closes it, toggling by parity |
| ShiftKey.AnnunciatorsKeepShift | src/decoder_34401a.c:148-160 | An annunciator frame leaves the SHIFT bit as it was |
| ReadingRecogniser.RunDecidesValid | src/regex_34401a.c:31-427 | The automaton accepts exactly the strings with a prefix in the language of readings |
| ReadingRecogniser.RegexValidReading | src/regex_34401a.c:31-427 | The cursor loop terminates, never reads past the NUL and answers membership |
| MenuRecogniser.RunDecidesMenu | src/regex_34401a.c:430-1194 | The automaton accepts exactly the prefix language of menus, phrases in either case, items with the compiled class |
| MenuRecogniser.RegexInMenu | src/regex_34401a.c:430-1194 | The cursor loop with its marker terminates, never reads past the NUL and answers membership |
| MenuRecogniser.CompiledMenuDiffersFromWritten | src/regex_34401a.re:60-69 | The exact texts on which the generated menu recogniser and its written expression disagree |
| MenuRecogniser.MenuDisagreementExamples | src/regex_34401a.c:741-754 | One text only the written expression accepts, one only the generated code does |
| Recognisers.RegexTextDisplay | src/regex_34401a.c:1197-1227 | Answers membership in the prefix language of display text |
| Recognisers.CompiledTextDiffersFromWritten | src/regex_34401a.re:82-86 | The exact texts on which the generated text recogniser and its written expression disagree |
| Recognisers.ReadingSample | src/regex_34401a.re:39-41 | A reading with sign, fraction and scale letter is one |
| Recognisers.TextSample | src/decoder_34401a.c:462-464 | A word is display text and no reading |
| Recognisers.ReadingIsNotMenu | src/decoder_34401a.c:454-460 | No string is accepted by both recognisers |
| Cells.CellIs | src/display.c:400-421 | A cell shows one character, the mark behind it and the blink bit of its own number, and where the walk goes on |
| Cells.UnfoldParsed | src/display.c:399-422 | Writing the punctuation back between the cells gives the consumed text, if and only if the walk never sticks to the last byte |
| Cells.PointsCrowdTheText | src/display.c:401-402 | A text the decoder can display on which the walk does stick |
| Cells.OverrunIsHarmless | src/display.c:399-422 | In every reachable decoder state the byte behind the text does not influence the cells |
| Display.RedrawIs | src/display.c:285-314 | A redraw puts in the tile of the character, or of a space in every other tenth of a second if it blinks, and exactly the overlays whose flags are set |
| Display.PunctuationDrawn | src/display.c:408-421 | Which overlays a point, a comma and a colon draw |
| Display.Screen.RefreshCell | src/display.c:274-316 | A cell is redrawn, a blinking one always, or rightly left alone: it then already shows what a redraw would draw |
| Display.Screen.UpdateDisplay | src/display.c:264-365 | Every cell of the buffer made visible shows what a full redraw at the times read would draw, blinking cells in their phase; the other buffer is untouched; from the second call on nothing visible is drawn over |
| Status.StatusDisplay.ParseCells | src/display.c:399-422 | The in-place walk computes the twelve cells of the folding specification |
| Status.StatusDisplay.DisplayStatus | src/display.c:369-476 | The cells on the LCD are always the parse of one message, text, blink mask and all, and the hold machine says which |
| Status.Publication | src/display.c:387-445 | What is on display after any calls, exactly: an accepted report at once, a doubtful one from the first poll more than 300 ms after it, never if it came at time 0, and until then what was there before |
| Status.HeldIsLatest | src/display.c:387-397 | What is held back is always what was reported last, doubtful and followed by no other report |
| Status.ShownForAReason | src/display.c:387-445 | In every run of calls what is on display was accepted, or was the latest report for more than 300 ms |
| Core1.DisplayLoop.Turn | src/lcd-pico.c:458-464 | One turn runs the decoder and calls display_status exactly if the counter moved or the timer is due, with new data exactly if it moved |
| Core1.WhatThePanelShows | src/lcd-pico.c:458-464 | In every reachable state the panel shows the cells of a text the decoder displayed that is a reading or a menu, or that stood for more than 300 ms with the counter unmoved; initially nothing |
| Core1.ReportIsShown | src/lcd-pico.c:460-463 | The latest report is on the panel if it was recognised, or once a poll more than 300 ms after it found nothing new |
| Core1.StoodIsShown | src/lcd-pico.c:460-463 | A text that stands with the counter unmoved is on the panel after a call more than 300 ms later |
| Core1.RecognisedIsShown | src/lcd-pico.c:458-463 | A printable message frame that is a reading or a menu is on the panel with the first call after it, if no other message has begun and no reset come |
| CrcTable.TableIsGenerated | src/crc32.c:38-138 | Every one of the 256 constants is what the generator loop computes |
| Crc32.ByteStepIsEightBits | src/crc32.c:171-181 | One table step equals eight steps of bit-serial division by 0x04c11db7 |
| Crc32.Xcrc32 | src/crc32.c:171-181 | The table loop equals bit-serial division of the whole buffer, for every buffer and initial value |
| Crc32.CrcConcat | src/crc32.c:145-169 | The CRC of a concatenation continues the CRC of its first part |
| Crc32.DivisionIsLinear | src/crc32.c:171-181 | Division of a bitwise difference is the difference of the divisions |
| Crc32.BurstDetected | src/crc32.c:171-181 | Equally long bit strings that differ, and only within some 32 consecutive bits, have different remainders |
| Crc32.FourBytesDetected | src/crc32.c:171-181 | Equally long buffers that differ, and only within some four consecutive bytes, have different CRCs |
| PersistentMemory.Pmem.Init | src/lcd-pico.c:86-119 | A block that id, length and CRC vouch for is carried over with its counters, any other is initialised |
| PersistentMemory.Pmem.Update | src/lcd-pico.c:121-137 | The recorded uptime and time are sealed by a new CRC |
| PersistentMemory.Pmem.UpdateTz | src/lcd-pico.c:139-150 | The timezone is stored cut to its field, zero-filled, and sealed |
| PersistentMemory.AcceptedMeans | src/lcd-pico.c:91-94 | A block is accepted exactly if id and size are right and its CRC field is the remainder, from zero, of all bytes before it |
| PersistentMemory.Layout | src/lcd-pico.h:227-237 | Where each field of the block lies among the bytes under the CRC |
| PersistentMemory.GuardedDetermines | src/lcd-pico.h:227-237 | Those bytes determine every field but the CRC |
| PersistentMemory.AlteredBlockIsRejected | src/lcd-pico.c:91-118 | A valid block of which any field before the CRC is altered, within four consecutive bytes, is rejected and reinitialised |
| PersistentMemory.AlteredCountIsRejected | src/lcd-pico.c:91-118 | In particular one whose boot count is altered, to whatever value |
| PersistentMemory.BootLaw | src/lcd-pico.c:86-119 | What a boot does, field by field, to an accepted block and to any other memory |
| PersistentMemory.WriteLaw | src/lcd-pico.c:121-150 | What an uptime or timezone write does, field by field, the zone cut to 63 characters |
| PersistentMemory.TotalUptime | src/lcd-pico.c:103-108 | Over any number of sessions the block stays accepted and the total is the sum of the uptimes found |
| PersistentMemory.StaleUptimeIsCreditedAgain | src/lcd-pico.c:103-106 | A boot is credited with its own session's uptime if and only if one was recorded or the field was zero |
| PersistentMemory.CreditedTwice | src/lcd-pico.c:103-106 | A history of two sessions whose total counts the first one twice |
| Bitmask.BitmaskToStr | src/util.c:410-467 | For every mask, length, base and style the text fits the 112-byte buffer and is the specified one, truncations included |
| Bitmask.RoomLeft | src/util.c:412 | The text never outgrows three characters a bit |
| Bitmask.StrToBitmask | src/util.c:470-513 | The nested tokenising loops compute the mask of the list, for any text |
| BitmaskRoundTrip.PrintedIsRender | src/util.c:430-464 | The printer's text is the comma-separated list of the maximal ranges (or single bits) of the mask, numbers cut where they have no room |
| BitmaskRoundTrip.RunsCover | src/util.c:430-461 | Those ranges cover exactly the bits set below the length |
| BitmaskRoundTrip.ListReads | src/util.c:489-509 | Parsing a printed list sets exactly the bits of its ranges, save those whose first number was cut |
| BitmaskRoundTrip.ParsingUndoesPrinting | src/util.c:410-513 | The mask comes back if and only if it was starred, or its bits lie below the length and no number of three digits begins a range or stands alone |
| BitmaskRoundTrip.RoundTrip | src/util.c:410-513 | With numbers of at most two digits every mask below the length comes back, in both styles |
| BitmaskRoundTrip.ThreeDigitsAreLost | src/util.c:434-436 | A mask that is printed as the first two digits of its number and lost |
| BitmaskRoundTrip.FourBitsPrinted | src/util.c:430-464 | A mask and its text in both styles |
| BitmaskRoundTrip.ItemMeans | src/util.c:491-507 | Which bits a number or a range sets, for any element of a list |
| BitmaskRoundTrip.ListMeans | src/util.c:489-509 | A list is its first element and then the others |
| BitmaskRoundTrip.NumbersRead | src/util.c:76-86 | What is read of numbers with spaces, signs and other characters around them |
| BitmaskRoundTrip.NothingBeyondLength | src/util.c:489-509 | No text whatever sets a bit beyond the length |
| Power.PowI64 | src/util.c:229-255 | Exact and without intermediate overflow whenever the power fits 64 bits, for every base; the guard gives up only when it does not fit |
| Power.SquareBound | src/util.c:229 | The constant of the guard is the largest base whose square fits |
| Dhcp.OptionAddHook | src/dhcp.c:39-78 | The in-place rewriting yields the encoding of the options with 7 and 100 appended to every option 55, two bytes longer for each |
| Dhcp.ParseEncode | src/dhcp.c:62-75 | Parsing inverts encoding |
| Dhcp.EncodeParse | src/dhcp.c:62-75 | Encoding inverts parsing |
| Dhcp.AddedParses | src/dhcp.c:67 | The result parses to the intended options if and only if no option 55 is longer than 253 |
| Dhcp.RequestRewritten | src/dhcp.c:31-75 | A request for options 1 and 3, byte by byte before and after |
| Dhcp.ShortFieldHasRoom | src/dhcp.c:57 | In a field of at most 255 bytes no option is longer, so the result always parses to the intended options |
| I2c.Poller.ReadTemps | src/i2c.c:128-213 | One call starts all sensors or reads the next active one, stores its values alone, and returns the delay: the longest that a started sensor needs, 50 ms between sensors, 10 s after a round |
| I2c.ActiveFromIsComplete | src/i2c.c:174-180 | The sensors still to be read are exactly the active ones, each once, in increasing order |
| I2c.ReadPhaseEnds | src/i2c.c:170-208 | From any sensor on, a read phase reads exactly the remaining active sensors and then ends |
| I2c.Rounds | src/i2c.c:128-213 | From power-on all calls fall into such rounds, for any number of rounds |
| I2c.Round | src/i2c.c:128-213 | Every round is one start and then a read phase of at most one call more than there are active sensors, reading each exactly once in order |

## Left out

- Bar graph and `dbg_` statistics of the decoder: written and never read by it, except the FIFO counts, which are kept as ghost fields. A change of the bar moves `new_data_counter` once more at the end of a message, which has just moved it; that second step is not counted.
- Timer of the display loop: `time_passed` is not part of this model; whether the 250 ms have passed is a parameter of every turn, and so are the times read.
- Majority of 15 samples of a pin: the level of each data line at an edge is a parameter.
- Hardware registers, SPI and I2C transfers, PWM, timers and logging.
- Pixels: a cell of a frame buffer holds a tile number and a set of overlays; the theme's tile map is a parameter, indicator lights and theme files are absent, and overlays are taken to stay inside their cell.
- The clock is read once for every cell in the model, but only for blinking cells in the code.
- Display.Screen.UpdateDisplay: a cell cleared at start-up counts as the picture of character 0, because init_theme clears the cache without drawing.
- Mutex timeouts of the persistent memory: an update that does not get the mutex changes nothing and is not modelled; nor are the timezone environment and the always-on timer.
- PersistentMemory.AlteredBlockIsRejected: says nothing of changes spread wider than four bytes or reaching the CRC field itself, which a 32-bit CRC cannot always see.
- Sensor values are `real`: rounding to `float` is not modelled. A configuration that changes during a round is allowed in ReadTemps but not in Round.
- Dhcp.OptionAddHook: requires well-formed options that fit after growth; the code reads and writes on without a check otherwise, after an assertion for the first two extra bytes only.
- Bitmask.BitmaskToStr: requires a length other than 32 without ranges, because `1 << 32` is undefined in C; with ranges 32 is covered.
- Bitmask.StrToBitmask: requires that a text for length 32 is not "*", for the same reason. A range that begins below the base shifts by negative counts, which C leaves undefined; the model sets nothing for them. Null arguments and a failed allocation (-1, -3) are absent.
- BitmaskRoundTrip.ParsingUndoesPrinting: with ranges, excludes masks in which two or more adjacent bits begin a range at a number of three digits; only for those does the parser reach shifts by negative counts, which C leaves undefined.
- Power.PowI64: what it returns when the power does not fit and the guard does not notice is the wrapped product of the code, about which only its difference from the power is stated.
- Interrupts are atomic with respect to each other; a second core is not modelled.
- Network, telnet and ssh servers, file system, configuration, command tables, other functions of util.c, and floating-point formatting.
