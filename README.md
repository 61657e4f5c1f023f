# STM32 serial command parser — a Dafny model

This project models the core of STM32-Serial-Parser, firmware for an STM32
board. The firmware does four things:

- It receives text lines over a UART.
- It breaks each line into a command such as `A2 H14 M5`: a prefix letter,
  a command number and lettered parameters.
- It runs the handler for that command. The `A2` handler sets the DS3231
  real-time clock.
- It draws onto a 128 x 64 monochrome canvas that is later shipped to an
  SSD1306 display.

The modelled parts, one module each:

- `RingModel` and `RingBuffers`: `RingBuffer<T, L>`, the fixed-capacity
  circular queue with a two-step producer protocol. A producer first
  reserves a slot (`get_next_free`), then stores into it, then commits it
  (`push`). A consumer reads the slot at the tail (`get_next_occupied`) and
  then calls `pop`. `RingModel` is the value-level state with its
  operations and the queue lemmas. `RingBuffers.RingBuffer` is the object
  over an array; each of its methods is proved equal to the matching
  `RingModel` operation.
- `CText`: null-terminated strings and the C library's `atoi`, as C11
  section 7.22.1.2 defines it (skip white space, optional sign, longest
  digit run).
- `CommandParser`: `Parser`. It returns the first non-blank character
  (`get_prefix`), `atoi` of the text after it as a `uint16_t`
  (`get_number`), and the value after a parameter letter
  (`get_parameter`).
- `Gcode`: `GcodeParser::parse_and_call`, the `parse_A` switch and the
  `A2` handler. `A2` reads the clock, overrides the fields whose letters
  are given, forces 24-hour mode and writes the record back.
- `DS3231`: the clock's seven BCD time registers.
  - `get_time` decodes them, including the 12/24-hour and AM/PM bits of
    the hours register.
  - `set_time` first clamps every out-of-range field to its default, then
    encodes the eight-byte frame it transmits.
- `CanvasModel` and `Graphics`: `GFX`.
  - The canvas is 128 columns of 8 page bytes; the bottom row is in page
    0.
  - Pixel operations go through `get_page_and_mask`.
  - `pixel_iterate` visits pixels column by column. `draw_rectangle` is
    built on it.
  - `render_glyph` copies an 8 x 8 glyph of the 95-character font one
    column byte at a time.
  - `draw_text` moves a cursor through the text. It handles `\r`, `\n` and
    `\t`, wraps to the next line at column 119 and stops after line 7.
  - `CanvasModel` holds the canvas as a value, with its lemmas.
    `Graphics.Gfx` is the class over a byte array, and its methods are
    proved against `CanvasModel`.

C integer types are the subset types `u8`, `u16` and `i16`. Every
conversion the source makes between them wraps explicitly (`ToU8`, `ToU16`,
`ToI16`). Two examples:

- `get_parameter` stores `atoi`'s `int` into an `int16_t`.
- `A2` stores that `int16_t` into the `uint8_t` fields of the time record.

I2C transfers, whose results the code only tests, are modelled as success
flags. The bytes the clock returns are a parameter.

`RingBuffer::reset` is documented as "Resets head and tail"
(include/ring_buffer.h:29). Its body only moves the head back to the tail
(`head_ = tail_`) and lowers the full flag (include/ring_buffer.h:121-125).
The tail stays, and so does the producer's reservation pointer
(`virtual_head_`). The model follows the body. `RingModel.ResetLeavesReservationAhead` shows a
consequence: a reset with committed elements leaves the producer's
reservation pointer ahead of the head.

## Model

| member | source | states |
|---|---|---|
| RingModel.Advance | include/ring_buffer.h:127-130 | the index step `(i + 1) % L` stays below the capacity and wraps to 0 exactly at the end |
| RingModel.ModStep | include/ring_buffer.h:127-130 | the remainder `(i + 1) % L` for an index below L is 0 at the end of the storage and i + 1 everywhere else |
| RingModel.NumOccupied | include/ring_buffer.h:178-187 | the count is at most the capacity, 0 exactly when the buffer is empty and L exactly when it is full, and otherwise the distance from tail to head |
| RingModel.Contents | include/ring_buffer.h:178-187 | the queued elements a consumer sees number exactly `num_occupied` |
| RingModel.Reset | include/ring_buffer.h:121-125 | after reset the buffer is empty and holds no elements; slots, tail and reservation pointer are untouched |
| RingModel.Push | include/ring_buffer.h:127-130 | committing a slot keeps the index invariant even without a full check |
| RingModel.Pop | include/ring_buffer.h:132-137 | popping an empty buffer changes nothing; otherwise the tail advances by one slot with wrap-around, the buffer is no longer full, and head, reservation pointer and slots stay |
| RingModel.GetNextFree | include/ring_buffer.h:139-154 | a slot is handed out exactly when the buffer is not full, and a full buffer is left exactly as it was (it "will not accept incoming data when full", line 14); the slot is the reservation pointer's slot and the pointer advances by one with wrap-around; the buffer becomes full exactly when the pointer reaches the tail; head, tail and slots are untouched |
| RingModel.GetNextOccupied | include/ring_buffer.h:156-160 | no slot exactly when empty; otherwise the slot holds the oldest queued element |
| RingModel.EnqueueAll | test/test_ring_buffer.cpp:48-53 | reserving, storing and committing each element in turn appends the elements to the queue in order |
| RingModel.Drain | test/test_ring_buffer.cpp:59-64 | reading the tail slot and popping n times yields the n oldest elements in order and leaves the rest queued |
| RingModel.EnqueueCommits | include/ring_buffer.h:127-154 | with no reservation outstanding and room left, reserve-store-commit reserves the head slot and appends exactly the stored value |
| RingModel.PopRemovesOldest | include/ring_buffer.h:132-160 | on a non-empty buffer the consumer reads the tail slot, and pop removes exactly the oldest element |
| RingModel.FillThenDrain | test/test_ring_buffer.cpp:45-67 | filling all L slots of an empty buffer makes it full, refuses a further reservation, and draining returns the elements in order and leaves it empty |
| RingModel.ReserveAll | include/ring_buffer.h:139-154 | k reservations in a row, with room for k, advance the reservation pointer by k and hand out k slots, the i-th being head + i with wrap-around; the buffer is full exactly when k fills it |
| RingModel.StoreAll | include/ring_buffer.h:139-154 | storing into distinct reserved slots puts each value into its slot and leaves every other slot and every index as it was |
| RingModel.PushAll | include/ring_buffer.h:127-130 | k commits advance the head by k with wrap-around and change nothing else |
| RingModel.ReserveStoreCommit | include/ring_buffer.h:127-154 | k reservations, a store into each and k commits leave the tail, move head and reservation pointer k slots on, fill the buffer exactly when k fills it, put the i-th value in the i-th slot after the queued elements and write no other slot |
| RingModel.SlotOfInjective | include/ring_buffer.h:127-154 | the slots at different distances (below the capacity) from the tail are different |
| RingModel.ReservedSlots | include/ring_buffer.h:139-154 | the k slots reserved in a row are the k slots after the queued elements, pairwise distinct |
| RingModel.CommittedAfterStores | include/ring_buffer.h:127-154 | storing values into the slots after the queued elements and committing them all appends the values, in slot order, to the queue |
| RingModel.CommittedCount | include/ring_buffer.h:127-130 | moving the head k slots on, with room for k and the tail kept, adds exactly k to the number of queued elements |
| RingModel.ReservationsCommitInOrder | include/ring_buffer.h:127-154 | several reservations without a commit in between get distinct slots, and storing into them and committing appends the values to the queue in the order of reservation |
| RingModel.StoredReservationsAppend | include/ring_buffer.h:127-154 | storing into the slots of k reservations in a row and committing them appends the values to the queue in reservation order |
| RingModel.ResetLeavesReservationAhead | include/ring_buffer.h:121-125 | a reset with some but not all slots committed leaves the reservation pointer ahead of the head, so the next reservation is not the head slot |
| RingBuffers.RingBuffer.constructor | include/ring_buffer.h:90-116 | a new buffer has all indices 0, the full flag down and L slots |
| RingBuffers.RingBuffer.Reset | include/ring_buffer.h:121-125 | the object's new state is the modelled reset of its old state |
| RingBuffers.RingBuffer.Push | include/ring_buffer.h:127-130 | the object's new state is the modelled push of its old state |
| RingBuffers.RingBuffer.Pop | include/ring_buffer.h:132-137 | the object's new state is the modelled pop of its old state |
| RingBuffers.RingBuffer.GetNextFree | include/ring_buffer.h:139-154 | the returned slot and new state are those of the modelled reservation |
| RingBuffers.RingBuffer.GetNextOccupied | include/ring_buffer.h:156-160 | the returned slot is the modelled tail slot, none when empty |
| RingBuffers.RingBuffer.IsEmpty | include/ring_buffer.h:168-171 | true exactly when the modelled state is empty |
| RingBuffers.RingBuffer.IsFull | include/ring_buffer.h:173-176 | true exactly when the modelled state is full |
| RingBuffers.RingBuffer.NumOccupied | include/ring_buffer.h:178-187 | equals the modelled count |
| RingBuffers.UnitTestScenario | test/test_ring_buffer.cpp:19-67 | the unit test's assertions hold for every capacity of at least 2: empty at start, one value read back, full after filling, a further reservation refused, elements drained in order, empty at the end |
| RingBuffers.EnqueueStep | test/test_ring_buffer.cpp:48-53 | one reserve-store-commit round on the object is the modelled enqueue |
| RingBuffers.FillAll | test/test_ring_buffer.cpp:48-53 | the fill loop appends its elements to the queue in order |
| RingBuffers.DrainAll | test/test_ring_buffer.cpp:59-64 | the drain loop returns the n oldest elements in order and leaves the rest |
| CommandParser.FirstNotWhitespace | src/parser.cpp:51-59 | the index is the first character that is none of ' ', '\n' and '\r', or the terminator if there is none |
| CText.Atoi | src/parser.cpp:28 | `atoi`: white space skipped, an optional sign, then the longest digit run; AtoiSpec states what it gives |
| CText.AtoiSpec | src/parser.cpp:28 | `atoi` skips a leading white-space character; on text that starts with a digit it is the value of the digit run; a leading '-' negates the value of the run after it and '+' keeps it; empty text or text that starts with anything else gives 0; a negative result needs a '-' in the text |
| CText.AtoiSkipsSpace | src/parser.cpp:28 | a leading white-space character does not change what `atoi` reads |
| CText.DecimalValue | src/parser.cpp:28 | the digit string of the decimal notation of n has the value n |
| CText.AtoiDecimal | src/parser.cpp:43 | `atoi` reads back the decimal notation of n whatever non-digit text follows |
| CommandParser.Number | src/parser.cpp:24-29 | `get_number` on a string: `atoi` of the text after the prefix, as a `uint16_t`; NumberSpec states what it gives |
| CommandParser.NumberSpec | src/parser.cpp:24-29 | the command number is `atoi` of the text after the prefix, wrapped to `uint16_t`: white space there is skipped, a digit run gives its value, '-' and '+' apply to the run after them, and an empty text or any other character gives 0 |
| CommandParser.Prefix | src/parser.cpp:16-22 | the prefix is '\0' exactly when the line is blank; otherwise it is a non-blank character of the line |
| CommandParser.FindChar | src/parser.cpp:31-45 | the search returns the first index holding the letter, or the length when the letter is absent |
| CommandParser.Parameter | src/parser.cpp:31-45 | the parameter is found exactly when its letter occurs; a missing letter, or one not followed by a digit, yields the default |
| CommandParser.ParameterFoundIffPresent | src/parser.cpp:31-45 | `get_parameter` reports a parameter exactly when its letter occurs among the string's characters |
| CommandParser.ParameterDigits | src/parser.cpp:31-45 | a letter followed by digits yields the value of the digit run, wrapped to `int16_t` |
| CommandParser.ParameterWithoutDigits | src/parser.cpp:31-41 | a letter that occurs but is not followed by a digit is reported found, with the default as its value |
| CommandParser.ParameterAt | src/parser.cpp:36-44 | the value read once the letter's index is known: found exactly when the index is inside the string, and the default when the letter is absent or not followed by a digit |
| CommandParser.ParameterAtDigits | src/parser.cpp:38-44 | when the letter at the index is followed by a digit, the value is the digit run after it (what `atoi` reads there), wrapped to `int16_t` |
| CommandParser.FindCharFirst | src/parser.cpp:31-45 | the first occurrence of the letter is the one read |
| CommandParser.FirstNotWhitespaceAfterBlanks | src/parser.cpp:51-59 | leading blanks are skipped exactly |
| CommandParser.PrefixOfWritten | src/parser.cpp:16-22 | a line of blanks and then a non-blank character has that character as its prefix |
| CommandParser.NumberAfterPrefix | src/parser.cpp:24-29 | a decimal number right after the prefix is read back, wrapped to `uint16_t` |
| CommandParser.PrefixAndNumberOfWritten | src/parser.cpp:16-29 | a line written as blanks, a prefix and a decimal number k gives back that prefix and k mod 2^16 |
| CommandParser.WrittenCommand | src/parser.cpp:16-29 | a line written as blanks, a non-blank character and any text has that character as its prefix and reads its number from that text |
| CommandParser.ParameterReadsDecimal | src/parser.cpp:31-45 | a letter whose first occurrence is followed by the decimal notation of v < 2^15 reads back v |
| CommandParser.Parser.constructor | include/parser.h:71-76 | a new parser holds no string |
| CommandParser.Parser.SetString | src/parser.cpp:6-9 | the parser holds the line and its length as a `uint16_t` |
| CommandParser.Parser.Reset | src/parser.cpp:11-14 | the parser holds no string and its length is 0 |
| CommandParser.Parser.HasString | src/parser.cpp:47-49 | a parser without a string holds the empty line of length 0; one with a string has a length within the line |
| CommandParser.Parser.GetFirstNotWhitespace | src/parser.cpp:51-59 | the whitespace-skipping loop returns the first non-blank index, or 0 without a string |
| CommandParser.Parser.GetPrefix | src/parser.cpp:16-22 | returns the line's prefix, or '\0' without a string |
| CommandParser.Parser.GetNumber | src/parser.cpp:24-29 | returns the line's command number, or 0 without a string |
| CommandParser.Parser.GetParameter | src/parser.cpp:31-45 | `dest` gets the default first; without a string the result is (false, default); otherwise `std::find` over the stored length (FindChar) decides whether the letter is found, and the value is the wrapped digit run after it or the default |
| CommandParser.UnitTestPrefixAndNumber | test/test_parser.cpp:14-15 | " A132 S1 Q52 C" has prefix 'A' and number 132 |
| CommandParser.UnitTestParameterS | test/test_parser.cpp:17-19 | on the same line S is found with value 1 |
| CommandParser.UnitTestParameterQ | test/test_parser.cpp:21-23 | on the same line Q is found with value 52 |
| CommandParser.UnitTestParameterDefaults | test/test_parser.cpp:25-31 | C is found but keeps the default; W is not found and keeps the default |
| Gcode.HandlerOfNumber | src/gcode_parser.cpp:51-69 | numbers 0, 1, 2 and 3 select A0, A1, A2 and A3; exactly the numbers above 3 have no handler |
| Gcode.Dispatch | src/gcode_parser.cpp:39-49 | a handler runs only for prefix 'A' and a number up to 3; under prefix 'A' the number selects it |
| Gcode.DispatchOfWritten | src/gcode_parser.cpp:39-69 | a line written as blanks, a letter and a decimal number runs handler k mod 2^16 when the letter is 'A', and no handler otherwise |
| Gcode.Field | src/gcodes/A2.cpp:29-48 | a `uint8_t` time field keeps the value read exactly when its letter is absent; otherwise it takes the parameter's value, wrapped to 8 bits |
| Gcode.YearField | src/gcodes/A2.cpp:49-51 | the year keeps the value read exactly when 'Y' is absent; otherwise it takes the parameter's value, wrapped to `uint16_t` |
| Gcode.Requested | src/gcodes/A2.cpp:28-51 | the record A2 writes is always in 24-hour mode |
| Gcode.A2Spec | src/gcodes/A2.cpp:20-58 | a failed read sends "could not get time" and writes nothing; otherwise one frame starting at register 0 is written, and "time set" is sent exactly when the write succeeds |
| Gcode.A2WritesRequestedTime | src/gcodes/A2.cpp:20-58 | after a successful read, the frame A2 writes reads back as the requested record after clamping |
| Gcode.A2SecondsFromDecimal | src/gcodes/A2.cpp:31-51 | `S` followed by a seconds value up to 59 puts exactly that value into the clock |
| Gcode.A2ParameterWithoutDigits | src/gcodes/A2.cpp:31-51 | a letter present without digits sets its field to 0, not to the value read |
| Gcode.FieldWithoutDigits | src/gcodes/A2.cpp:29-48 | a letter present without digits sets its `uint8_t` field to 0 |
| Gcode.YearWithoutDigits | src/gcodes/A2.cpp:49-51 | a 'Y' present without digits sets the year to 0 |
| Gcode.GcodeParser.constructor | include/gcode_parser.h:47-48 | a new G-code parser owns a parser that holds no string |
| Gcode.GcodeParser.ParseAndCall | src/gcode_parser.cpp:39-49 | the line is loaded into the parser first; the handler run is the dispatch of the line; only A2 touches the clock |
| Gcode.GcodeParser.ParseA | src/gcode_parser.cpp:51-69 | the handler is chosen by the command number; A2's outcome is the A2 specification |
| Gcode.GcodeParser.ReadField | src/gcodes/A2.cpp:29-48 | one `if (get_parameter(p, dest)) field = dest;` step gives the field Field describes: kept when the letter is absent, the wrapped parameter otherwise |
| Gcode.GcodeParser.ReadYear | src/gcodes/A2.cpp:49-51 | the same step for the `uint16_t` year |
| Gcode.GcodeParser.A2 | src/gcodes/A2.cpp:20-58 | the handler's reply and the frame it writes are those of the A2 specification |
| DS3231.Low | src/DS3231/DS3231.cpp:126-143 | the low nibble of a register is below 16 |
| DS3231.High | src/DS3231/DS3231.cpp:126-143 | the high nibble of a register is below 16 |
| DS3231.Byte | src/DS3231/DS3231.cpp:167-198 | composing two nibbles with a shift and `\|` gives back both nibbles |
| DS3231.DayBits | src/DS3231/DS3231.cpp:126-143 | the day bits are below 8 and keep a day below 8 |
| DS3231.DecodeHours | src/DS3231/DS3231.cpp:130-138 | AM/PM is "unused" exactly when bit 6 (12-hour mode) is clear, and PM exactly when bits 6 and 5 are set; hours are at most 45 |
| DS3231.DecodeRegisters | src/DS3231/DS3231.cpp:126-143 | each decoded field is within the bound its register's bits allow (seconds and minutes at most 85, hours at most 45, the year within 2000..2165); the decoded values themselves are pinned by the round-trip lemmas below |
| DS3231.KeepWithin | src/DS3231/DS3231.cpp:157-164 | a value in its inclusive range is kept, any other is replaced by the default |
| DS3231.Clamp | src/DS3231/DS3231.cpp:157-164 | every field of the clamped record is in range |
| DS3231.ClampFixesExactlyInRange | src/DS3231/DS3231.cpp:157-164 | clamping leaves a record unchanged exactly when it is in range, and clamping twice is clamping once |
| DS3231.GetTime | src/DS3231/DS3231.cpp:109-147 | succeeds exactly when both I2C transfers do; on success the record is the decoded registers, on failure it is untouched |
| DS3231.EncodeHours | src/DS3231/DS3231.cpp:170-184 | the hours register has bit 6 set exactly in 12-hour mode, bit 5 set exactly for PM (12-hour) or for hours from 20 (24-hour), bit 4 set exactly for hours 10..19, and the hours' last digit in the low nibble |
| DS3231.EncodeRegisters | src/DS3231/DS3231.cpp:167-198 | `set_time` writes seven registers; their meaning is stated by EncodeRegistersBcd and EncodeHours |
| DS3231.EncodeRegistersBcd | src/DS3231/DS3231.cpp:167-198 | for an in-range record, the seconds, minutes, date and month registers hold the value in two BCD nibbles, the day register holds the day, and the year register holds the years since 2000 |
| DS3231.HighBits | src/DS3231/DS3231.cpp:170-184 | three bits or-ed into bits 6, 5 and 4 of the high nibble can each be read back |
| DS3231.BcdValue | src/DS3231/DS3231.cpp:167-198 | a value below 100 written as tens and units nibbles reads back as that value |
| DS3231.ValidTimeRoundTrips | src/DS3231/DS3231.cpp:88-95 | the default record is in range and in 24-hour mode, clamping leaves it unchanged, and writing it to the clock and reading back gives it again |
| DS3231.FillFrame | src/DS3231/DS3231.cpp:167-198 | the frame is register address 0 followed by the seven encoded registers |
| DS3231.SetTime | src/DS3231/DS3231.cpp:150-205 | the caller's record is clamped in place, the frame encodes the clamped record, and success is the transmit's result |
| DS3231.HoursRoundTrip | src/DS3231/DS3231.cpp:170-184 | the hours register decodes back to the hours and AM/PM encoded, in 24-hour mode and for 12-hour hours below 20 |
| DS3231.HoursModeRoundTrip | src/DS3231/DS3231.cpp:170-184 | the hour mode (24-hour, AM or PM) always survives the hours register |
| DS3231.HoursValueRoundTrip | src/DS3231/DS3231.cpp:170-184 | the hour value survives the hours register in 24-hour mode and for 12-hour hours below 20 |
| DS3231.HoursRegister | src/DS3231/DS3231.cpp:170-184 | the hours and mode read back from the seven registers are those decoded from the hours register `set_time` wrote |
| DS3231.BcdRoundTrip | src/DS3231/DS3231.cpp:167-198 | a two-digit BCD field decodes back to its value |
| DS3231.YearRoundTrip | src/DS3231/DS3231.cpp:197-198 | a year in 2000..2099 decodes back from its register |
| DS3231.SecondsMinutesRoundTrip | src/DS3231/DS3231.cpp:167-168 | seconds and minutes of an in-range record decode back |
| DS3231.DayRoundTrip | src/DS3231/DS3231.cpp:186 | the day of an in-range record decodes back |
| DS3231.DateRoundTrip | src/DS3231/DS3231.cpp:189 | the date of an in-range record decodes back |
| DS3231.MonthRoundTrip | src/DS3231/DS3231.cpp:192-195 | the month of an in-range record decodes back |
| DS3231.DecodeEncode | src/DS3231/DS3231.cpp:126-198 | reading back what `set_time` wrote gives the record written, for 24-hour records and for 12-hour records with hours below 20 |
| DS3231.TwelveHourModeDropsTwenty | src/DS3231/DS3231.cpp:170-184 | in 12-hour mode hours 20..23 read back 20 lower, because bit 5 then means PM |
| DS3231.TwelveHourValue | src/DS3231/DS3231.cpp:170-184 | in 12-hour mode an hour of 20..23 comes back from the hours register as 0..3 |
| DS3231.RoundTripIff | src/DS3231/DS3231.cpp:126-198 | for an in-range record the round trip holds exactly when it is 24-hour or its hours are below 20 |
| DS3231.UnitTestSetThenGet | test/test_rtc_i2c.cpp:28-38 | setting hours 2 and minutes 29 on any record read from the clock, in either hour mode, and reading back gives 2 and 29 |
| CanvasModel.BitMasksDisjoint | src/GFX.cpp:15-18 | the masks of two different bits share no bit |
| CanvasModel.PageAndMask | src/GFX.cpp:15-18 | the mask is bit 7 - row % 8; an on-canvas row lies in its page's eight rows, counting pages from the bottom; an off-canvas row gives a page index far past the canvas |
| CanvasModel.DistinctRowsDistinctBits | src/GFX.cpp:15-18 | two different rows never share a page and a mask bit |
| CanvasModel.PixelOf | src/GFX.cpp:36-39 | `get_pixel` reads the pixel's mask bit in its page byte; PixelAfterWithPixel relates it to `set_pixel` |
| CanvasModel.WithPixel | src/GFX.cpp:21-28 | `set_pixel` sets or clears the pixel's mask bit; PixelAfterWithPixel states its effect on every pixel |
| CanvasModel.Toggled | src/GFX.cpp:41-43 | `toggle_pixel` writes the inverse of the pixel read; PixelAfterToggle and ToggleTwiceRestores state its effect |
| CanvasModel.PixelAfterWithPixel | src/GFX.cpp:21-28 | `set_pixel` sets exactly the given pixel and leaves every other pixel as it was |
| CanvasModel.PixelAfterToggle | src/GFX.cpp:41-43 | `toggle_pixel` inverts exactly the given pixel |
| CanvasModel.ToggleTwiceRestores | src/GFX.cpp:41-43 | toggling a pixel twice restores the canvas |
| CanvasModel.Blank | src/GFX.cpp:52-55 | on the cleared canvas every pixel is off |
| CanvasModel.ColumnVisitsMembers | include/GFX.h:153-158 | the inner loop visits exactly the pixels of its column between the two rows |
| CanvasModel.RectVisitsMembers | include/GFX.h:153-158 | the nested loops visit exactly the pixels of the column and row ranges |
| CanvasModel.VisitsExactlyRectangle | include/GFX.h:143-159 | `pixel_iterate` visits exactly the pixels of the half-open rectangle, and none when it is empty |
| CanvasModel.Visits | include/GFX.h:143-159 | the pixels `pixel_iterate` visits, in order; VisitsExactlyRectangle and RectVisitsOrdered state which and in what order |
| CanvasModel.ColumnVisitsOrdered | include/GFX.h:153-158 | within a column, rows are visited in increasing order |
| CanvasModel.RectVisitsOrdered | include/GFX.h:143-159 | pixels are visited column by column, each column top to bottom |
| CanvasModel.PixelAfterPainted | src/GFX.cpp:21-28 | after a series of `set_pixel` calls with one value, a pixel has that value exactly when it was among them |
| CanvasModel.PaintedConcat | src/GFX.cpp:21-28 | painting two pixel lists in turn is painting their concatenation |
| CanvasModel.RectVisitsOnCanvas | src/GFX.cpp:80-84 | a rectangle within the canvas hands `set_pixel` only on-canvas pixels |
| CanvasModel.PaintColumnFollowsVisits | include/GFX.h:153-158 | painting one column is painting its visited pixels in order |
| CanvasModel.PaintRectFollowsVisits | include/GFX.h:143-159 | painting the rectangle column by column is painting its visited pixels in order |
| CanvasModel.RectangleFollowsVisits | src/GFX.cpp:80-84 | `draw_rectangle` calls `set_pixel` on exactly the pixels `pixel_iterate` visits, and all of them are on the canvas |
| CanvasModel.Rectangle | src/GFX.cpp:80-84 | `draw_rectangle` paints the rectangle column by column; RectangleFollowsVisits and PixelAfterRectangle state its effect |
| CanvasModel.PixelAfterRectangle | src/GFX.cpp:80-84 | after `draw_rectangle` every pixel inside the half-open rectangle has the value and every pixel outside is unchanged |
| CanvasModel.GlyphIndex | src/GFX.cpp:92-100 | a glyph exists exactly for characters 32..126, at index c - 32 |
| CanvasModel.ColumnBitsHoldRows | src/GFX.cpp:114-120 | the column byte built from the glyph rows holds glyph row r in bit 7 - r, where `get_page_and_mask` looks for it |
| CanvasModel.ByteIndexInjective | include/GFX.h:26 | different (column, page) pairs are different canvas bytes |
| CanvasModel.GlyphColumnsBytes | src/GFX.cpp:87-124 | the column writes set columns x .. x + n - 1 of the page to the glyph's columns, left to right, and touch no other byte |
| CanvasModel.TextPage | src/GFX.cpp:89 | text line y is drawn on page 7 - y; lines past 7 are drawn on the bottom line |
| CanvasModel.RenderedGlyph | src/GFX.cpp:87-124 | `render_glyph` writes the glyph's eight column bytes into the text line's page, or nothing for a character without a glyph; GlyphPixels and GlyphLeavesRestUnchanged state its effect |
| CanvasModel.GlyphPixels | src/GFX.cpp:87-124 | after `render_glyph`, the pixel k columns right of the position and r rows into the line shows bit 7 - k of glyph row r |
| CanvasModel.GlyphLeavesRestUnchanged | src/GFX.cpp:87-124 | `render_glyph` leaves every pixel outside the glyph's 8 x 8 cell unchanged |
| CanvasModel.AfterGlyph | src/GFX.cpp:137-155 | after a glyph the cursor column is below 119; drawing continues exactly when the column has not wrapped past 118 or a next line (at most 7) exists |
| CanvasModel.CursorStep | src/GFX.cpp:137-180 | once drawing has stopped a character leaves the cursor alone, and drawing never restarts; a live cursor ends left of column 119; '\r' goes to column 0 of the same line; '\n' moves to column 0 of line page + 1 (wrapped to `uint8_t`), and drawing goes on exactly when that line is at most 7; a cursor on a line up to 7 stays on such a line while drawing goes on |
| CanvasModel.CanvasStep | src/GFX.cpp:157-180 | one character's effect on the canvas: nothing once stopped or for '\r' and '\n', two spaces for a tab, otherwise its glyph at the cursor; TabIsTwoSpaces and StoppedDrawsNothing state its properties |
| CanvasModel.DrawnText | src/GFX.cpp:127-181 | `draw_text` applies the character steps in order from the given position; NextCharacter, StopsEarly and FifteenGlyphsPerLine state its properties |
| CanvasModel.TextFromLeftFits | src/GFX.cpp:127-181 | text started at column 120 or before never draws a glyph past the right edge |
| CanvasModel.StoppedDrawsNothing | src/GFX.cpp:157-180 | once drawing has stopped, the rest of the text changes neither cursor nor canvas |
| CanvasModel.TabIsTwoSpaces | src/GFX.cpp:172-176 | a tab moves the cursor and draws exactly as two spaces do |
| CanvasModel.FifteenGlyphsPerLine | src/GFX.cpp:137-155 | from column 0 the k-th glyph of a line is at column 8k for k < 15; after the 15th the cursor is at the next line's start, or drawing stops after line 7 |
| CanvasModel.FitsPrefix | src/GFX.cpp:157-180 | a prefix of text that fits the canvas fits too |
| CanvasModel.NextCharacter | src/GFX.cpp:157-180 | one more character applies its step to the cursor and canvas reached by the characters before it |
| CanvasModel.StopsEarly | src/GFX.cpp:157-180 | when drawing has stopped after n characters, the whole text leaves the canvas as those n did |
| Graphics.Gfx.constructor | include/GFX.h:121-122 | a new canvas is blank |
| Graphics.Gfx.SetPixel | src/GFX.cpp:21-28 | the canvas becomes the one with the pixel set to the value |
| Graphics.Gfx.ResetPixel | src/GFX.cpp:31-33 | the canvas becomes the one with the pixel off |
| Graphics.Gfx.GetPixel | src/GFX.cpp:36-39 | returns the pixel's value on the canvas |
| Graphics.Gfx.TogglePixel | src/GFX.cpp:41-43 | the canvas becomes the one with the pixel inverted |
| Graphics.Gfx.ClearCanvas | src/GFX.cpp:52-55 | the canvas becomes blank |
| Graphics.Gfx.PixelIterate | include/GFX.h:143-159 | the nested loops visit the rectangle's pixels in `pixel_iterate`'s order |
| Graphics.Gfx.DrawRectangle | src/GFX.cpp:80-84 | the canvas becomes the rectangle painted over the old canvas |
| Graphics.Gfx.DrawRectangleColumn | include/GFX.h:153-158 | one pass of the inner loop paints its column over the old canvas |
| Graphics.Gfx.RenderGlyph | src/GFX.cpp:87-124 | the canvas becomes the old canvas with the glyph drawn, or unchanged for a character without one |
| Graphics.Gfx.GlyphColumnByte | src/GFX.cpp:114-120 | the inner loop builds the column byte that holds each glyph row in its bit |
| Graphics.Gfx.RenderOne | src/GFX.cpp:137-155 | draws the glyph at the cursor and advances the cursor, or does nothing once drawing has stopped |
| Graphics.Gfx.DrawText | src/GFX.cpp:127-181 | the canvas becomes the old canvas with the text drawn character by character |

## Left out

- The UART transport, the RTOS tasks and the HAL start-up (`gcode_task`, `begin`, the interrupt handlers): they are I/O and scheduling. The parser is given each line as a parameter.
- `A0`, `A1` and `A3`: the model records that their handler is chosen. Their effects (switching the LED, reporting the time over UART) are I/O. `report_time` and `report_all_registers` are left out for the same reason.
- The I2C bus: `HAL_I2C_Master_Transmit` and `HAL_I2C_Master_Receive` become success flags, and the bytes received become a parameter.
- `GFX::draw` and the SSD1306 driver: they transfer the canvas to the display through a callback.
- `GFX::draw_circle` (src/GFX.cpp:59-75): it decides which pixels to set with `Point::distance`, which is not part of this model and probably uses floating point. Its pixel visiting is the same `pixel_iterate` that `draw_rectangle` uses, and that is modelled.
- `GFX::printf`, `vprintf` and `move_cursor`, and the `draw_text(const char*)` overload that uses `cursor_`: they are declared without a definition in the selected sources.
- The font bytes of include/SSD1306/my_fonts.h: the font is a constructor parameter of `Gfx`, with the font's 95 glyphs and offset 32.
- `utils::Point`, `utils::constrain` and `utils::is_within` are not part of this model. `is_within` is taken to be an inclusive range test. `constrain(v, lo, hi)` is taken to clamp v into lo..hi; `CanvasModel.TextPage` relies on this for `constrain(pos.y_, 0, 7)` (src/GFX.cpp:89).
- `atoi` overflow is undefined behaviour in C. The model's `atoi` is unbounded, so `CText.Atoi` returns the exact value; only the later conversions to `int16_t` and `uint16_t` wrap.
- CommandParser.Parser.GetNumber: on a blank line `get_number` reads past the terminator, which is undefined behaviour in C. The model reads the text there as empty and gives 0.
- CommandParser.Parser: the source keeps a borrowed pointer to the caller's buffer. The model keeps a copy of its characters, so aliasing with the caller's buffer is not modelled.
- `volatile` on the ring buffer's indices, and the critical sections around them: the model is sequential.
- The `const` overload of `get_next_occupied`: it behaves like the other overload.
- RingModel.Push: its contract states only that the index invariant is kept. What push does to the queue is stated by `RingModel.EnqueueCommits`, for a push that follows a reservation. A push with no reservation outstanding is not specified further.
- Graphics.Gfx.SetPixel, ResetPixel, GetPixel and TogglePixel require an on-canvas pixel. Outside the canvas, `set_pixel` indexes past the array, which is undefined behaviour.
- Graphics.Gfx.DrawRectangle and CanvasModel.Rectangle require the rectangle to fit the canvas (`RectFits`), for the same reason.
- Graphics.Gfx.RenderGlyph requires the glyph to end within the canvas (`GlyphFits`), for the same reason.
- Graphics.Gfx.DrawText requires `TextFits`. `CanvasModel.TextFromLeftFits` shows that every text starting at column 120 or before meets it.
- CanvasModel.Painted skips off-canvas pixels. `CanvasModel.RectangleFollowsVisits` shows that `draw_rectangle` never hands one over.
- Graphics.Gfx.DrawRectangleColumn and Graphics.Gfx.GlyphColumnByte are the inner loops of `pixel_iterate` and `render_glyph`. They are written as methods of their own, so that each loop carries its own invariant.
- The early `return` from `draw_text`'s loop is modelled as a cursor flag. After the flag clears, the rest of the text does nothing; `CanvasModel.StoppedDrawsNothing` proves that this is the same as returning.
- DS3231.SetTime: the source clamps the caller's record through a reference. The model returns the clamped record, and the transmitted frame, as results.
